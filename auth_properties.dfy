/** Properties that relate several requests: sequences of controller calls
    from one client, and the invariants every reachable state satisfies. */
module AuthProperties {
  import opened UserModel
  import opened PassportConfig
  import opened AuthSpec

  /** One request to the API, with the choices its environment makes:
      the bcrypt salt, the generated TOTP secret, and whether each store or
      session write completes. */
  datatype Request =
    | RegisterRequest(username: Option<string>, password: Option<string>, salt: string,
                      lookup: StoreStatus, write: StoreStatus)
    | LoginRequest(username: Option<string>, password: Option<string>, lookup: StoreStatus)
    | StatusRequest
    | LogoutRequest(sessionWrite: StoreStatus)
    | SetupRequest(generated: GeneratedSecret, write: StoreStatus)
    | VerifyRequest(token: Option<string>, write: StoreStatus)
    | ResetRequest(write: StoreStatus)

  /** The hasher's compare accepts every password against its own hash. */
  ghost predicate CompareAcceptsHash(lib: Primitives) {
    forall password, salt :: lib.compare(password, lib.hash(password, salt))
  }

  /** Serves one request. Every request keeps the invariant and leaves each
      existing record's id, username and password hash as they were; only a
      login binds a session, and a status request changes nothing. */
  function Serve(s: State, lib: Primitives, req: Request): (t: Step)
    requires Valid(s)
    ensures Valid(t.state)
    ensures CredentialsKept(s.users, t.state.users)
    ensures RejectsMissingSecret(lib.totpOk) && MfaConsistent(s.users) ==> MfaConsistent(t.state.users)
    ensures t.state.session != s.session ==> req.LoginRequest? || t.state.session.None?
    ensures req.StatusRequest? ==> t.state == s
  {
    match req
    case RegisterRequest(username, password, salt, lookup, write) =>
      Register(s, lib, username, password, salt, lookup, write)
    case LoginRequest(username, password, lookup) => Login(s, lib, username, password, lookup)
    case StatusRequest => Step(s, AuthStatus(s))
    case LogoutRequest(sessionWrite) => Logout(s, sessionWrite)
    case SetupRequest(generated, write) => Setup2FA(s, lib, generated, write)
    case VerifyRequest(token, write) => Verify2FA(s, lib, token, write)
    case ResetRequest(write) => Reset2FA(s, write)
  }

  /** The state after serving the requests in order. */
  function Run(s: State, lib: Primitives, reqs: seq<Request>): (t: State)
    requires Valid(s)
    ensures Valid(t)
    decreases |reqs|
  {
    if reqs == [] then s else Run(Serve(s, lib, reqs[0]).state, lib, reqs[1..])
  }

  /** Whatever the requests, the 2FA invariant survives, provided the TOTP
      library rejects a missing secret. */
  lemma {:induction false} RunKeepsMfaConsistent(s: State, lib: Primitives, reqs: seq<Request>)
    requires Valid(s) && MfaConsistent(s.users) && RejectsMissingSecret(lib.totpOk)
    ensures MfaConsistent(Run(s, lib, reqs).users)
    decreases |reqs|
  {
    if reqs != [] {
      RunKeepsMfaConsistent(Serve(s, lib, reqs[0]).state, lib, reqs[1..]);
    }
  }

  /** Once stored, a record keeps its id, username and password hash forever:
      no request renames a user or changes a password. */
  lemma {:induction false} RunKeepsCredentials(s: State, lib: Primitives, reqs: seq<Request>)
    requires Valid(s)
    ensures CredentialsKept(s.users, Run(s, lib, reqs).users)
    decreases |reqs|
  {
    if reqs != [] {
      var next := Serve(s, lib, reqs[0]).state;
      RunKeepsCredentials(next, lib, reqs[1..]);
    }
  }

  /** Every state reachable from the empty store satisfies the invariant and
      the 2FA invariant. */
  lemma ReachableStatesAreConsistent(lib: Primitives, reqs: seq<Request>)
    requires RejectsMissingSecret(lib.totpOk)
    ensures Valid(Run(Initial, lib, reqs)) && MfaConsistent(Run(Initial, lib, reqs).users)
  {
    RunKeepsMfaConsistent(Initial, lib, reqs);
  }

  /** Registering a fresh name succeeds; registering it again, whatever the
      password, fails with "Username already taken". */
  lemma RegisterTwice(s: State, lib: Primitives, name: string, password: string, password2: string,
                      salt: string, salt2: string)
    requires Valid(s) && name != "" && password != "" && password2 != "" && !NameTaken(s.users, name)
    ensures var first := Register(s, lib, Some(name), Some(password), salt, Up, Up);
      first.response == Response(201, MessageJson("User registered successfully")) &&
      Register(first.state, lib, Some(name), Some(password2), salt2, Up, Up)
        == Step(first.state, Response(400, ErrorJson("Username already taken")))
  {
    var first := Register(s, lib, Some(name), Some(password), salt, Up, Up);
    assert first.state.users[s.nextId].username == name;
  }

  /** A successful registration adds exactly one record, under a new id. */
  lemma RegisterAddsOneRecord(s: State, lib: Primitives, username: Option<string>, password: Option<string>,
                              salt: string, lookup: StoreStatus, write: StoreStatus)
    requires Valid(s)
    ensures var t := Register(s, lib, username, password, salt, lookup, write);
      t.response.status == 201 ==>
        |t.state.users| == |s.users| + 1 &&
        (forall id :: id in t.state.users && id !in s.users ==> id == s.nextId) &&
        t.state.users[s.nextId].password == lib.hash(password.value, salt)
  {
    var t := Register(s, lib, username, password, salt, lookup, write);
    if t.response.status == 201 {
      assert t.state.users.Keys == s.users.Keys + {s.nextId};
      assert |s.users.Keys + {s.nextId}| == |s.users.Keys| + 1;
    }
  }

  /** After registering, the same credentials log in: the session is bound to
      the new record, which reports MFA off. */
  lemma RegisterThenLogin(s: State, lib: Primitives, name: string, password: string, salt: string)
    requires Valid(s) && name != "" && password != "" && !NameTaken(s.users, name)
    requires CompareAcceptsHash(lib)
    ensures var first := Register(s, lib, Some(name), Some(password), salt, Up, Up);
      Login(first.state, lib, Some(name), Some(password), Up) ==
        Step(first.state.(session := Some(s.nextId)),
             Response(200, UserJson("User logged in successfully", name, false)))
  {
    var first := Register(s, lib, Some(name), Some(password), salt, Up, Up);
    var user := first.state.users[s.nextId];
    assert lib.compare(password, lib.hash(password, salt));
    VerifyLocalDecidedByRecord(first.state.users, s.nextId, password, lib.compare);
  }

  /** An unknown username and a wrong password are told apart only inside the
      strategy: the client gets the same 401 and the state does not change. */
  lemma LoginFailuresLookAlike(s: State, lib: Primitives, unknown: string, id: Id,
                               password: string, wrongPassword: string)
    requires Valid(s) && unknown != "" && !NameTaken(s.users, unknown)
    requires id in s.users && password != "" && wrongPassword != ""
    requires !lib.compare(wrongPassword, s.users[id].password)
    ensures VerifyLocal(s.users, unknown, password, lib.compare, Up) == Rejected("User not found")
    ensures VerifyLocal(s.users, s.users[id].username, wrongPassword, lib.compare, Up) == Rejected("Incorrect password")
    ensures Login(s, lib, Some(unknown), Some(password), Up) == Step(s, Response(401, PlainText("Unauthorized")))
    ensures Login(s, lib, Some(s.users[id].username), Some(wrongPassword), Up)
      == Login(s, lib, Some(unknown), Some(password), Up)
  {
    VerifyLocalDecidedByRecord(s.users, id, wrongPassword, lib.compare);
  }

  /** Login does not ask for the second factor: for a user whose MFA is
      active, the password alone binds a full session. */
  lemma PasswordAloneSuffices(s: State, lib: Primitives, id: Id, password: string)
    requires Valid(s) && id in s.users && s.users[id].isMfaActive
    requires password != "" && lib.compare(password, s.users[id].password)
    ensures var t := Login(s, lib, Some(s.users[id].username), Some(password), Up);
      t.state.session == Some(id) &&
      t.response == Response(200, UserJson("User logged in successfully", s.users[id].username, true)) &&
      AuthStatus(t.state) == Response(200, UserJson("User is authenticated", s.users[id].username, true))
  {
    VerifyLocalDecidedByRecord(s.users, id, password, lib.compare);
  }

  /** After a successful logout there is no current user: status answers 401
      and a second logout fails the same way. */
  lemma LogoutThenStatus(s: State, write: StoreStatus)
    requires Valid(s)
    ensures var t := Logout(s, Up);
      t.response.status == 200 ==>
        AuthStatus(t.state) == Response(401, MessageJson("Unauthorized User")) &&
        Logout(t.state, write) == Step(t.state, Response(401, MessageJson("Unauthorized User")))
  {
  }

  /** Resetting twice is the same as resetting once. */
  lemma ResetIdempotent(s: State)
    requires Valid(s)
    ensures Reset2FA(Reset2FA(s, Up).state, Up) == Reset2FA(s, Up)
  {
    var t := Reset2FA(s, Up);
    if CurrentUser(s).Some? {
      var id := s.session.value;
      assert t.state.users == s.users[id := s.users[id].(twoFactorSecret := None, isMfaActive := false)];
      assert t.state.users[id := t.state.users[id].(twoFactorSecret := None, isMfaActive := false)] == t.state.users;
    }
  }

  /** After a reset, status shows MFA off, and a new setup starts from a clean
      slate: the user holds exactly the new secret and MFA stays off. */
  lemma ResetThenSetup(s: State, lib: Primitives, generated: GeneratedSecret)
    requires Valid(s) && s.session.Some?
    ensures var t := Reset2FA(s, Up);
      var u := s.users[s.session.value];
      AuthStatus(t.state) == Response(200, UserJson("User is authenticated", u.username, false)) &&
      var t' := Setup2FA(t.state, lib, generated, Up);
      t'.response.body.secret == generated.base32 &&
      t'.state.users[s.session.value] == u.(twoFactorSecret := Some(generated.base32), isMfaActive := false)
  {
  }

  /** Nothing records a token as used: a token the TOTP check accepts verifies
      again on a second request, and the second request changes nothing. The
      check has no clock here, so in the running system this holds while the
      token is inside its time window. */
  lemma VerifyReplayable(s: State, lib: Primitives, token: Option<string>)
    requires Valid(s) && s.session.Some?
    requires lib.totpOk(s.users[s.session.value].twoFactorSecret, token)
    ensures var t := Verify2FA(s, lib, token, Up);
      t.response.status == 200 &&
      Verify2FA(t.state, lib, token, Up).response.status == 200 &&
      Verify2FA(t.state, lib, token, Up).state == t.state
  {
    var t := Verify2FA(s, lib, token, Up);
    var id := s.session.value;
    assert t.state.users[id := t.state.users[id].(isMfaActive := true)] == t.state.users;
  }

  /** Without the assumption on the TOTP library the 2FA invariant can break:
      if the library accepted a token against a missing secret, a user who
      never ran setup would end up with MFA active and no secret. */
  lemma VerifyWithoutSecretBreaksMfaInvariant(s: State, lib: Primitives, token: Option<string>)
    requires Valid(s) && s.session.Some? && s.users[s.session.value].twoFactorSecret.None?
    requires lib.totpOk(None, token)
    ensures !MfaConsistent(Verify2FA(s, lib, token, Up).state.users)
  {
    var id := s.session.value;
    assert Verify2FA(s, lib, token, Up).state.users[id].isMfaActive;
  }

  /** The walk-through of a whole 2FA life cycle: register, log in, set up,
      verify, check status, reset, check status. */
  lemma EndToEnd(lib: Primitives, salt: string, generated: GeneratedSecret, code: string)
    requires CompareAcceptsHash(lib)
    requires lib.totpOk(Some(generated.base32), Some(code))
    ensures var registered := Register(Initial, lib, Some("alice"), Some("pw1"), salt, Up, Up);
      registered.response.status == 201 &&
      var loggedIn := Login(registered.state, lib, Some("alice"), Some("pw1"), Up);
      loggedIn.response == Response(200, UserJson("User logged in successfully", "alice", false)) &&
      var setUp := Setup2FA(loggedIn.state, lib, generated, Up);
      setUp.response == Response(200, SetupJson("2FA setup successful", lib.toDataUrl(generated.otpauthUrl), generated.base32)) &&
      var verified := Verify2FA(setUp.state, lib, Some(code), Up);
      verified.response.status == 200 &&
      AuthStatus(verified.state) == Response(200, UserJson("User is authenticated", "alice", true)) &&
      var reset := Reset2FA(verified.state, Up);
      reset.response.status == 200 &&
      AuthStatus(reset.state) == Response(200, UserJson("User is authenticated", "alice", false))
  {
    assert Valid(Initial);
    RegisterThenLogin(Initial, lib, "alice", "pw1", salt);
  }
}
