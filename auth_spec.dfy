/** The controllers of the authentication API as transitions over the server's
    state: the user table, the session's binding to a user id, and the id the
    store hands out next. Each request is one atomic step that yields the new
    state and the HTTP response. */
module AuthSpec {
  import opened UserModel
  import opened PassportConfig

  /** The library calls the controllers make, injected as uninterpreted
      functions: `bcrypt.hash(password, salt)`, `bcrypt.compare(password, hash)`,
      `speakeasy.totp.verify({ secret, token })` and `qrCode.toDataURL(url)`. */
  datatype Primitives = Primitives(
    hash: (string, string) -> string,
    compare: (string, string) -> bool,
    totpOk: (Option<string>, Option<string>) -> bool,
    toDataUrl: string -> string)

  /** What `speakeasy.generateSecret()` returns: the base32 secret and its otpauth URL. */
  datatype GeneratedSecret = GeneratedSecret(base32: string, otpauthUrl: string)

  /** Response bodies. `FailureJson` is a 500 body `{ error, message }` whose
      second field, the caught error's text, is not modelled; `PlainText` is a
      body that Passport or Express writes itself. */
  datatype Body =
    | MessageJson(message: string)
    | ErrorJson(error: string)
    | FailureJson(error: string)
    | UserJson(message: string, username: string, isMfaActive: bool)
    | SetupJson(message: string, qrCodeUrl: string, secret: string)
    | PlainText(text: string)

  datatype Response = Response(status: int, body: Body)

  /** The user table, the session's user id (none when logged out), and the
      id the store assigns to the next new record. */
  datatype State = State(users: UserTable, session: Option<Id>, nextId: Id)

  datatype Step = Step(state: State, response: Response)

  /** An empty store and no session. */
  const Initial: State := State(map[], None, 0)

  /** The invariant every request keeps: records stored under their ids, ids
      below the next one, unique non-empty usernames, and a session that names
      a stored user. */
  ghost predicate Valid(s: State) {
    WellKeyed(s.users) && UniqueUsernames(s.users) &&
    (forall id :: id in s.users ==> id < s.nextId && s.users[id].username != "") &&
    (s.session.Some? ==> s.session.value in s.users)
  }

  /** The TOTP library never accepts a token against a missing secret. */
  ghost predicate RejectsMissingSecret(totpOk: (Option<string>, Option<string>) -> bool) {
    forall token :: !totpOk(None, token)
  }

  /** `req.user`: what the session's id deserializes to. */
  function CurrentUser(s: State): (u: Option<User>)
    ensures u.Some? ==> s.session.Some? && s.session.value in s.users && u.value == s.users[s.session.value]
    ensures Valid(s) ==> (u.Some? <==> s.session.Some?)
  {
    match s.session
    case None => None
    case Some(id) => DeserializeUser(s.users, id, Up).user
  }

  /** `register`: both fields must be present and non-empty (400); a store
      failure answers 500; a taken username answers 400; otherwise one record
      is added with the hashed password, MFA off and no secret (201). Nothing
      touches the session. */
  function Register(s: State, lib: Primitives, username: Option<string>, password: Option<string>,
                    salt: string, lookup: StoreStatus, write: StoreStatus): (t: Step)
    requires Valid(s)
    ensures Valid(t.state)
    ensures t.state.session == s.session
    ensures t.response.status in {201, 400, 500}
    ensures t.response.status == 201 <==>
      Truthy(username) && Truthy(password) && lookup.Up? && !NameTaken(s.users, username.value) && write.Up?
    ensures t.response.status != 201 ==> t.state == s
    ensures !Truthy(username) || !Truthy(password) ==>
      t.response == Response(400, ErrorJson("Username and password are required"))
    ensures Truthy(username) && Truthy(password) && lookup.Down? ==>
      t.response == Response(500, FailureJson("Error registering the user"))
    ensures Truthy(username) && Truthy(password) && lookup.Up? && NameTaken(s.users, username.value) ==>
      t.response == Response(400, ErrorJson("Username already taken"))
    ensures (Truthy(username) && Truthy(password) && lookup.Up? && !NameTaken(s.users, username.value) &&
             write.Down?) ==> t.response == Response(500, FailureJson("Error registering the user"))
    ensures t.response.status == 201 ==>
      t.response.body == MessageJson("User registered successfully") &&
      t.state.nextId == s.nextId + 1 &&
      s.nextId !in s.users &&
      t.state.users.Keys == s.users.Keys + {s.nextId} &&
      OthersUnchanged(s.users, t.state.users, s.nextId) &&
      t.state.users[s.nextId] == User(s.nextId, username.value, lib.hash(password.value, salt), None, false)
    ensures MfaConsistent(s.users) ==> MfaConsistent(t.state.users)
  {
    if !Truthy(username) || !Truthy(password) then
      Step(s, Response(400, ErrorJson("Username and password are required")))
    else if lookup.Down? then
      Step(s, Response(500, FailureJson("Error registering the user")))
    else if NameTaken(s.users, username.value) then
      Step(s, Response(400, ErrorJson("Username already taken")))
    else if write.Down? then
      Step(s, Response(500, FailureJson("Error registering the user")))
    else
      var user := User(s.nextId, username.value, lib.hash(password.value, salt), None, false);
      Step(s.(users := s.users[s.nextId := user], nextId := s.nextId + 1),
           Response(201, MessageJson("User registered successfully")))
  }

  /** The `login` controller on `req.user`, which Passport has set when it
      calls it; its 401 branch is unreachable behind the strategy. */
  function LoginController(reqUser: Option<User>): (r: Response)
    ensures reqUser.None? <==> r.status == 401
    ensures reqUser.Some? ==>
      r == Response(200, UserJson("User logged in successfully", reqUser.value.username, reqUser.value.isMfaActive))
  {
    match reqUser
    case None => Response(401, MessageJson("Unauthorized User"))
    case Some(user) =>
      Response(200, UserJson("User logged in successfully", user.username, user.isMfaActive))
  }

  /** `POST /login`: passport-local answers 400 when a credential is missing;
      the verify callback runs, a store error gives 500 and a rejection 401
      with the same body whatever the reason; on success the session is bound
      to the user's id and `login` reports the user. The table never changes. */
  function Login(s: State, lib: Primitives, username: Option<string>, password: Option<string>,
                 lookup: StoreStatus): (t: Step)
    requires Valid(s)
    ensures Valid(t.state)
    ensures t.state.users == s.users && t.state.nextId == s.nextId
    ensures t.response.status in {200, 400, 401, 500}
    ensures t.response.status != 200 ==> t.state == s
    ensures !Truthy(username) || !Truthy(password) ==> t.response == Response(400, PlainText("Bad Request"))
    ensures t.response.status == 401 ==> t.response == Response(401, PlainText("Unauthorized"))
    ensures (Truthy(username) && Truthy(password) &&
             VerifyLocal(s.users, username.value, password.value, lib.compare, lookup).StoreError?) ==>
      t.response == Response(500, PlainText("Internal Server Error"))
    ensures (Truthy(username) && Truthy(password) &&
             VerifyLocal(s.users, username.value, password.value, lib.compare, lookup).Rejected?) ==>
      t.response == Response(401, PlainText("Unauthorized"))
    ensures t.response.status == 200 <==>
      Truthy(username) && Truthy(password) &&
      VerifyLocal(s.users, username.value, password.value, lib.compare, lookup).Authenticated?
    ensures t.response.status == 200 ==>
      var user := VerifyLocal(s.users, username.value, password.value, lib.compare, lookup).user;
      t.state.session == Some(user.id) && CurrentUser(t.state) == Some(user) &&
      t.response == Response(200, UserJson("User logged in successfully", user.username, user.isMfaActive))
  {
    if !Truthy(username) || !Truthy(password) then
      Step(s, Response(400, PlainText("Bad Request")))
    else
      match VerifyLocal(s.users, username.value, password.value, lib.compare, lookup)
      case StoreError => Step(s, Response(500, PlainText("Internal Server Error")))
      case Rejected(_) => Step(s, Response(401, PlainText("Unauthorized")))
      case Authenticated(user) =>
        assert user.id in s.users by {
          var k :| k in s.users && s.users[k] == user;
        }
        Step(s.(session := Some(SerializeUser(user))), LoginController(Some(user)))
  }

  /** `authStatus`: the current user's username and MFA flag, or 401. */
  function AuthStatus(s: State): (r: Response)
    ensures CurrentUser(s).None? <==> r == Response(401, MessageJson("Unauthorized User"))
    ensures r.status == 200 || r.status == 401
    ensures CurrentUser(s).Some? ==>
      r == Response(200, UserJson("User is authenticated", CurrentUser(s).value.username,
                                  CurrentUser(s).value.isMfaActive))
  {
    match CurrentUser(s)
    case None => Response(401, MessageJson("Unauthorized User"))
    case Some(user) => Response(200, UserJson("User is authenticated", user.username, user.isMfaActive))
  }

  /** `logout`: 401 without a current user; 400 when Passport's logout fails;
      otherwise the session binding is removed. The table never changes. */
  function Logout(s: State, sessionWrite: StoreStatus): (t: Step)
    requires Valid(s)
    ensures Valid(t.state)
    ensures t.state.users == s.users && t.state.nextId == s.nextId
    ensures CurrentUser(s).None? ==> t == Step(s, Response(401, MessageJson("Unauthorized User")))
    ensures CurrentUser(s).Some? && sessionWrite.Down? ==>
      t == Step(s, Response(400, MessageJson("User not logged in")))
    ensures t.response.status == 200 <==> CurrentUser(s).Some? && sessionWrite.Up?
    ensures t.response.status == 200 ==>
      t.state.session.None? && t.response.body == MessageJson("User logged out successfully")
  {
    if CurrentUser(s).None? then Step(s, Response(401, MessageJson("Unauthorized User")))
    else if sessionWrite.Down? then Step(s, Response(400, MessageJson("User not logged in")))
    else Step(s.(session := None), Response(200, MessageJson("User logged out successfully")))
  }

  /** `setup2FA`: 401 without a current user; otherwise the user's secret is
      replaced by the generated one and returned with its QR code (a failure
      rendering or saving answers 500 with nothing stored). MFA activation,
      username and password are left alone. */
  function Setup2FA(s: State, lib: Primitives, generated: GeneratedSecret, write: StoreStatus): (t: Step)
    requires Valid(s)
    ensures Valid(t.state)
    ensures SameCredentials(s.users, t.state.users)
    ensures t.state.session == s.session && t.state.nextId == s.nextId
    ensures CurrentUser(s).None? ==> t == Step(s, Response(401, ErrorJson("Unauthorized User")))
    ensures CurrentUser(s).Some? && write.Down? ==>
      t == Step(s, Response(500, FailureJson("Error setting up 2FA")))
    ensures t.response.status == 200 <==> CurrentUser(s).Some? && write.Up?
    ensures t.response.status == 200 ==>
      var id := s.session.value;
      t.state.users[id] == s.users[id].(twoFactorSecret := Some(generated.base32)) &&
      OthersUnchanged(s.users, t.state.users, id) &&
      t.response.body == SetupJson("2FA setup successful", lib.toDataUrl(generated.otpauthUrl), generated.base32)
    ensures MfaConsistent(s.users) ==> MfaConsistent(t.state.users)
  {
    match CurrentUser(s)
    case None => Step(s, Response(401, ErrorJson("Unauthorized User")))
    case Some(user) =>
      if write.Down? then Step(s, Response(500, FailureJson("Error setting up 2FA")))
      else
        var qrCodeUrl := lib.toDataUrl(generated.otpauthUrl);
        Step(s.(users := s.users[user.id := user.(twoFactorSecret := Some(generated.base32))]),
             Response(200, SetupJson("2FA setup successful", qrCodeUrl, generated.base32)))
  }

  /** `verify2FA`: 401 without a current user; a token the TOTP check rejects
      for the stored secret answers 400 with nothing changed; otherwise MFA is
      switched on and nothing else changes. */
  function Verify2FA(s: State, lib: Primitives, token: Option<string>, write: StoreStatus): (t: Step)
    requires Valid(s)
    ensures Valid(t.state)
    ensures SameCredentials(s.users, t.state.users)
    ensures t.state.session == s.session && t.state.nextId == s.nextId
    ensures CurrentUser(s).None? ==> t == Step(s, Response(401, ErrorJson("Unauthorized User")))
    ensures CurrentUser(s).Some? && !lib.totpOk(CurrentUser(s).value.twoFactorSecret, token) ==>
      t == Step(s, Response(400, ErrorJson("Invalid 2FA token")))
    ensures CurrentUser(s).Some? && lib.totpOk(CurrentUser(s).value.twoFactorSecret, token) && write.Down? ==>
      t == Step(s, Response(500, FailureJson("Error verifying 2FA")))
    ensures t.response.status == 200 <==>
      CurrentUser(s).Some? && lib.totpOk(CurrentUser(s).value.twoFactorSecret, token) && write.Up?
    ensures t.response.status != 200 ==> t.state == s
    ensures t.response.status == 200 ==>
      var id := s.session.value;
      t.state.users[id] == s.users[id].(isMfaActive := true) &&
      OthersUnchanged(s.users, t.state.users, id) &&
      t.response.body == MessageJson("2FA verification successful")
    ensures RejectsMissingSecret(lib.totpOk) && MfaConsistent(s.users) ==> MfaConsistent(t.state.users)
  {
    match CurrentUser(s)
    case None => Step(s, Response(401, ErrorJson("Unauthorized User")))
    case Some(user) =>
      if !lib.totpOk(user.twoFactorSecret, token) then Step(s, Response(400, ErrorJson("Invalid 2FA token")))
      else if write.Down? then Step(s, Response(500, FailureJson("Error verifying 2FA")))
      else
        Step(s.(users := s.users[user.id := user.(isMfaActive := true)]),
             Response(200, MessageJson("2FA verification successful")))
  }

  /** `reset2FA`: 401 without a current user; otherwise, with no token asked
      for, the secret is cleared and MFA switched off together. */
  function Reset2FA(s: State, write: StoreStatus): (t: Step)
    requires Valid(s)
    ensures Valid(t.state)
    ensures SameCredentials(s.users, t.state.users)
    ensures t.state.session == s.session && t.state.nextId == s.nextId
    ensures CurrentUser(s).None? ==> t == Step(s, Response(401, ErrorJson("Unauthorized User")))
    ensures CurrentUser(s).Some? && write.Down? ==>
      t == Step(s, Response(500, FailureJson("Error resetting 2FA")))
    ensures t.response.status == 200 <==> CurrentUser(s).Some? && write.Up?
    ensures t.response.status == 200 ==>
      var id := s.session.value;
      t.state.users[id] == s.users[id].(twoFactorSecret := None, isMfaActive := false) &&
      OthersUnchanged(s.users, t.state.users, id) &&
      t.response.body == MessageJson("2FA has been reset successfully")
    ensures MfaConsistent(s.users) ==> MfaConsistent(t.state.users)
  {
    match CurrentUser(s)
    case None => Step(s, Response(401, ErrorJson("Unauthorized User")))
    case Some(user) =>
      if write.Down? then Step(s, Response(500, FailureJson("Error resetting 2FA")))
      else
        Step(s.(users := s.users[user.id := user.(twoFactorSecret := None, isMfaActive := false)]),
             Response(200, MessageJson("2FA has been reset successfully")))
  }
}
