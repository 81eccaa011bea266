/** The controllers as the server runs them: one object holding the user table,
    the session binding and the store's id counter, with a method per request
    that updates those fields in place. Each method is tied to the transition
    of the same name in AuthSpec. */
module AuthController {
  import opened UserModel
  import opened PassportConfig
  import opened AuthSpec

  class AuthServer {
    var users: UserTable
    var session: Option<Id>
    var nextId: Id
    /** The password, TOTP and QR-code libraries the server was built with. */
    const lib: Primitives

    /** The server's state as a value. */
    function Snapshot(): State
      reads this
    {
      State(users, session, nextId)
    }

    /** The state invariant, the 2FA invariant, and the assumption about the
        TOTP library under which the 2FA invariant is kept. */
    ghost predicate Valid()
      reads this
    {
      AuthSpec.Valid(Snapshot()) && MfaConsistent(users) && RejectsMissingSecret(lib.totpOk)
    }

    constructor (lib: Primitives)
      requires RejectsMissingSecret(lib.totpOk)
      ensures Valid() && Snapshot() == Initial
      ensures this.lib == lib
    {
      users, session, nextId := map[], None, 0;
      this.lib := lib;
    }

    method Register(username: Option<string>, password: Option<string>, salt: string,
                    lookup: StoreStatus, write: StoreStatus) returns (r: Response)
      requires Valid()
      modifies this
      ensures Valid()
      ensures Step(Snapshot(), r) == AuthSpec.Register(old(Snapshot()), lib, username, password, salt, lookup, write)
    {
      if !Truthy(username) || !Truthy(password) {
        return Response(400, ErrorJson("Username and password are required"));
      }
      if lookup.Down? {
        return Response(500, FailureJson("Error registering the user"));
      }
      if NameTaken(users, username.value) {
        return Response(400, ErrorJson("Username already taken"));
      }
      var hashedPassword := lib.hash(password.value, salt);
      if write.Down? {
        return Response(500, FailureJson("Error registering the user"));
      }
      users := users[nextId := User(nextId, username.value, hashedPassword, None, false)];
      nextId := nextId + 1;
      r := Response(201, MessageJson("User registered successfully"));
    }

    method Login(username: Option<string>, password: Option<string>, lookup: StoreStatus)
      returns (r: Response)
      requires Valid()
      modifies this
      ensures Valid()
      ensures Step(Snapshot(), r) == AuthSpec.Login(old(Snapshot()), lib, username, password, lookup)
    {
      if !Truthy(username) || !Truthy(password) {
        return Response(400, PlainText("Bad Request"));
      }
      var outcome := VerifyLocal(users, username.value, password.value, lib.compare, lookup);
      match outcome
      case StoreError =>
        r := Response(500, PlainText("Internal Server Error"));
      case Rejected(_) =>
        r := Response(401, PlainText("Unauthorized"));
      case Authenticated(user) =>
        session := Some(SerializeUser(user));
        r := LoginController(Some(user));
    }

    /** Reads the state and changes nothing, so repeated calls agree. */
    method AuthStatus() returns (r: Response)
      ensures r == AuthSpec.AuthStatus(Snapshot())
    {
      var current := CurrentUser(Snapshot());
      if current.Some? {
        r := Response(200, UserJson("User is authenticated", current.value.username, current.value.isMfaActive));
      } else {
        r := Response(401, MessageJson("Unauthorized User"));
      }
    }

    method Logout(sessionWrite: StoreStatus) returns (r: Response)
      requires Valid()
      modifies this
      ensures Valid()
      ensures Step(Snapshot(), r) == AuthSpec.Logout(old(Snapshot()), sessionWrite)
    {
      if CurrentUser(Snapshot()).None? {
        return Response(401, MessageJson("Unauthorized User"));
      }
      if sessionWrite.Down? {
        return Response(400, MessageJson("User not logged in"));
      }
      session := None;
      r := Response(200, MessageJson("User logged out successfully"));
    }

    method Setup2FA(generated: GeneratedSecret, write: StoreStatus) returns (r: Response)
      requires Valid()
      modifies this
      ensures Valid()
      ensures Step(Snapshot(), r) == AuthSpec.Setup2FA(old(Snapshot()), lib, generated, write)
    {
      var current := CurrentUser(Snapshot());
      if current.None? {
        return Response(401, ErrorJson("Unauthorized User"));
      }
      var user := current.value.(twoFactorSecret := Some(generated.base32));
      var qrCodeUrl := lib.toDataUrl(generated.otpauthUrl);
      if write.Down? {
        return Response(500, FailureJson("Error setting up 2FA"));
      }
      users := users[user.id := user];
      r := Response(200, SetupJson("2FA setup successful", qrCodeUrl, generated.base32));
    }

    method Verify2FA(token: Option<string>, write: StoreStatus) returns (r: Response)
      requires Valid()
      modifies this
      ensures Valid()
      ensures Step(Snapshot(), r) == AuthSpec.Verify2FA(old(Snapshot()), lib, token, write)
    {
      var current := CurrentUser(Snapshot());
      if current.None? {
        return Response(401, ErrorJson("Unauthorized User"));
      }
      var isValid := lib.totpOk(current.value.twoFactorSecret, token);
      if !isValid {
        return Response(400, ErrorJson("Invalid 2FA token"));
      }
      if write.Down? {
        return Response(500, FailureJson("Error verifying 2FA"));
      }
      var user := current.value.(isMfaActive := true);
      users := users[user.id := user];
      r := Response(200, MessageJson("2FA verification successful"));
    }

    method Reset2FA(write: StoreStatus) returns (r: Response)
      requires Valid()
      modifies this
      ensures Valid()
      ensures Step(Snapshot(), r) == AuthSpec.Reset2FA(old(Snapshot()), write)
    {
      var current := CurrentUser(Snapshot());
      if current.None? {
        return Response(401, ErrorJson("Unauthorized User"));
      }
      if write.Down? {
        return Response(500, FailureJson("Error resetting 2FA"));
      }
      var user := current.value.(twoFactorSecret := None, isMfaActive := false);
      users := users[user.id := user];
      r := Response(200, MessageJson("2FA has been reset successfully"));
    }
  }

  /** `authStatus` reads and never writes, so asking twice in a row gives the
      same answer, and the answer is the current user's view or 401. */
  method AuthStatusIsRepeatable(server: AuthServer) returns (first: Response, second: Response)
    ensures first == second
    ensures first.status == 200 <==> CurrentUser(server.Snapshot()).Some?
  {
    first := server.AuthStatus();
    second := server.AuthStatus();
  }
}
