# Session authentication with optional TOTP two-factor: a Dafny model

This project models the authentication state machine of a small session-based
API. The API offers username/password registration and login through Passport's
local strategy, a status check, and logout. It also offers TOTP two-factor
enrolment: `setup2FA` stores a new secret, `verify2FA` switches MFA on when a
token checks out, and `reset2FA` clears both.

The state is a user table (id → record with `username`, bcrypt `password` hash,
`twoFactorSecret` or null, `isMfaActive`), the session's binding to a user id,
and the id the store hands out next.

- `UserModel` (`user_model.dfy`): the user record, the table, and its invariants. The invariants are records stored under their own id, unique usernames, and the 2FA invariant `isMfaActive ⇒ twoFactorSecret ≠ null`.
- `PassportConfig` (`passport_config.dfy`): the LocalStrategy verify callback, `serializeUser` and `deserializeUser`, as pure functions over the table, with their round-trip lemmas.
- `AuthSpec` (`auth_spec.dfy`): each controller as a transition `State → Step(new state, HTTP response)`. Each transition's contract gives the error outcomes (400/401/500, with the exact bodies), the success outcome, the frame (what does not change) and preservation of the invariant.
- `AuthController` (`auth_controller.dfy`): the class `AuthServer`. It holds `users`, `session` and `nextId` as fields that its methods update in place. Each method's postcondition ties the new fields and the response to the transition of the same name in `AuthSpec`.
- `AuthProperties` (`auth_properties.dfy`): properties across several requests:
  - registering the same name twice;
  - register then login;
  - logout then status;
  - reset idempotence;
  - a TOTP token is replayable;
  - MFA is not enforced at login;
  - the invariants along any sequence of requests;
  - the register, login, set up, verify, reset walk-through.
- `AuthRoutes` (`auth_routes.dfy`): the router's table, only to record the finding below.

The library calls are passed in as uninterpreted functions in a `Primitives` value:
- `hash(password, salt)` for `bcrypt.hash`;
- `compare(password, hash)` for `bcrypt.compare`;
- `totpOk(secret, token)` for `speakeasy.totp.verify`;
- `toDataUrl(url)` for `qrCode.toDataURL`.

Randomness and faults are parameters of each operation:
- the bcrypt salt;
- the secret `speakeasy.generateSecret()` returns;
- whether each store or session write completes (`StoreStatus`).

Behaviour of the code that a reader might not expect, which the model keeps:
- A TOTP code might be expected to work only once. The controller keeps no record of used tokens, so the same token verifies again within its time window (`AuthProperties.VerifyReplayable`).
- Every other route path starts with `/`; the reset route's does not, and it is declared for GET only (see Findings).
- Both kinds of login failure reach the client as Passport's bare 401 `Unauthorized`, whether the username or the password was wrong. A missing credential gets a 400 `Bad Request` (`AuthSpec.Login`). The strategy's own messages never reach the client.

## Model

| member | source | states |
|---|---|---|
| PassportConfig.FindByUsername | backend/src/config/passportConfig.js:13 | `User.findOne({ username })` finds a record exactly when some record carries the name. The record found is in the table with that name. With unique usernames it is that record. |
| PassportConfig.FindById | backend/src/config/passportConfig.js:40 | `User.findById` gives the record stored under the id, and null exactly when there is none. |
| PassportConfig.VerifyLocal | backend/src/config/passportConfig.js:10-27 | A store failure becomes an error outcome, and only a store failure does. An unknown username fails with `false` and "User not found". A known username whose hash does not compare fails with "Incorrect password". Success holds exactly when the found record's hash compares with the password, and then the user has the given username and its hash compares. Failures carry one of the two messages. |
| PassportConfig.SerializeUser | backend/src/config/passportConfig.js:33-35 | The session keeps only the user's id. |
| PassportConfig.DeserializeUser | backend/src/config/passportConfig.js:38-44 | A store failure is an error. Otherwise the result is the record stored under the id, exactly as stored, and null exactly when the id is not in the table. In a well-keyed table that record carries the id. |
| PassportConfig.VerifyLocalDecidedByRecord | backend/src/config/passportConfig.js:13-24 | With unique usernames, a name's strategy outcome is decided by its one record: it succeeds with exactly that record when the compare holds, and fails with "Incorrect password" otherwise. |
| PassportConfig.VerifyLocalIgnoresMfa | backend/src/config/passportConfig.js:10-27 | The outcome depends only on ids, usernames and hashes. Two tables that differ only in `twoFactorSecret`/`isMfaActive` give the same success or failure, the same message, and the same authenticated id, username and hash. |
| PassportConfig.DeserializeSerialize | backend/src/config/passportConfig.js:33-41 | `deserializeUser(serializeUser(u))` yields `u` while `u` is in the table. The session keeps only `u.id`. |
| PassportConfig.DeserializeMissing | backend/src/config/passportConfig.js:38-41 | An id with no record deserializes to null. |
| AuthSpec.CurrentUser | backend/src/config/passportConfig.js:38-41 | `req.user` is the record under the session's id. In a valid state it is present exactly when a session is bound. |
| AuthSpec.Register | backend/src/controllers/authController.js:8-39 | Missing or empty username or password gives 400 with no change. A failed lookup gives 500 "Error registering the user" with no change. When the name is free, a failed hash or save gives the same 500 body with no change. A taken name gives 400 "Username already taken" with no change. Success (201) happens exactly when none of these apply. Success answers "User registered successfully", advances the next id by one, and adds one record under the new id, with the username, `hash(password, salt)`, no secret and MFA off. Other records are unchanged, the session is untouched, and both invariants are kept. |
| AuthSpec.LoginController | backend/src/controllers/authController.js:42-52 | With no `req.user` the answer is 401. Otherwise it is 200 with exactly the user's `username` and `isMfaActive`. |
| AuthSpec.Login | backend/src/config/passportConfig.js:10-35 | The table is never changed. Any answer but 200 leaves the state unchanged. A missing credential gives 400 `Bad Request`. A store error in the strategy gives 500 `Internal Server Error`. Both rejections ("User not found", "Incorrect password") give the same 401 `Unauthorized` body. 200 happens exactly when the strategy authenticates. Then the session is bound to that user's id, `req.user` is that user, and the body is its username and MFA flag. |
| AuthSpec.AuthStatus | backend/src/controllers/authController.js:55-65 | 401 is returned exactly when there is no current user. Otherwise the answer is 200 with exactly the current user's username and MFA flag, never the hash or secret. It returns no state, so it writes nothing. |
| AuthSpec.Logout | backend/src/controllers/authController.js:68-75 | Without a user the answer is 401 with no change. A failed Passport logout gives 400 with no change. 200 happens exactly otherwise, and then the session binding is gone. The user table is never touched. |
| AuthSpec.Setup2FA | backend/src/controllers/authController.js:78-105 | Unauthenticated gives 401 with no change. A render or save failure gives 500 with no change. Otherwise (200) only the current user's `twoFactorSecret` becomes the generated secret, and the same secret is returned with its QR code. `isMfaActive`, username, password, the session and all other records are unchanged, and the 2FA invariant is kept. |
| AuthSpec.Verify2FA | backend/src/controllers/authController.js:108-133 | Unauthenticated gives 401. A token rejected for the stored secret gives 400 "Invalid 2FA token". An accepted token whose save fails gives 500 "Error verifying 2FA". Any answer but 200 leaves the state unchanged. On 200 only the user's `isMfaActive` becomes true. The 2FA invariant is kept when the TOTP library rejects a null secret. |
| AuthSpec.Reset2FA | backend/src/controllers/authController.js:136-151 | Unauthenticated gives 401. Otherwise, with no token asked for, the answer is 200 and the user's secret is null and `isMfaActive` false together. Nothing else changes, a save failure gives 500 with no change, and the 2FA invariant is kept. |
| AuthController.AuthServer.Register | backend/src/controllers/authController.js:8-39 | The fields and the response after the call are `AuthSpec.Register` of the fields before; both invariants are kept. |
| AuthController.AuthServer.Login | backend/src/config/passportConfig.js:10-35 | The session field and the response are `AuthSpec.Login` of the state before. |
| AuthController.AuthServer.AuthStatus | backend/src/controllers/authController.js:55-65 | Changes nothing and returns `AuthSpec.AuthStatus` of the current state. |
| AuthController.AuthServer.Logout | backend/src/controllers/authController.js:68-75 | The session field and the response are `AuthSpec.Logout` of the state before. |
| AuthController.AuthServer.Setup2FA | backend/src/controllers/authController.js:78-105 | The user table and the response are `AuthSpec.Setup2FA` of the state before; invariants kept. |
| AuthController.AuthServer.Verify2FA | backend/src/controllers/authController.js:108-133 | The user table and the response are `AuthSpec.Verify2FA` of the state before; invariants kept. |
| AuthController.AuthServer.Reset2FA | backend/src/controllers/authController.js:136-151 | The user table and the response are `AuthSpec.Reset2FA` of the state before; invariants kept. |
| AuthController.AuthStatusIsRepeatable | backend/src/controllers/authController.js:55-65 | Two status calls in a row give identical answers, and 200 exactly when there is a current user. |
| AuthProperties.Serve | backend/src/routes/authRoutes.js:7-27 | Every request keeps the invariant and keeps every stored record's id, username and hash. It keeps the 2FA invariant given the TOTP assumption. Only a login binds a session, and a status request changes nothing. Requests go straight to the controllers: reset uses the corrected path `/2fa/reset`, and the `isAuthenticated` guards are not applied (an unauthenticated call gets the controller's own 401 body). |
| AuthProperties.Run | backend/src/controllers/authController.js:8-151 | Any sequence of requests from a valid state ends in a valid state. |
| AuthProperties.RunKeepsMfaConsistent | backend/src/controllers/authController.js:78-151 | `isMfaActive ⇒ twoFactorSecret ≠ null` survives every sequence of requests, given a TOTP library that never accepts a null secret. |
| AuthProperties.RunKeepsCredentials | backend/src/controllers/authController.js:78-151 | No sequence of requests changes a stored record's id, username or password hash; the MFA operations touch only the 2FA fields. |
| AuthProperties.ReachableStatesAreConsistent | backend/src/controllers/authController.js:8-151 | Every state reachable from the empty store satisfies both invariants. |
| AuthProperties.RegisterTwice | backend/src/controllers/authController.js:18-21 | Registering a fresh name gives 201. Registering it again with any non-empty password gives 400 "Username already taken" and leaves the state unchanged. |
| AuthProperties.RegisterAddsOneRecord | backend/src/controllers/authController.js:24-34 | A 201 grows the table by exactly one record. The new id is the only new key, and the stored password is the hasher's output for the given password. |
| AuthProperties.RegisterThenLogin | backend/src/controllers/authController.js:24-34 | When the hasher's compare accepts a password against its own hash, the registered credentials log in. The session is bound to the new id and the body shows MFA off. |
| AuthProperties.LoginFailuresLookAlike | backend/src/config/passportConfig.js:13-24 | The strategy's messages differ: "User not found" for an unknown name, "Incorrect password" for a wrong password. The client gets the same 401 for both, and the state is unchanged. |
| AuthProperties.PasswordAloneSuffices | backend/src/config/passportConfig.js:10-24 | For a user with MFA active, a correct password alone binds a full session, and status then reports the user. |
| AuthProperties.LogoutThenStatus | backend/src/controllers/authController.js:68-74 | After a successful logout, status gives 401 and another logout gives 401 with no change. |
| AuthProperties.ResetIdempotent | backend/src/controllers/authController.js:138-146 | Resetting twice gives the same state and response as resetting once. |
| AuthProperties.ResetThenSetup | backend/src/controllers/authController.js:136-151 | After a reset, status shows MFA off. A new setup then leaves the user with exactly the new secret and MFA still off. |
| AuthProperties.VerifyReplayable | backend/src/controllers/authController.js:116-125 | A token accepted once is accepted again by a second verification, which changes nothing. |
| AuthProperties.VerifyWithoutSecretBreaksMfaInvariant | backend/src/controllers/authController.js:116-124 | If the TOTP library accepted a token against a null secret, verifying before any setup would break the 2FA invariant. So the assumption is needed. |
| AuthProperties.EndToEnd | backend/src/controllers/authController.js:8-151 | Register "alice" gives 201. Login gives 200 with MFA off. Setup returns the generated secret. Verify with an accepted code gives 200 and status shows MFA on. Reset gives 200 and status shows MFA off. |
| AuthRoutes.Dispatch | backend/src/routes/authRoutes.js:5-29 | No handler is chosen exactly when no route accepts the verb and path. A chosen handler belongs to a route that accepts them, and no earlier route accepts them. |
| AuthRoutes.DispatchNeverChooses | backend/src/routes/authRoutes.js:5-29 | A handler that is carried by no route accepting the verb and path is never chosen. |
| AuthRoutes.WrittenResetUnreachable | backend/src/routes/authRoutes.js:27 | With the route table as written, no request path reaches `reset2FA`. |
| AuthRoutes.CorrectedResetReachable | backend/src/routes/authRoutes.js:27 | With the leading slash added, `GET /2fa/reset` reaches `reset2FA` and the other routes are unchanged. |

## Left out

- bcrypt internals and its cost factor 10: hashing is `hash(password, salt)` with the salt a parameter, and comparing is an uninterpreted `compare`. `CompareAcceptsHash` is assumed only by the lemmas that need it.
- speakeasy's TOTP time window and secret generation: verification is the oracle `totpOk(secret, token)`, and the generated secret and its otpauth URL are a parameter. What speakeasy does with a null secret (the code passes it on unchecked) is not known here. The model hands `None` to the oracle, and the 2FA invariant rests on the oracle rejecting it. `totp.verify` runs inside the `try` (`backend/src/controllers/authController.js:116-120`), so a throw there (for example on a null secret) would answer 500 "Error verifying 2FA". The model has no such fault: a token that does not check out always answers 400.
- QR-code rendering: `toDataUrl` is an uninterpreted function of the otpauth URL.
- `jsonwebtoken` is imported by the controllers but never used.
- Mongoose persistence: `save()` and the store are map updates. Each operation's possible throws are collapsed into `StoreStatus` parameters:
  - `register`: the lookup, and the hash or save;
  - `setup2FA`: rendering or saving;
  - `verify2FA`, `reset2FA`: the save.
- The thrown error's text in the 500 bodies (`message: error.message`) and all `console.error` logging are not modelled.
- Resolving `req.user` from the session can itself fail in the store. That case is modelled in `PassportConfig.DeserializeUser` only; the controller transitions start from the resolved user.
- Passport's own responses (401 `Unauthorized`, 400 `Bad Request` for a missing credential, 500 through Express's error handler) come from the passport and passport-local libraries, which are not part of this model's sources. They are modelled from those libraries' documented behaviour.
- AuthSpec.Login: a strategy error (`done(error)`, `backend/src/config/passportConfig.js:26`) reaches Express's default error handler. That handler answers 500 with an HTML page: the status text in production, the stack trace otherwise. The model reduces that page to its status text, `PlainText("Internal Server Error")`.
- Session regeneration on login and logout, a failing `req.logIn`, and session expiry (the one-hour cookie `maxAge` in `backend/src/index.js`) are not modelled. In the model, a failed `req.logout` leaves the binding as it was; Passport itself removes the session's user before it saves and regenerates the session, so the binding may in fact already be gone.
- `Truthy`, `AuthProperties.Request`: request-body fields are modelled as strings or absent. Any other JSON value is outside the model. An object such as `{"$ne": null}` as the username would reach `User.findOne` (`backend/src/config/passportConfig.js:13`, `backend/src/controllers/authController.js:18`) as a query operator and match a record other than the one named (NoSQL injection). A number or object as the password makes `bcrypt.hash` throw, which answers 500 (`backend/src/controllers/authController.js:24`). passport-local's fallback to credentials in the query string is not modelled either.
- One client and one session are modelled. Concurrent requests (setup/verify races, last write wins) are out of scope; each request is one atomic step.
- `findOne({ username })` on a table with duplicate names: the model takes the earliest-stored match. `register` keeps names unique, so under the invariant there is at most one match.
- The routes' `isAuthenticated` guards, which answer 401 `{ message: "Unauthorized" }` before a controller runs, are not modelled. Neither is Express's case-insensitive path matching, nor the CORS, body-parser and cookie configuration in `backend/src/index.js`.

## Findings

| source | as written | input that shows it | evidently intended | confidence | as-written member | corrected member |
|---|---|---|---|---|---|---|
| backend/src/routes/authRoutes.js:27 | the reset route is declared on the path `"2fa/reset"`, without a leading slash, and the router sees only paths that begin with `/` | `GET /api/auth/2fa/reset` reaches no route (404), so `reset2FA` can never run | the path `"/2fa/reset"`, like the other routes | high; not executed | AuthRoutes.WrittenResetUnreachable | AuthRoutes.CorrectedResetReachable |
