/** The user record that the controllers and the Passport configuration read and
    write (a document of the user collection), the user table that holds them,
    and the invariants the table keeps. */
module UserModel {

  datatype Option<+T> = None | Some(value: T)

  /** The store's document id; the store hands ids out in increasing order. */
  type Id = nat

  /** One registered user. `password` holds the bcrypt hash, never the plaintext;
      `twoFactorSecret` is the base32 TOTP secret, or null (None). */
  datatype User = User(
    id: Id,
    username: string,
    password: string,
    twoFactorSecret: Option<string>,
    isMfaActive: bool)

  type UserTable = map<Id, User>

  /** JavaScript truthiness of a request-body field that is a string or absent:
      `!field` holds for a missing field and for the empty string. */
  predicate Truthy(field: Option<string>) {
    field.Some? && field.value != ""
  }

  /** Some record in the table carries this username. */
  predicate NameTaken(users: UserTable, name: string) {
    exists id :: id in users && users[id].username == name
  }

  /** Every record is stored under its own id. */
  ghost predicate WellKeyed(users: UserTable) {
    forall id :: id in users ==> users[id].id == id
  }

  /** No two records share a username. */
  ghost predicate UniqueUsernames(users: UserTable) {
    forall i, j :: i in users && j in users && users[i].username == users[j].username ==> i == j
  }

  /** The 2FA invariant: a user whose MFA is active has a secret. */
  ghost predicate MfaConsistent(users: UserTable) {
    forall id :: id in users && users[id].isMfaActive ==> users[id].twoFactorSecret.Some?
  }

  /** Every record of `before` is still in `after` with the same id, username
      and password hash; only its 2FA fields may differ. */
  ghost predicate CredentialsKept(before: UserTable, after: UserTable) {
    forall id :: id in before ==>
      id in after &&
      after[id].id == before[id].id &&
      after[id].username == before[id].username &&
      after[id].password == before[id].password
  }

  /** `after` differs from `before` at most in the 2FA fields. */
  ghost predicate SameCredentials(before: UserTable, after: UserTable) {
    before.Keys == after.Keys && CredentialsKept(before, after)
  }

  /** Every record except the one under `id` is the same in both tables. */
  ghost predicate OthersUnchanged(before: UserTable, after: UserTable, id: Id) {
    forall k :: k in before && k != id ==> k in after && after[k] == before[k]
  }
}
