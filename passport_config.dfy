/** The Passport configuration: the local strategy's verify callback (a lookup
    by username followed by a password compare) and the functions that map a
    user to the session and back. None of them changes the user table. */
module PassportConfig {
  import opened UserModel

  /** Whether a call into the store (or a library it waits on) completes or throws. */
  datatype StoreStatus = Up | Down

  /** What the verify callback hands to `done`: `done(null, user)`,
      `done(null, false, { message })` or `done(error)`. */
  datatype StrategyOutcome =
    | Authenticated(user: User)
    | Rejected(message: string)
    | StoreError

  /** What `deserializeUser` hands to `done`: a record or null, or an error. */
  datatype DeserializeOutcome =
    | Deserialized(user: Option<User>)
    | DeserializeError

  /** The least id of a non-empty set of ids. */
  ghost function LeastId(ids: set<Id>): (m: Id)
    requires ids != {}
    ensures m in ids
    ensures forall k :: k in ids ==> m <= k
    decreases ids
  {
    var x :| x in ids;
    var others := ids - {x};
    assert forall k :: k in ids ==> k == x || k in others;
    if others == {} then x
    else
      var rest := LeastId(others);
      if x < rest then x else rest
  }

  /** The id of the earliest-stored record with this username. */
  function LeastMatch(users: UserTable, name: string): (k: Id)
    requires NameTaken(users, name)
    ensures k in users && users[k].username == name
    ensures forall j :: j in users && users[j].username == name ==> k <= j
  {
    var ids := set j | j in users && users[j].username == name;
    assert ids != {} by {
      var w :| w in users && users[w].username == name;
      assert w in ids;
    }
    assert exists m :: m in ids && forall j :: j in ids ==> m <= j by {
      var m := LeastId(ids);
    }
    var k :| k in ids && forall j :: j in ids ==> k <= j;
    assert forall j :: j in users && users[j].username == name ==> j in ids;
    k
  }

  /** `User.findOne({ username })`: the earliest-stored record with that
      username, or null when there is none. */
  function FindByUsername(users: UserTable, name: string): (r: Option<User>)
    ensures r.Some? <==> NameTaken(users, name)
    ensures r.Some? ==> r.value in users.Values && r.value.username == name
    ensures UniqueUsernames(users) ==>
      forall id :: id in users && users[id].username == name ==> r == Some(users[id])
  {
    if NameTaken(users, name) then Some(users[LeastMatch(users, name)]) else None
  }

  /** `User.findById(id)`: the record stored under `id`, or null. */
  function FindById(users: UserTable, id: Id): (r: Option<User>)
    ensures r.Some? <==> id in users
    ensures r.Some? ==> r.value == users[id]
  {
    if id in users then Some(users[id]) else None
  }

  /** The LocalStrategy verify callback: a store failure is passed on as an
      error; an unknown username and a wrong password are rejected with their
      own messages; otherwise the stored record is the authenticated user.
      The record's 2FA fields are never consulted. */
  function VerifyLocal(users: UserTable, username: string, password: string,
                       compare: (string, string) -> bool, store: StoreStatus): (r: StrategyOutcome)
    ensures r.StoreError? <==> store.Down?
    ensures store.Up? && !NameTaken(users, username) ==> r == Rejected("User not found")
    ensures (store.Up? && NameTaken(users, username) &&
             !compare(password, FindByUsername(users, username).value.password)) ==>
      r == Rejected("Incorrect password")
    ensures r.Rejected? ==> r.message in {"User not found", "Incorrect password"}
    ensures r.Authenticated? <==>
      store.Up? && NameTaken(users, username) &&
      compare(password, FindByUsername(users, username).value.password)
    ensures r.Authenticated? ==>
      r.user in users.Values && r.user.username == username && compare(password, r.user.password)
  {
    if store.Down? then StoreError
    else
      var found := FindByUsername(users, username);
      if found.None? then Rejected("User not found")
      else if compare(password, found.value.password) then Authenticated(found.value)
      else Rejected("Incorrect password")
  }

  /** `serializeUser`: the session keeps only the user's id. */
  function SerializeUser(user: User): (id: Id)
    ensures id == user.id
  {
    user.id
  }

  /** `deserializeUser`: the record found under the session's id (null when
      there is none), or the store's error. */
  function DeserializeUser(users: UserTable, id: Id, store: StoreStatus): (r: DeserializeOutcome)
    ensures r.DeserializeError? <==> store.Down?
    ensures store.Up? ==> r.Deserialized? && (r.user.Some? <==> id in users)
    ensures r.Deserialized? && r.user.Some? ==> id in users && r.user.value == users[id]
    ensures r.Deserialized? && r.user.Some? ==> r.user.value.id == id || !WellKeyed(users)
  {
    if store.Down? then DeserializeError else Deserialized(FindById(users, id))
  }

  /** With unique usernames the callback's outcome is decided by the one record
      carrying the username: it succeeds with exactly that record when the
      password compares, and fails with "Incorrect password" otherwise. */
  lemma VerifyLocalDecidedByRecord(users: UserTable, id: Id, password: string,
                                   compare: (string, string) -> bool)
    requires UniqueUsernames(users) && id in users
    ensures VerifyLocal(users, users[id].username, password, compare, Up) ==
      if compare(password, users[id].password) then Authenticated(users[id])
      else Rejected("Incorrect password")
  {
  }

  /** The callback depends only on ids, usernames and password hashes: two
      tables that differ only in their 2FA fields give the same outcome, up to
      those fields of the authenticated record. */
  lemma VerifyLocalIgnoresMfa(before: UserTable, after: UserTable, username: string,
                              password: string, compare: (string, string) -> bool, store: StoreStatus)
    requires SameCredentials(before, after)
    ensures var r, r' := VerifyLocal(before, username, password, compare, store),
                         VerifyLocal(after, username, password, compare, store);
      r.Authenticated? == r'.Authenticated? &&
      (r.Rejected? ==> r' == r) &&
      (r.Authenticated? ==> r'.user.id == r.user.id && r'.user.username == r.user.username &&
                            r'.user.password == r.user.password)
  {
    if store.Up? && NameTaken(before, username) {
      var w :| w in before && before[w].username == username;
      assert w in after && after[w].username == username;
      var k, k' := LeastMatch(before, username), LeastMatch(after, username);
      assert k' in before && before[k'].username == username;
      assert k <= k';
      assert k in after && after[k].username == username;
      assert k' <= k;
    }
  }

  /** Deserializing what was serialized gives the user back while the user is
      still in the table. */
  lemma DeserializeSerialize(users: UserTable, user: User)
    requires WellKeyed(users) && user in users.Values
    ensures DeserializeUser(users, SerializeUser(user), Up) == Deserialized(Some(user))
  {
    var k :| k in users && users[k] == user;
    assert users[k].id == k;
  }

  /** An id with no record deserializes to null, which downstream reads as
      "no current user". */
  lemma DeserializeMissing(users: UserTable, id: Id)
    requires id !in users
    ensures DeserializeUser(users, id, Up) == Deserialized(None)
  {
  }
}
