/** Building the per-request context: the caller's user id and identity, from
    the `Authorization` header. A verified token whose subject has no user
    yet creates that user on first sight (find-or-create on the unique
    `identity_provider_id`). Token verification (a signature check against
    a remote key set) is the parameter `verifyToken`. */
module Context {

  import opened Common
  import opened DbSchema
  import opened Db
  import opened Jwt

  datatype GraphQLContext = GraphQLContext(userId: Option<Id>, identityProviderId: Option<string>)

  const Anonymous := GraphQLContext(None, None)

  /** The key of the user whose identity-provider id is `sub`, if there is one. */
  ghost function FindUserByIdentity(users: map<Id, User>, sub: string): (r: Option<Id>)
    ensures r.Some? ==> r.value in users && users[r.value].identityProviderId == sub
    ensures r.None? ==> forall id :: id in users ==> users[id].identityProviderId != sub
  {
    if exists id :: id in users && users[id].identityProviderId == sub then
      var id :| id in users && users[id].identityProviderId == sub;
      Some(id)
    else
      None
  }

  /** The user row inserted on first login; timestamps default to now. */
  function NewUser(id: Id, payload: TokenPayload, now: Timestamp): (u: User)
    ensures u.id == id && u.identityProviderId == payload.sub
    ensures u.email == payload.email && u.name == payload.name && u.avatarUrl == payload.picture
  {
    User(id, payload.sub, payload.email, payload.name, payload.picture, now, now)
  }

  /** Find-or-create on the users table: the new table, the next free key,
      and the caller's user id. */
  ghost function FindOrCreate(users: map<Id, User>, nextId: Id, payload: TokenPayload, now: Timestamp)
    : (map<Id, User>, Id, Id)
  {
    match FindUserByIdentity(users, payload.sub)
    case Some(id) => (users, nextId, id)
    case None => (users[nextId := NewUser(nextId, payload, now)], nextId + 1, nextId)
  }

  /** The returned id is a user with the token's subject; an existing user is
      reused with nothing inserted, otherwise exactly one row is added; the
      identity column stays unique. */
  lemma FindOrCreateSpec(users: map<Id, User>, nextId: Id, payload: TokenPayload, now: Timestamp)
    requires UsersValid(users) && forall id :: id in users ==> id < nextId
    ensures var (users', nextId', userId) := FindOrCreate(users, nextId, payload, now);
      && UsersValid(users')
      && (forall id :: id in users' ==> id < nextId')
      && userId in users' && users'[userId].identityProviderId == payload.sub
      && (forall id :: id in users ==> id in users' && users'[id] == users[id])
      && ((exists id :: id in users && users[id].identityProviderId == payload.sub) ==>
            users' == users && nextId' == nextId)
      && ((forall id :: id in users ==> users[id].identityProviderId != payload.sub) ==>
            users' == users[nextId := NewUser(nextId, payload, now)] && userId == nextId && nextId !in users)
  {
    var (users', nextId', userId) := FindOrCreate(users, nextId, payload, now);
    if FindUserByIdentity(users, payload.sub).None? {
      assert users'[nextId].identityProviderId == payload.sub;
      forall a, b | a in users' && b in users' && users'[a].identityProviderId == users'[b].identityProviderId
        ensures a == b
      {
        if a != nextId && b != nextId {
          assert users'[a] == users[a] && users'[b] == users[b];
        }
      }
    }
  }

  /** Two logins with the same subject create at most one user: the second
      finds the row the first inserted. */
  lemma FindOrCreateTwice(users: map<Id, User>, nextId: Id, p1: TokenPayload, p2: TokenPayload,
                          now1: Timestamp, now2: Timestamp)
    requires UsersValid(users) && forall id :: id in users ==> id < nextId
    requires p1.sub == p2.sub
    ensures var (users1, next1, id1) := FindOrCreate(users, nextId, p1, now1);
      var (users2, next2, id2) := FindOrCreate(users1, next1, p2, now2);
      users2 == users1 && next2 == next1 && id2 == id1
  {
    FindOrCreateSpec(users, nextId, p1, now1);
    var (users1, next1, id1) := FindOrCreate(users, nextId, p1, now1);
    assert users1[id1].identityProviderId == p2.sub;
  }

  /** `createContext`. */
  method CreateContext(db: Database, authorization: Option<string>,
                       verifyToken: string -> Option<TokenPayload>, now: Timestamp)
    returns (ctx: GraphQLContext)
    requires db.Valid()
    modifies db
    ensures db.Valid()
    ensures var token := ExtractBearerToken(authorization);
      (token.None? || token.value == "") ==> ctx == Anonymous && unchanged(db)
    ensures var token := ExtractBearerToken(authorization);
      (token.Some? && token.value != "" && verifyToken(token.value).None?) ==> ctx == Anonymous && unchanged(db)
    ensures var token := ExtractBearerToken(authorization);
      (token.Some? && token.value != "" && verifyToken(token.value).Some?) ==>
        var payload := verifyToken(token.value).value;
        var (users', nextId', userId) := FindOrCreate(old(db.tables.users), old(db.nextId), payload, now);
        && ctx == GraphQLContext(Some(userId), Some(payload.sub))
        && db.tables == old(db.tables).(users := users')
        && db.nextId == nextId'
  {
    var token := ExtractBearerToken(authorization);
    if token.None? || token.value == "" {
      return Anonymous;
    }
    var payload := verifyToken(token.value);
    if payload.None? {
      return Anonymous;
    }
    var sub := payload.value.sub;
    FindOrCreateSpec(db.tables.users, db.nextId, payload.value, now);
    var userId;
    if id :| id in db.tables.users && db.tables.users[id].identityProviderId == sub {
      userId := id;
    } else {
      userId := db.nextId;
      db.tables := db.tables.(users := db.tables.users[userId := NewUser(userId, payload.value, now)]);
      db.nextId := db.nextId + 1;
      GrownUsersKeepReferences(old(db.tables), db.tables.users);
    }
    ctx := GraphQLContext(Some(userId), Some(sub));
  }

  /** Adding users keeps every row that points at a user pointing at one. */
  lemma GrownUsersKeepReferences(t: Tables, users': map<Id, User>)
    requires TablesValid(t)
    requires UsersValid(users') && t.users.Keys <= users'.Keys
    ensures TablesValid(t.(users := users'))
  {
  }
}
