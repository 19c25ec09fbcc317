/** The GraphQL resolvers of the sync API, over the shared `Database`. Queries
    read the tables; mutations update them in place. An anonymous caller
    (no user id in the context) gets `null` or `[]` from a query and
    `Unauthorized` from `memoriesSince` and every mutation, before any table
    is touched. */
module Resolvers {

  import opened Common
  import opened DbSchema
  import opened Db
  import opened Context
  import opened ContentHash
  import opened MemoryMerge
  import opened MemoryQuery

  /** The errors a resolver throws. */
  datatype Error =
    | Unauthorized
    | MemoryNotFound
    | /** The database refuses an insert whose `user_id` names no user. */
      ForeignKeyViolation

  datatype Result<+T> = Ok(value: T) | Err(error: Error)

  // ----- Query.me / mySubscription / myPreferences ------------------------

  /** `me`: the caller's user row. */
  method Me(db: Database, ctx: GraphQLContext) returns (user: Option<User>)
    ensures ctx.userId.None? ==> user.None?
    ensures ctx.userId.Some? ==> (user.Some? <==> ctx.userId.value in db.tables.users)
    ensures user.Some? ==> ctx.userId.Some? && user.value == db.tables.users[ctx.userId.value]
  {
    if ctx.userId.None? {
      return None;
    }
    var uid := ctx.userId.value;
    if uid in db.tables.users {
      user := Some(db.tables.users[uid]);
    } else {
      user := None;
    }
  }

  /** `mySubscription`: some subscription row of the caller (the column is not
      unique, so which one is left open). */
  method MySubscription(db: Database, ctx: GraphQLContext) returns (sub: Option<Subscription>)
    requires db.Valid()
    ensures ctx.userId.None? ==> sub.None?
    ensures ctx.userId.Some? ==>
      (sub.None? <==> forall id :: id in db.tables.subscriptions ==> db.tables.subscriptions[id].userId != ctx.userId.value)
    ensures sub.Some? ==>
      && ctx.userId.Some? && sub.value.userId == ctx.userId.value
      && sub.value.id in db.tables.subscriptions && db.tables.subscriptions[sub.value.id] == sub.value
  {
    if ctx.userId.None? {
      return None;
    }
    var uid := ctx.userId.value;
    var subs := db.tables.subscriptions;
    if id :| id in subs && subs[id].userId == uid {
      sub := Some(subs[id]);
    } else {
      sub := None;
    }
  }

  /** `myPreferences`: the caller's preferences row, which is unique. */
  method MyPreferences(db: Database, ctx: GraphQLContext) returns (prefs: Option<Preferences>)
    requires db.Valid()
    ensures ctx.userId.None? ==> prefs.None?
    ensures ctx.userId.Some? ==>
      (prefs.None? <==> forall id :: id in db.tables.preferences ==> db.tables.preferences[id].userId != ctx.userId.value)
    ensures prefs.Some? ==>
      && ctx.userId.Some?
      && forall id :: id in db.tables.preferences && db.tables.preferences[id].userId == ctx.userId.value ==>
           db.tables.preferences[id] == prefs.value
  {
    if ctx.userId.None? {
      return None;
    }
    var uid := ctx.userId.value;
    var rows := db.tables.preferences;
    if id :| id in rows && rows[id].userId == uid {
      prefs := Some(rows[id]);
    } else {
      prefs := None;
    }
  }

  // ----- Query.myMemories ---------------------------------------------------

  /** The `myMemories` filter: an empty category means no category filter. */
  function LiveFilter(userId: Id, category: Option<string>): Filter
  {
    Live(userId, if category.Some? && category.value != "" then category else None)
  }

  /** The `myMemories` limit: applied only when it is positive. */
  function EffectiveLimit(limit: Option<int>): Option<nat>
  {
    if limit.Some? && limit.value > 0 then Some(limit.value) else None
  }

  /** `myMemories`: the caller's live rows, in ascending `updatedAt`. */
  method MyMemories(db: Database, ctx: GraphQLContext, category: Option<string>, limit: Option<int>)
    returns (result: seq<Memory>)
    requires db.Valid()
    ensures ctx.userId.None? ==> result == []
    ensures ctx.userId.Some? ==>
      OrderedSelection(db.tables.memories, LiveFilter(ctx.userId.value, category), EffectiveLimit(limit), result)
  {
    if ctx.userId.None? {
      return [];
    }
    result := SelectOrdered(db.tables.memories, LiveFilter(ctx.userId.value, category), EffectiveLimit(limit));
  }

  /** What `myMemories` lists: only the caller's rows, never a tombstone,
      only the requested category when one is named, and every live row of
      the caller when no positive limit is given. */
  lemma MyMemoriesContents(rows: map<Id, Memory>, userId: Id, category: Option<string>, limit: Option<int>,
                           result: seq<Memory>)
    requires OrderedSelection(rows, LiveFilter(userId, category), EffectiveLimit(limit), result)
    ensures forall i :: 0 <= i < |result| ==> result[i].userId == userId && result[i].deletedAt.None?
    ensures category.Some? && category.value != "" ==>
      forall i :: 0 <= i < |result| ==> result[i].category == category.value
    ensures EffectiveLimit(limit).None? ==>
      forall id :: id in rows && Keeps(LiveFilter(userId, category), rows[id]) ==> id in IdsOf(result)
  {
    var f := LiveFilter(userId, category);
    if EffectiveLimit(limit).None? {
      forall id | id in rows && Keeps(f, rows[id])
        ensures id in IdsOf(result)
      {
        assert id in Matching(rows, f);
        AllTakenWithoutLimit(rows, f, result);
      }
    }
  }

  /** Without a limit the selection returns every matching row. */
  lemma AllTakenWithoutLimit(rows: map<Id, Memory>, f: Filter, result: seq<Memory>)
    requires OrderedSelection(rows, f, None, result)
    ensures Matching(rows, f) <= IdsOf(result)
  {
    var ids := IdsOf(result);
    forall id | id in ids ensures id in Matching(rows, f) {
      var i :| 0 <= i < |result| && result[i].id == id;
    }
    DistinctIdsCount(result);
    SubsetOfSameSize(ids, Matching(rows, f));
  }

  /** A result whose ids are distinct has as many ids as rows. */
  lemma {:induction false} DistinctIdsCount(s: seq<Memory>)
    requires forall i, j :: 0 <= i < j < |s| ==> s[i].id != s[j].id
    ensures |IdsOf(s)| == |s|
  {
    if s != [] {
      var init := s[..|s| - 1];
      DistinctIdsCount(init);
      assert s == init + [s[|s| - 1]];
      IdsOfAppend(init, s[|s| - 1]);
    }
  }

  lemma SubsetOfSameSize<T>(a: set<T>, b: set<T>)
    requires a <= b && |a| == |b|
    ensures a == b
  {
    var d := b - a;
    assert b == a + d;
    assert |b| == |a| + |d|;
    assert d == {};
  }

  // ----- Query.memoriesSince ------------------------------------------------

  predicate CursorFor(c: SyncCursor, userId: Id, deviceId: string)
  {
    c.userId == userId && c.deviceId == deviceId
  }

  /** At most one cursor row per (user, device). */
  ghost predicate AtMostOneCursor(cursors: map<Id, SyncCursor>, userId: Id, deviceId: string)
  {
    forall a, b ::
      (a in cursors && b in cursors && CursorFor(cursors[a], userId, deviceId) && CursorFor(cursors[b], userId, deviceId))
      ==> a == b
  }

  /** The sync-cursor upsert of `memoriesSince`: some cursor of the device has
      its `lastSyncedAt` set to now, or, when there is none, one is inserted
      under a new key (its `lastSyncedAt` defaulting to now). */
  ghost predicate CursorUpserted(before: map<Id, SyncCursor>, after: map<Id, SyncCursor>, freshId: Id,
                                 userId: Id, deviceId: string, now: Timestamp)
  {
    if exists id :: id in before && CursorFor(before[id], userId, deviceId) then
      exists id :: id in before && CursorFor(before[id], userId, deviceId) &&
        after == before[id := before[id].(lastSyncedAt := now)]
    else
      after == before[freshId := SyncCursor(freshId, userId, deviceId, now)]
  }

  /** After the upsert the device has exactly one cursor, synced now, when it
      had at most one before; every other cursor is kept as it was. */
  lemma CursorUpsertLeavesOne(before: map<Id, SyncCursor>, after: map<Id, SyncCursor>, freshId: Id,
                              userId: Id, deviceId: string, now: Timestamp)
    requires SyncCursorsValid(before) && freshId !in before
    requires CursorUpserted(before, after, freshId, userId, deviceId, now)
    ensures SyncCursorsValid(after)
    ensures forall id :: id in before && !CursorFor(before[id], userId, deviceId) ==> id in after && after[id] == before[id]
    ensures exists id :: id in after && CursorFor(after[id], userId, deviceId) && after[id].lastSyncedAt == now
    ensures AtMostOneCursor(before, userId, deviceId) ==> AtMostOneCursor(after, userId, deviceId)
  {
    if exists id :: id in before && CursorFor(before[id], userId, deviceId) {
      var id :| id in before && CursorFor(before[id], userId, deviceId) &&
        after == before[id := before[id].(lastSyncedAt := now)];
      assert after[id].lastSyncedAt == now && CursorFor(after[id], userId, deviceId);
    } else {
      assert after[freshId].lastSyncedAt == now && CursorFor(after[freshId], userId, deviceId);
    }
  }

  /** `memoriesSince`: one page of the delta pull, and the device's sync
      cursor upserted. */
  method MemoriesSince(db: Database, ctx: GraphQLContext, since: Timestamp, deviceId: string, now: Timestamp)
    returns (r: Result<SyncPage>)
    requires db.Valid()
    modifies db
    ensures db.Valid()
    ensures ctx.userId.None? ==> r == Err(Unauthorized) && unchanged(db)
    ensures ctx.userId.Some? ==>
      && r.Ok?
      && SyncPageOf(old(db.tables.memories), ctx.userId.value, since, r.value)
      && db.tables == old(db.tables).(syncCursors := db.tables.syncCursors)
      && CursorUpserted(old(db.tables.syncCursors), db.tables.syncCursors, old(db.nextId), ctx.userId.value, deviceId, now)
      && db.nextId >= old(db.nextId)
  {
    if ctx.userId.None? {
      return Err(Unauthorized);
    }
    var uid := ctx.userId.value;
    var results := SelectOrdered(db.tables.memories, UpdatedSince(uid, since), Some(SyncPageSize + 1));
    PullPage(db.tables.memories, uid, since, results);
    var page := Paginate(results, since);
    UpsertCursor(db, uid, deviceId, now);
    r := Ok(page);
  }

  /** The cursor upsert: a select on (user, device), then an update of the
      row found or an insert. */
  method UpsertCursor(db: Database, uid: Id, deviceId: string, now: Timestamp)
    requires db.Valid()
    modifies db
    ensures db.Valid()
    ensures db.tables == old(db.tables).(syncCursors := db.tables.syncCursors)
    ensures CursorUpserted(old(db.tables.syncCursors), db.tables.syncCursors, old(db.nextId), uid, deviceId, now)
    ensures db.nextId >= old(db.nextId)
  {
    var cursors := db.tables.syncCursors;
    if id :| id in cursors && CursorFor(cursors[id], uid, deviceId) {
      db.tables := db.tables.(syncCursors := cursors[id := cursors[id].(lastSyncedAt := now)]);
    } else {
      var newId := db.nextId;
      db.tables := db.tables.(syncCursors := cursors[newId := SyncCursor(newId, uid, deviceId, now)]);
      db.nextId := newId + 1;
    }
    CursorUpsertLeavesOne(cursors, db.tables.syncCursors, old(db.nextId), uid, deviceId, now);
  }

  // ----- Mutation.pushMemories ----------------------------------------------

  /** `pushMemories`: the batch is merged item by item in place; the table
      and the counters end as `PushAll` says. */
  method PushMemories(db: Database, ctx: GraphQLContext, input: seq<PushMemoryInput>,
                      sha256: string -> Sha256Digest)
    returns (r: Result<PushCounts>)
    requires db.Valid()
    modifies db
    ensures db.Valid()
    ensures ctx.userId.None? ==> r == Err(Unauthorized) && unchanged(db)
    ensures ctx.userId.Some? ==>
      var (s', counts) := PushAll(Store(old(db.tables.memories), old(db.nextId)), ctx.userId.value, input, sha256);
      && r == Ok(counts)
      && db.tables == old(db.tables).(memories := s'.rows)
      && db.nextId == s'.nextId
  {
    if ctx.userId.None? {
      return Err(Unauthorized);
    }
    var uid := ctx.userId.value;
    var counts := PushCounts(0, 0, 0);
    ghost var s0 := Store(db.tables.memories, db.nextId);
    for i := 0 to |input|
      invariant (Store(db.tables.memories, db.nextId), counts) == PushAll(s0, uid, input[..i], sha256)
      invariant db.tables == old(db.tables).(memories := db.tables.memories)
      invariant StoreValid(Store(db.tables.memories, db.nextId)) && db.nextId >= old(db.nextId)
    {
      var item := input[i];
      var hash := ComputeContentHash(sha256, item.content);
      ghost var before := Store(db.tables.memories, db.nextId);
      assert input[..i + 1][..i] == input[..i];
      assert input[..i + 1][i] == item;
      MergeOneStep(before, uid, hash, item);
      var o := MergeItem(db, uid, hash, item);
      counts := Bump(counts, o);
    }
    assert input[..|input|] == input;
    r := Ok(counts);
  }

  /** One item of the batch: the lookup by (user, fingerprint), then the
      insert, the overwrite or the access-count raise, on the memory table
      only. */
  method MergeItem(db: Database, uid: Id, hash: string, item: PushMemoryInput) returns (o: PushOutcome)
    requires StoreValid(Store(db.tables.memories, db.nextId))
    modifies db
    ensures (Store(db.tables.memories, db.nextId), o) == MergeOne(Store(old(db.tables.memories), old(db.nextId)), uid, hash, item)
    ensures db.tables == old(db.tables).(memories := db.tables.memories)
  {
    var rows := db.tables.memories;
    if id :| id in rows && HashMatch(rows[id], uid, hash) {
      FindByHashUnique(rows, uid, hash, id);
      var existing := rows[id];
      if item.updatedAt > existing.updatedAt {
        db.tables := db.tables.(memories := rows[id := Overwrite(existing, item)]);
        o := Updated;
      } else {
        var maxAccess := Max(item.accessCount.GetOr(0), existing.accessCount);
        if maxAccess > existing.accessCount {
          db.tables := db.tables.(memories := rows[id := existing.(accessCount := maxAccess)]);
        } else {
          assert rows[id := RaiseAccessCount(existing, item)] == rows;
        }
        o := Duplicate;
      }
    } else {
      var newId := db.nextId;
      db.tables := db.tables.(memories := rows[newId := NewMemory(newId, uid, hash, item)]);
      db.nextId := newId + 1;
      o := Inserted;
    }
  }

  // ----- Mutation.deleteMemory / updateMemory -------------------------------

  /** The `(userId, gatewayMemoryId)` lookup; tombstones are not excluded. */
  predicate GatewayMatch(m: Memory, userId: Id, gatewayMemoryId: string)
  {
    m.userId == userId && m.gatewayMemoryId == gatewayMemoryId
  }

  /** Whether the `(userId, gatewayMemoryId)` lookup finds a row. */
  ghost predicate AnyGatewayMatch(rows: map<Id, Memory>, userId: Id, gatewayMemoryId: string)
  {
    exists id :: id in rows && GatewayMatch(rows[id], userId, gatewayMemoryId)
  }

  /** The soft delete: `deletedAt` and `updatedAt` set to now. */
  function Tombstone(m: Memory, now: Timestamp): Memory
  {
    m.(deletedAt := Some(now), updatedAt := now)
  }

  /** The `updateMemory` edit: `pinned` only when given, `updatedAt` always. */
  function Touch(m: Memory, pinned: Option<bool>, now: Timestamp): Memory
  {
    m.(pinned := pinned.GetOr(m.pinned), updatedAt := now)
  }

  /** An edit that keeps a row's key, owner and fingerprint keeps the dedup
      invariant. */
  lemma EditKeepsDedup(rows: map<Id, Memory>, id: Id, m: Memory)
    requires MemoriesValid(rows) && id in rows
    requires m.id == id && m.userId == rows[id].userId && m.contentHash == rows[id].contentHash
    ensures MemoriesValid(rows[id := m])
  {
    var rows' := rows[id := m];
    forall a, b | a in rows' && b in rows' && rows'[a].userId == rows'[b].userId && rows'[a].contentHash == rows'[b].contentHash
      ensures a == b
    {
      assert rows'[a].userId == rows[a].userId && rows'[a].contentHash == rows[a].contentHash;
      assert rows'[b].userId == rows[b].userId && rows'[b].contentHash == rows[b].contentHash;
    }
  }

  /** A tombstone leaves `myMemories` but reaches every device whose next
      pull starts at or before the deletion; the row still matches its
      `(userId, gatewayMemoryId)` lookup, so deleting it again succeeds again
      and moves `deletedAt` to the later time. */
  lemma TombstoneSpreads(m: Memory, now: Timestamp, since: Timestamp, category: Option<string>, later: Timestamp)
    requires since <= now
    ensures !Keeps(Live(m.userId, category), Tombstone(m, now))
    ensures Keeps(UpdatedSince(m.userId, since), Tombstone(m, now))
    ensures GatewayMatch(Tombstone(m, now), m.userId, m.gatewayMemoryId)
    ensures Tombstone(Tombstone(m, now), later).deletedAt == Some(later)
  {
  }

  /** An edit changes only `pinned` (when given) and `updatedAt`, and reaches
      every device whose next pull starts at or before it. */
  lemma TouchSpreads(m: Memory, pinned: Option<bool>, now: Timestamp, since: Timestamp)
    requires since <= now
    ensures Touch(m, pinned, now).pinned == (if pinned.Some? then pinned.value else m.pinned)
    ensures Touch(m, pinned, now).(pinned := m.pinned, updatedAt := m.updatedAt) == m
    ensures Keeps(UpdatedSince(m.userId, since), Touch(m, pinned, now))
  {
  }

  /** `deleteMemory`: soft-deletes some row matching the caller and gateway
      id, or reports `false` when there is none. */
  method DeleteMemory(db: Database, ctx: GraphQLContext, gatewayMemoryId: string, now: Timestamp)
    returns (r: Result<bool>)
    requires db.Valid()
    modifies db
    ensures db.Valid()
    ensures ctx.userId.None? ==> r == Err(Unauthorized) && unchanged(db)
    ensures ctx.userId.Some? ==>
      r.Ok? && (r.value <==> AnyGatewayMatch(old(db.tables.memories), ctx.userId.value, gatewayMemoryId))
    ensures r == Ok(false) ==> unchanged(db)
    ensures r == Ok(true) ==>
      && ctx.userId.Some? && db.nextId == old(db.nextId)
      && exists id :: id in old(db.tables.memories) &&
           GatewayMatch(old(db.tables.memories)[id], ctx.userId.value, gatewayMemoryId) &&
           db.tables == old(db.tables).(memories := old(db.tables.memories)[id := Tombstone(old(db.tables.memories)[id], now)])
  {
    if ctx.userId.None? {
      return Err(Unauthorized);
    }
    var uid := ctx.userId.value;
    var rows := db.tables.memories;
    if id :| id in rows && GatewayMatch(rows[id], uid, gatewayMemoryId) {
      EditKeepsDedup(rows, id, Tombstone(rows[id], now));
      db.tables := db.tables.(memories := rows[id := Tombstone(rows[id], now)]);
      r := Ok(true);
    } else {
      r := Ok(false);
    }
  }

  /** `updateMemory`: edits some row matching the caller and gateway id, or
      fails with `Memory not found`. */
  method UpdateMemory(db: Database, ctx: GraphQLContext, gatewayMemoryId: string, pinned: Option<bool>,
                      now: Timestamp)
    returns (r: Result<Memory>)
    requires db.Valid()
    modifies db
    ensures db.Valid()
    ensures ctx.userId.None? ==> r == Err(Unauthorized) && unchanged(db)
    ensures ctx.userId.Some? && !AnyGatewayMatch(old(db.tables.memories), ctx.userId.value, gatewayMemoryId) ==>
      r == Err(MemoryNotFound) && unchanged(db)
    ensures r.Ok? ==>
      && ctx.userId.Some? && db.nextId == old(db.nextId)
      && exists id :: id in old(db.tables.memories) &&
           GatewayMatch(old(db.tables.memories)[id], ctx.userId.value, gatewayMemoryId) &&
           r.value == Touch(old(db.tables.memories)[id], pinned, now) &&
           db.tables == old(db.tables).(memories := old(db.tables.memories)[id := r.value])
    ensures ctx.userId.Some? && AnyGatewayMatch(old(db.tables.memories), ctx.userId.value, gatewayMemoryId) ==>
      r.Ok?
  {
    if ctx.userId.None? {
      return Err(Unauthorized);
    }
    var uid := ctx.userId.value;
    var rows := db.tables.memories;
    if id :| id in rows && GatewayMatch(rows[id], uid, gatewayMemoryId) {
      var updated := Touch(rows[id], pinned, now);
      EditKeepsDedup(rows, id, updated);
      db.tables := db.tables.(memories := rows[id := updated]);
      r := Ok(updated);
    } else {
      r := Err(MemoryNotFound);
    }
  }

  // ----- Mutation.updatePreferences -----------------------------------------

  /** Whether the user already has a preferences row. */
  ghost predicate HasPreferences(prefs: map<Id, Preferences>, userId: Id)
  {
    exists id :: id in prefs && prefs[id].userId == userId
  }

  /** The update branch: `{...input, updatedAt: now}`. */
  function UpdatedPreferences(p: Preferences, input: PreferencesInput, now: Timestamp): (p': Preferences)
    ensures p'.id == p.id && p'.userId == p.userId && p'.createdAt == p.createdAt && p'.updatedAt == now
    ensures p'.defaultPersona == ColumnValue(input.defaultPersona, p.defaultPersona)
    ensures p'.theme == ColumnValue(input.theme, p.theme)
    ensures p'.voiceEnabled == ColumnValue(input.voiceEnabled, p.voiceEnabled)
  {
    p.(defaultPersona := ColumnValue(input.defaultPersona, p.defaultPersona),
       theme := ColumnValue(input.theme, p.theme),
       voiceEnabled := ColumnValue(input.voiceEnabled, p.voiceEnabled),
       updatedAt := now)
  }

  /** An update naming no field only refreshes `updatedAt`; one naming every
      field gives the same row as an insert of that input would, up to the
      key and creation time. */
  lemma UpdatedPreferencesFields(p: Preferences, input: PreferencesInput, now: Timestamp)
    ensures input == PreferencesInput(Absent, Absent, Absent) ==>
      UpdatedPreferences(p, input, now) == p.(updatedAt := now)
    ensures !input.defaultPersona.Absent? && !input.theme.Absent? && !input.voiceEnabled.Absent? ==>
      UpdatedPreferences(p, input, now) == NewPreferences(p.id, p.userId, input, now).(createdAt := p.createdAt)
  {
  }

  /** `updatePreferences`: updates the caller's row, or inserts one with the
      column defaults for the fields not given. */
  method UpdatePreferences(db: Database, ctx: GraphQLContext, input: PreferencesInput, now: Timestamp)
    returns (r: Result<Preferences>)
    requires db.Valid()
    modifies db
    ensures db.Valid()
    ensures ctx.userId.None? ==> r == Err(Unauthorized) && unchanged(db)
    ensures ctx.userId.Some? ==> PreferencesUpserted(old(db.tables), old(db.nextId), db.tables, db.nextId, ctx.userId.value, input, now, r)
  {
    if ctx.userId.None? {
      return Err(Unauthorized);
    }
    r := UpsertPreferences(db, ctx.userId.value, input, now);
  }

  /** The outcome of the preferences upsert for `uid`, from tables `t` and
      next key `n` to `t'` and `n'`: the caller's row updated in place; or,
      when there is none, a row inserted for an existing user; or a
      foreign-key failure with nothing changed. A returned row is the stored
      row of the caller. */
  ghost predicate PreferencesUpserted(t: Tables, n: Id, t': Tables, n': Id, uid: Id,
                                      input: PreferencesInput, now: Timestamp, r: Result<Preferences>)
  {
    && (HasPreferences(t.preferences, uid) ==>
          && n' == n
          && exists id :: id in t.preferences && t.preferences[id].userId == uid &&
               r == Ok(UpdatedPreferences(t.preferences[id], input, now)) &&
               t' == t.(preferences := t.preferences[id := r.value]))
    && (!HasPreferences(t.preferences, uid) && uid in t.users ==>
          && r == Ok(NewPreferences(n, uid, input, now))
          && t' == t.(preferences := t.preferences[n := r.value])
          && n' == n + 1)
    && (!HasPreferences(t.preferences, uid) && uid !in t.users ==>
          r == Err(ForeignKeyViolation) && t' == t && n' == n)
    && (r.Ok? ==> r.value.userId == uid && r.value.id in t'.preferences && t'.preferences[r.value.id] == r.value)
  }

  /** The upsert of the caller's preferences row. */
  method UpsertPreferences(db: Database, uid: Id, input: PreferencesInput, now: Timestamp)
    returns (r: Result<Preferences>)
    requires db.Valid()
    modifies db
    ensures db.Valid()
    ensures PreferencesUpserted(old(db.tables), old(db.nextId), db.tables, db.nextId, uid, input, now, r)
  {
    var prefs := db.tables.preferences;
    if id :| id in prefs && prefs[id].userId == uid {
      var updated := UpdatedPreferences(prefs[id], input, now);
      PreferencesRowReplaced(db.tables, db.nextId, id, updated);
      db.tables := db.tables.(preferences := prefs[id := updated]);
      r := Ok(updated);
    } else if uid in db.tables.users {
      var newId := db.nextId;
      var created := NewPreferences(newId, uid, input, now);
      PreferencesRowAdded(db.tables, created);
      db.tables := db.tables.(preferences := prefs[newId := created]);
      db.nextId := newId + 1;
      r := Ok(created);
    } else {
      r := Err(ForeignKeyViolation);
    }
  }

  /** Replacing a preferences row by one with the same key and owner keeps
      the tables valid. */
  lemma PreferencesRowReplaced(t: Tables, n: Id, id: Id, p: Preferences)
    requires TablesValid(t) && IdsBelow(t, n) && id in t.preferences
    requires p.id == id && p.userId == t.preferences[id].userId
    ensures TablesValid(t.(preferences := t.preferences[id := p]))
    ensures IdsBelow(t.(preferences := t.preferences[id := p]), n)
  {
  }

  /** Adding a preferences row for an existing user who has none keeps the
      tables valid. */
  lemma PreferencesRowAdded(t: Tables, p: Preferences)
    requires TablesValid(t) && IdsBelow(t, p.id) && p.userId in t.users
    requires forall id :: id in t.preferences ==> t.preferences[id].userId != p.userId
    ensures TablesValid(t.(preferences := t.preferences[p.id := p]))
    ensures IdsBelow(t.(preferences := t.preferences[p.id := p]), p.id + 1)
  {
  }
}
