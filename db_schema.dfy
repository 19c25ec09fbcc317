/** The relational schema: one datatype per table row, the tables as maps from
    primary key to row, and the declared constraints (primary keys, unique
    columns, foreign keys with cascading delete, column defaults).
    The `memories` and `sync_cursors` rows are not declared in the schema file;
    they are reconstructed from the GraphQL `Memory` type and from the inserts
    the resolvers perform. Primary keys are random UUIDs in the database; here
    they are natural numbers and only their freshness matters. */
module DbSchema {

  import opened Common

  type Id = nat

  /** Timestamps are abstract instants; a larger number is later. */
  type Timestamp = int

  datatype User = User(
    id: Id,
    identityProviderId: string,
    email: Option<string>,
    name: Option<string>,
    avatarUrl: Option<string>,
    createdAt: Timestamp,
    updatedAt: Timestamp)

  datatype ProviderKey = ProviderKey(
    id: Id,
    userId: Id,
    provider: string,
    encryptedKey: string,
    keyHint: Option<string>,
    modelPreference: Option<string>,
    createdAt: Timestamp,
    updatedAt: Timestamp)

  datatype Subscription = Subscription(
    id: Id,
    userId: Id,
    aetherSubscriptionId: Option<string>,
    plan: string,
    status: string,
    creditsRemaining: Option<int>,
    createdAt: Timestamp,
    updatedAt: Timestamp)

  datatype Preferences = Preferences(
    id: Id,
    userId: Id,
    defaultPersona: Option<string>,
    theme: Option<string>,
    voiceEnabled: Option<bool>,
    createdAt: Timestamp,
    updatedAt: Timestamp)

  /** A synchronised memory. `gatewayMemoryId` is the id the originating
      device gave it and is not unique; `contentHash` is the dedup key. */
  datatype Memory = Memory(
    id: Id,
    gatewayMemoryId: string,
    userId: Id,
    category: string,
    content: string,
    contentHash: string,
    tags: string,
    pinned: bool,
    accessCount: int,
    sourceSessionId: Option<string>,
    sourceChannel: Option<string>,
    originDeviceId: Option<string>,
    createdAt: Timestamp,
    updatedAt: Timestamp,
    deletedAt: Option<Timestamp>)

  /** The last delta pull of one device of one user. */
  datatype SyncCursor = SyncCursor(
    id: Id,
    userId: Id,
    deviceId: string,
    lastSyncedAt: Timestamp)

  datatype Tables = Tables(
    users: map<Id, User>,
    providerKeys: map<Id, ProviderKey>,
    subscriptions: map<Id, Subscription>,
    preferences: map<Id, Preferences>,
    memories: map<Id, Memory>,
    syncCursors: map<Id, SyncCursor>)

  const EmptyTables := Tables(map[], map[], map[], map[], map[], map[])

  // ----- constraints -----------------------------------------------------

  /** `users.id` is the primary key and `identity_provider_id` is unique. */
  ghost predicate UsersValid(users: map<Id, User>)
  {
    && (forall id :: id in users ==> users[id].id == id)
    && (forall a, b ::
          (a in users && b in users && users[a].identityProviderId == users[b].identityProviderId)
          ==> a == b)
  }

  /** One key per (user, provider); every key belongs to an existing user. */
  ghost predicate ProviderKeysValid(keys: map<Id, ProviderKey>, users: map<Id, User>)
  {
    && (forall id :: id in keys ==> keys[id].id == id && keys[id].userId in users)
    && (forall a, b ::
          (a in keys && b in keys && keys[a].userId == keys[b].userId && keys[a].provider == keys[b].provider)
          ==> a == b)
  }

  /** `aether_subscription_id` is unique among the rows that have one (a
      unique column admits any number of nulls). */
  ghost predicate SubscriptionsValid(subs: map<Id, Subscription>, users: map<Id, User>)
  {
    && (forall id :: id in subs ==> subs[id].id == id && subs[id].userId in users)
    && (forall a, b ::
          (a in subs && b in subs && subs[a].aetherSubscriptionId.Some? &&
           subs[a].aetherSubscriptionId == subs[b].aetherSubscriptionId)
          ==> a == b)
  }

  /** At most one preferences row per user. */
  ghost predicate PreferencesValid(prefs: map<Id, Preferences>, users: map<Id, User>)
  {
    && (forall id :: id in prefs ==> prefs[id].id == id && prefs[id].userId in users)
    && (forall a, b :: a in prefs && b in prefs && prefs[a].userId == prefs[b].userId ==> a == b)
  }

  /** At most one memory per (user, content hash): the dedup invariant. */
  ghost predicate MemoriesValid(rows: map<Id, Memory>)
  {
    && (forall id :: id in rows ==> rows[id].id == id)
    && (forall a, b ::
          (a in rows && b in rows && rows[a].userId == rows[b].userId &&
           rows[a].contentHash == rows[b].contentHash)
          ==> a == b)
  }

  ghost predicate SyncCursorsValid(cursors: map<Id, SyncCursor>)
  {
    forall id :: id in cursors ==> cursors[id].id == id
  }

  ghost predicate TablesValid(t: Tables)
  {
    && UsersValid(t.users)
    && ProviderKeysValid(t.providerKeys, t.users)
    && SubscriptionsValid(t.subscriptions, t.users)
    && PreferencesValid(t.preferences, t.users)
    && MemoriesValid(t.memories)
    && SyncCursorsValid(t.syncCursors)
  }

  /** Every primary key in use is below `bound`, so `bound` is a fresh id. */
  ghost predicate IdsBelow(t: Tables, bound: Id)
  {
    && (forall id :: id in t.users ==> id < bound)
    && (forall id :: id in t.providerKeys ==> id < bound)
    && (forall id :: id in t.subscriptions ==> id < bound)
    && (forall id :: id in t.preferences ==> id < bound)
    && (forall id :: id in t.memories ==> id < bound)
    && (forall id :: id in t.syncCursors ==> id < bound)
  }

  // ----- column defaults ---------------------------------------------------

  const DefaultPersona := "orin"
  const DefaultTheme := "system"
  const DefaultVoiceEnabled := true
  const DefaultPlan := "free"
  const DefaultStatus := "active"
  const DefaultCredits := 0

  /** The value a write leaves in a column for one optional input field: an
      omitted field leaves `fallback` (the column default on insert, the
      stored value on update), an explicit null stores null, a given value is
      stored. */
  function ColumnValue<T>(f: Field<T>, fallback: Option<T>): Option<T>
  {
    match f
    case Absent => fallback
    case Null => None
    case Given(x) => Some(x)
  }

  /** The optional fields of a preferences insert or update. */
  datatype PreferencesInput = PreferencesInput(
    defaultPersona: Field<string>,
    theme: Field<string>,
    voiceEnabled: Field<bool>)

  /** A new `user_preferences` row; `created_at` and `updated_at` default to now. */
  function NewPreferences(id: Id, userId: Id, input: PreferencesInput, now: Timestamp): (p: Preferences)
    ensures p.id == id && p.userId == userId && p.createdAt == now && p.updatedAt == now
    ensures p.defaultPersona == ColumnValue(input.defaultPersona, Some(DefaultPersona))
    ensures p.theme == ColumnValue(input.theme, Some(DefaultTheme))
    ensures p.voiceEnabled == ColumnValue(input.voiceEnabled, Some(DefaultVoiceEnabled))
  {
    Preferences(id, userId,
      ColumnValue(input.defaultPersona, Some(DefaultPersona)),
      ColumnValue(input.theme, Some(DefaultTheme)),
      ColumnValue(input.voiceEnabled, Some(DefaultVoiceEnabled)),
      now, now)
  }

  /** An insert that names no preference gets persona "orin", theme "system"
      and voice enabled. */
  lemma PreferencesDefaults(id: Id, userId: Id, now: Timestamp)
    ensures var p := NewPreferences(id, userId, PreferencesInput(Absent, Absent, Absent), now);
      p.defaultPersona == Some("orin") && p.theme == Some("system") && p.voiceEnabled == Some(true)
  {
  }

  /** The insertable fields of a subscription row. */
  datatype SubscriptionInput = SubscriptionInput(
    aetherSubscriptionId: Option<string>,
    plan: Field<string>,
    status: Field<string>,
    creditsRemaining: Field<int>)

  /** A new `subscriptions` row. `plan` and `status` are NOT NULL, so an
      explicit null is refused by the database (`None`). */
  function NewSubscription(id: Id, userId: Id, input: SubscriptionInput, now: Timestamp): (r: Option<Subscription>)
    ensures r.None? <==> input.plan.Null? || input.status.Null?
    ensures r.Some? ==> r.value.id == id && r.value.userId == userId
    ensures r.Some? && input.plan.Absent? ==> r.value.plan == DefaultPlan
    ensures r.Some? && input.status.Absent? ==> r.value.status == DefaultStatus
    ensures r.Some? && input.creditsRemaining.Absent? ==> r.value.creditsRemaining == Some(DefaultCredits)
    ensures r.Some? && input.plan.Given? ==> r.value.plan == input.plan.value
    ensures r.Some? && input.status.Given? ==> r.value.status == input.status.value
    ensures r.Some? && input.creditsRemaining.Given? ==> r.value.creditsRemaining == Some(input.creditsRemaining.value)
    ensures r.Some? && input.creditsRemaining.Null? ==> r.value.creditsRemaining == None
    ensures r.Some? ==> r.value.aetherSubscriptionId == input.aetherSubscriptionId
    ensures r.Some? ==> r.value.createdAt == now && r.value.updatedAt == now
  {
    var plan := ColumnValue(input.plan, Some(DefaultPlan));
    var status := ColumnValue(input.status, Some(DefaultStatus));
    if plan.None? || status.None? then None
    else Some(Subscription(id, userId, input.aetherSubscriptionId, plan.value, status.value,
                           ColumnValue(input.creditsRemaining, Some(DefaultCredits)), now, now))
  }

  // ----- cascading delete --------------------------------------------------

  /** Deleting a user: its provider keys, subscriptions and preferences go
      with it (`onDelete: "cascade"`); its memories and sync cursors are
      assumed to cascade the same way, since their table definitions are not
      part of this model. */
  function DeleteUser(t: Tables, userId: Id): (t': Tables)
    ensures t'.users.Keys == t.users.Keys - {userId}
    ensures forall id :: id in t'.providerKeys <==> id in t.providerKeys && t.providerKeys[id].userId != userId
    ensures forall id :: id in t'.subscriptions <==> id in t.subscriptions && t.subscriptions[id].userId != userId
    ensures forall id :: id in t'.preferences <==> id in t.preferences && t.preferences[id].userId != userId
    ensures forall id :: id in t'.memories <==> id in t.memories && t.memories[id].userId != userId
    ensures forall id :: id in t'.syncCursors <==> id in t.syncCursors && t.syncCursors[id].userId != userId
    ensures forall id :: id in t'.users ==> t'.users[id] == t.users[id]
    ensures forall id :: id in t'.providerKeys ==> t'.providerKeys[id] == t.providerKeys[id]
    ensures forall id :: id in t'.subscriptions ==> t'.subscriptions[id] == t.subscriptions[id]
    ensures forall id :: id in t'.preferences ==> t'.preferences[id] == t.preferences[id]
    ensures forall id :: id in t'.memories ==> t'.memories[id] == t.memories[id]
    ensures forall id :: id in t'.syncCursors ==> t'.syncCursors[id] == t.syncCursors[id]
  {
    Tables(
      t.users - {userId},
      map id | id in t.providerKeys && t.providerKeys[id].userId != userId :: t.providerKeys[id],
      map id | id in t.subscriptions && t.subscriptions[id].userId != userId :: t.subscriptions[id],
      map id | id in t.preferences && t.preferences[id].userId != userId :: t.preferences[id],
      map id | id in t.memories && t.memories[id].userId != userId :: t.memories[id],
      map id | id in t.syncCursors && t.syncCursors[id].userId != userId :: t.syncCursors[id])
  }

  /** The cascade leaves no row pointing at a missing user, so every
      constraint still holds afterwards. */
  lemma DeleteUserValid(t: Tables, userId: Id)
    requires TablesValid(t)
    ensures TablesValid(DeleteUser(t, userId))
  {
    var t' := DeleteUser(t, userId);
    assert t'.users == t.users - {userId};
    UsersRemain(t.users, userId);
    ProviderKeysRemain(t, userId);
    SubscriptionsRemain(t, userId);
    PreferencesRemain(t, userId);
    assert MemoriesValid(t'.memories) by {
      assert forall id :: id in t'.memories ==> t'.memories[id] == t.memories[id];
    }
    assert SyncCursorsValid(t'.syncCursors) by {
      assert forall id :: id in t'.syncCursors ==> t'.syncCursors[id] == t.syncCursors[id];
    }
  }

  lemma UsersRemain(users: map<Id, User>, userId: Id)
    requires UsersValid(users)
    ensures UsersValid(users - {userId})
  {
    var users' := users - {userId};
    assert forall id :: id in users' ==> users'[id] == users[id];
  }

  lemma ProviderKeysRemain(t: Tables, userId: Id)
    requires ProviderKeysValid(t.providerKeys, t.users)
    ensures ProviderKeysValid(DeleteUser(t, userId).providerKeys, t.users - {userId})
  {
    var m := DeleteUser(t, userId).providerKeys;
    assert forall id :: id in m ==> m[id] == t.providerKeys[id] && m[id].userId != userId;
  }

  lemma SubscriptionsRemain(t: Tables, userId: Id)
    requires SubscriptionsValid(t.subscriptions, t.users)
    ensures SubscriptionsValid(DeleteUser(t, userId).subscriptions, t.users - {userId})
  {
    var m := DeleteUser(t, userId).subscriptions;
    assert forall id :: id in m ==> m[id] == t.subscriptions[id] && m[id].userId != userId;
  }

  lemma PreferencesRemain(t: Tables, userId: Id)
    requires PreferencesValid(t.preferences, t.users)
    ensures PreferencesValid(DeleteUser(t, userId).preferences, t.users - {userId})
  {
    var m := DeleteUser(t, userId).preferences;
    assert forall id :: id in m ==> m[id] == t.preferences[id] && m[id].userId != userId;
  }
}
