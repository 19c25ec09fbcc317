/** The merge rules of `pushMemories`, as functions on the memory table.
    Each pushed item is fingerprinted and looked up by (user, fingerprint):
    no match inserts a new row; a strictly newer match overwrites the row
    (last write wins) with fallbacks for omitted fields; an older or equally
    old match only raises the access count. `Resolvers.PushMemories` performs
    these steps in place and is proved to end in the state `PushAll` gives. */
module MemoryMerge {

  import opened Common
  import opened DbSchema
  import opened ContentHash

  /** `PushMemoryInput`: optional fields are `None` when omitted or null;
      `deletedAt` is `None` also when it is the empty string (it is tested for
      truthiness). */
  datatype PushMemoryInput = PushMemoryInput(
    gatewayMemoryId: string,
    category: string,
    content: string,
    tags: Option<string>,
    pinned: Option<bool>,
    accessCount: Option<int>,
    sourceSessionId: Option<string>,
    sourceChannel: Option<string>,
    originDeviceId: Option<string>,
    createdAt: Timestamp,
    updatedAt: Timestamp,
    deletedAt: Option<Timestamp>)

  datatype PushOutcome = Inserted | Updated | Duplicate

  /** `PushMemoriesResult`. */
  datatype PushCounts = PushCounts(pushed: nat, updated: nat, duplicates: nat)

  /** Counts one more item with the given outcome. */
  function Bump(c: PushCounts, o: PushOutcome): (c': PushCounts)
    ensures o == Inserted ==> c' == c.(pushed := c.pushed + 1)
    ensures o == Updated ==> c' == c.(updated := c.updated + 1)
    ensures o == Duplicate ==> c' == c.(duplicates := c.duplicates + 1)
    ensures c'.pushed + c'.updated + c'.duplicates == c.pushed + c.updated + c.duplicates + 1
  {
    match o
    case Inserted => c.(pushed := c.pushed + 1)
    case Updated => c.(updated := c.updated + 1)
    case Duplicate => c.(duplicates := c.duplicates + 1)
  }

  /** The memory table with the next free primary key. */
  datatype Store = Store(rows: map<Id, Memory>, nextId: Id)

  ghost predicate StoreValid(s: Store)
  {
    MemoriesValid(s.rows) && forall id :: id in s.rows ==> id < s.nextId
  }

  predicate HashMatch(m: Memory, userId: Id, hash: string)
  {
    m.userId == userId && m.contentHash == hash
  }

  /** The `[existing]` row of the (user, fingerprint) lookup. */
  ghost function FindByHash(rows: map<Id, Memory>, userId: Id, hash: string): (r: Option<Id>)
    ensures r.Some? ==> r.value in rows && HashMatch(rows[r.value], userId, hash)
    ensures r.None? ==> forall id :: id in rows ==> !HashMatch(rows[id], userId, hash)
  {
    if exists id :: id in rows && HashMatch(rows[id], userId, hash) then
      var id :| id in rows && HashMatch(rows[id], userId, hash);
      Some(id)
    else
      None
  }

  /** Under the dedup invariant the lookup has at most one answer. */
  lemma FindByHashUnique(rows: map<Id, Memory>, userId: Id, hash: string, id: Id)
    requires MemoriesValid(rows)
    requires id in rows && HashMatch(rows[id], userId, hash)
    ensures FindByHash(rows, userId, hash) == Some(id)
  {
  }

  /** The row inserted for an item with no stored match. */
  function NewMemory(id: Id, userId: Id, hash: string, item: PushMemoryInput): (m: Memory)
    ensures m.id == id && HashMatch(m, userId, hash)
    ensures m.gatewayMemoryId == item.gatewayMemoryId && m.category == item.category && m.content == item.content
    ensures m.tags == item.tags.GetOr("[]") && m.pinned == item.pinned.GetOr(false)
    ensures m.accessCount == item.accessCount.GetOr(0)
    ensures m.sourceSessionId == item.sourceSessionId && m.sourceChannel == item.sourceChannel
    ensures m.originDeviceId == item.originDeviceId
    ensures m.createdAt == item.createdAt && m.updatedAt == item.updatedAt && m.deletedAt == item.deletedAt
  {
    Memory(id, item.gatewayMemoryId, userId, item.category, item.content, hash,
      item.tags.GetOr("[]"), item.pinned.GetOr(false), item.accessCount.GetOr(0),
      item.sourceSessionId, item.sourceChannel, item.originDeviceId,
      item.createdAt, item.updatedAt, item.deletedAt)
  }

  /** The stored row after a strictly newer item wins. */
  function Overwrite(existing: Memory, item: PushMemoryInput): Memory
  {
    existing.(
      gatewayMemoryId := item.gatewayMemoryId,
      category := item.category,
      content := item.content,
      tags := item.tags.GetOr(existing.tags),
      pinned := item.pinned.GetOr(existing.pinned),
      accessCount := Max(item.accessCount.GetOr(0), existing.accessCount),
      sourceSessionId := item.sourceSessionId.OrElse(existing.sourceSessionId),
      sourceChannel := item.sourceChannel.OrElse(existing.sourceChannel),
      originDeviceId := item.originDeviceId.OrElse(existing.originDeviceId),
      updatedAt := item.updatedAt,
      deletedAt := item.deletedAt.OrElse(existing.deletedAt))
  }

  /** The stored row after an item that is not newer: only a larger access
      count is written. */
  function RaiseAccessCount(existing: Memory, item: PushMemoryInput): Memory
  {
    var maxAccess := Max(item.accessCount.GetOr(0), existing.accessCount);
    if maxAccess > existing.accessCount then existing.(accessCount := maxAccess) else existing
  }

  /** One iteration of the `for` loop of `pushMemories`, for an item whose
      content fingerprint is `hash`. */
  ghost function MergeOne(s: Store, userId: Id, hash: string, item: PushMemoryInput): (Store, PushOutcome)
  {
    match FindByHash(s.rows, userId, hash)
    case None =>
      (Store(s.rows[s.nextId := NewMemory(s.nextId, userId, hash, item)], s.nextId + 1), Inserted)
    case Some(id) =>
      var existing := s.rows[id];
      if item.updatedAt > existing.updatedAt then
        (Store(s.rows[id := Overwrite(existing, item)], s.nextId), Updated)
      else
        (Store(s.rows[id := RaiseAccessCount(existing, item)], s.nextId), Duplicate)
  }

  /** The whole batch, processed in order; the counters start at zero. */
  ghost function PushAll(s: Store, userId: Id, items: seq<PushMemoryInput>, sha256: string -> Sha256Digest)
    : (Store, PushCounts)
    decreases |items|
  {
    if items == [] then (s, PushCounts(0, 0, 0))
    else
      var (s1, c1) := PushAll(s, userId, items[..|items| - 1], sha256);
      var last := items[|items| - 1];
      var (s2, o) := MergeOne(s1, userId, ComputeContentHash(sha256, last.content), last);
      (s2, Bump(c1, o))
  }

  // ----- one item ----------------------------------------------------------

  /** No match: a new row with the defaults `tags "[]"`, `pinned false`,
      `accessCount 0` and no tombstone unless the item carries one. */
  lemma MergeOneInserts(s: Store, userId: Id, hash: string, item: PushMemoryInput)
    requires forall id :: id in s.rows ==> !HashMatch(s.rows[id], userId, hash)
    ensures var (s', o) := MergeOne(s, userId, hash, item);
      && o == Inserted
      && s'.nextId == s.nextId + 1
      && s'.rows == s.rows[s.nextId := NewMemory(s.nextId, userId, hash, item)]
    ensures StoreValid(s) ==>
      var s' := MergeOne(s, userId, hash, item).0;
      s.nextId !in s.rows && |s'.rows| == |s.rows| + 1
  {
  }

  /** A match that is not strictly newer (ties included): the row keeps every
      field but the access count, which becomes the larger of the two. */
  lemma MergeOneNotNewer(s: Store, userId: Id, hash: string, item: PushMemoryInput, id: Id)
    requires MemoriesValid(s.rows)
    requires id in s.rows && HashMatch(s.rows[id], userId, hash)
    requires item.updatedAt <= s.rows[id].updatedAt
    ensures var (s', o) := MergeOne(s, userId, hash, item);
      && o == Duplicate
      && s'.nextId == s.nextId
      && s'.rows == s.rows[id := s.rows[id].(accessCount := Max(item.accessCount.GetOr(0), s.rows[id].accessCount))]
  {
    FindByHashUnique(s.rows, userId, hash, id);
    var existing := s.rows[id];
    if Max(item.accessCount.GetOr(0), existing.accessCount) <= existing.accessCount {
      assert existing.(accessCount := existing.accessCount) == existing;
    }
  }

  /** A strictly newer match overwrites the row: content, category and device id
      are taken, omitted optional fields keep their stored values, a tombstone is
      never cleared, and key, owner, fingerprint and creation time stay. */
  lemma MergeOneNewer(s: Store, userId: Id, hash: string, item: PushMemoryInput, id: Id)
    requires MemoriesValid(s.rows)
    requires id in s.rows && HashMatch(s.rows[id], userId, hash)
    requires item.updatedAt > s.rows[id].updatedAt
    ensures var (s', o) := MergeOne(s, userId, hash, item);
      var (old_, new_) := (s.rows[id], s'.rows[id]);
      && o == Updated
      && s'.nextId == s.nextId
      && s'.rows.Keys == s.rows.Keys
      && (forall k :: k in s.rows && k != id ==> s'.rows[k] == s.rows[k])
      && new_.id == old_.id && new_.userId == old_.userId
      && new_.contentHash == old_.contentHash && new_.createdAt == old_.createdAt
      && new_.updatedAt == item.updatedAt
      && new_.gatewayMemoryId == item.gatewayMemoryId
      && new_.category == item.category && new_.content == item.content
      && new_.tags == (if item.tags.Some? then item.tags.value else old_.tags)
      && new_.pinned == (if item.pinned.Some? then item.pinned.value else old_.pinned)
      && new_.sourceSessionId == (if item.sourceSessionId.Some? then item.sourceSessionId else old_.sourceSessionId)
      && new_.sourceChannel == (if item.sourceChannel.Some? then item.sourceChannel else old_.sourceChannel)
      && new_.originDeviceId == (if item.originDeviceId.Some? then item.originDeviceId else old_.originDeviceId)
      && new_.accessCount == Max(item.accessCount.GetOr(0), old_.accessCount)
      && new_.deletedAt == (if item.deletedAt.Some? then item.deletedAt else old_.deletedAt)
      && (old_.deletedAt.Some? ==> new_.deletedAt.Some?)
  {
    FindByHashUnique(s.rows, userId, hash, id);
  }

  /** How a stored row may evolve under pushes: same key, owner, fingerprint
      and creation time; access count and modification time never go back;
      a tombstone stays. */
  ghost predicate Evolved(before: Memory, after: Memory)
  {
    && after.id == before.id
    && after.userId == before.userId
    && after.contentHash == before.contentHash
    && after.createdAt == before.createdAt
    && after.accessCount >= before.accessCount
    && after.updatedAt >= before.updatedAt
    && (before.deletedAt.Some? ==> after.deletedAt.Some?)
  }

  /** What one item does to the store: the dedup invariant holds after it,
      keys are not reused, every stored row stays and only evolves, other
      users' rows are untouched, and a row for the item's fingerprint is at
      least as new and as accessed as the item. */
  ghost predicate StepKept(s: Store, s': Store, userId: Id, hash: string, item: PushMemoryInput)
  {
    && StoreValid(s')
    && s'.nextId >= s.nextId
    && (forall id :: id in s.rows ==> id in s'.rows && Evolved(s.rows[id], s'.rows[id]))
    && (forall id :: id in s'.rows && s'.rows[id].userId != userId ==> id in s.rows && s'.rows[id] == s.rows[id])
    && Covered(s'.rows, userId, hash, item)
  }

  /** Every item, inserted or matched, keeps the store as `StepKept` says. */
  lemma MergeOneStep(s: Store, userId: Id, hash: string, item: PushMemoryInput)
    requires StoreValid(s)
    ensures StepKept(s, MergeOne(s, userId, hash, item).0, userId, hash, item)
  {
    match FindByHash(s.rows, userId, hash)
    case None => MergeOneStepInserted(s, userId, hash, item);
    case Some(id) => MergeOneStepMatched(s, userId, hash, item, id);
  }

  lemma MergeOneStepInserted(s: Store, userId: Id, hash: string, item: PushMemoryInput)
    requires StoreValid(s) && FindByHash(s.rows, userId, hash).None?
    ensures StepKept(s, MergeOne(s, userId, hash, item).0, userId, hash, item)
  {
    var s' := MergeOne(s, userId, hash, item).0;
    var m := NewMemory(s.nextId, userId, hash, item);
    assert s'.rows == s.rows[s.nextId := m];
    assert s.nextId !in s.rows;
    assert s'.rows[s.nextId] == m;
  }

  lemma MergeOneStepMatched(s: Store, userId: Id, hash: string, item: PushMemoryInput, id: Id)
    requires StoreValid(s) && FindByHash(s.rows, userId, hash) == Some(id)
    ensures StepKept(s, MergeOne(s, userId, hash, item).0, userId, hash, item)
  {
    var s' := MergeOne(s, userId, hash, item).0;
    if item.updatedAt > s.rows[id].updatedAt {
      MergeOneNewer(s, userId, hash, item, id);
    } else {
      MergeOneNotNewer(s, userId, hash, item, id);
    }
    assert s'.rows.Keys == s.rows.Keys;
    assert s'.rows[id].userId == userId;
    assert s'.rows[id].contentHash == hash;
  }

  // ----- the whole batch ---------------------------------------------------

  /** Each item bumps exactly one counter, so the counters add up to the
      batch size. */
  lemma {:induction false} PushAllCounts(s: Store, userId: Id, items: seq<PushMemoryInput>,
                                         sha256: string -> Sha256Digest)
    ensures var c := PushAll(s, userId, items, sha256).1;
      c.pushed + c.updated + c.duplicates == |items|
  {
    if items != [] {
      PushAllCounts(s, userId, items[..|items| - 1], sha256);
    }
  }

  /** Across a batch processed in order: the dedup invariant holds, no row
      disappears and every stored row only evolves, other users' rows are
      untouched, and for each pushed item there is a row for its fingerprint
      whose access count and modification time are at least the item's. */
  lemma {:induction false} PushAllInvariant(s: Store, userId: Id, items: seq<PushMemoryInput>,
                                            sha256: string -> Sha256Digest)
    requires StoreValid(s)
    ensures var s' := PushAll(s, userId, items, sha256).0;
      && StoreValid(s')
      && s'.nextId >= s.nextId
      && (forall id :: id in s.rows ==> id in s'.rows && Evolved(s.rows[id], s'.rows[id]))
      && (forall id :: id in s'.rows && s'.rows[id].userId != userId ==> id in s.rows && s'.rows[id] == s.rows[id])
      && (forall i :: 0 <= i < |items| ==> Covered(s'.rows, userId, ComputeContentHash(sha256, items[i].content), items[i]))
  {
    if items != [] {
      var prefix, last := items[..|items| - 1], items[|items| - 1];
      PushAllInvariant(s, userId, prefix, sha256);
      var s1 := PushAll(s, userId, prefix, sha256).0;
      var hash := ComputeContentHash(sha256, last.content);
      MergeOneStep(s1, userId, hash, last);
      var s2 := MergeOne(s1, userId, hash, last).0;
      assert s2 == PushAll(s, userId, items, sha256).0;
      forall i | 0 <= i < |items|
        ensures Covered(s2.rows, userId, ComputeContentHash(sha256, items[i].content), items[i])
      {
        if i < |items| - 1 {
          assert items[i] == prefix[i];
          CoveredEvolves(s1.rows, s2.rows, userId, ComputeContentHash(sha256, items[i].content), items[i]);
        }
      }
    }
  }

  /** Some row for the item's fingerprint is at least as new and as accessed
      as the item. */
  ghost predicate Covered(rows: map<Id, Memory>, userId: Id, hash: string, item: PushMemoryInput)
  {
    exists id :: id in rows && HashMatch(rows[id], userId, hash) &&
      rows[id].accessCount >= item.accessCount.GetOr(0) && rows[id].updatedAt >= item.updatedAt
  }

  lemma CoveredEvolves(before: map<Id, Memory>, after: map<Id, Memory>, userId: Id, hash: string, item: PushMemoryInput)
    requires Covered(before, userId, hash, item)
    requires forall id :: id in before ==> id in after && Evolved(before[id], after[id])
    ensures Covered(after, userId, hash, item)
  {
    var id :| id in before && HashMatch(before[id], userId, hash) &&
      before[id].accessCount >= item.accessCount.GetOr(0) && before[id].updatedAt >= item.updatedAt;
    assert id in after && HashMatch(after[id], userId, hash);
  }

  /** Pushing an item again right after it was applied changes nothing and
      counts as a duplicate: a retried push is harmless. */
  lemma MergeOneIdempotent(s: Store, userId: Id, hash: string, item: PushMemoryInput)
    requires StoreValid(s)
    ensures var s1 := MergeOne(s, userId, hash, item).0;
      MergeOne(s1, userId, hash, item) == (s1, Duplicate)
  {
    var s1 := MergeOne(s, userId, hash, item).0;
    MergeOneStep(s, userId, hash, item);
    assert Covered(s1.rows, userId, hash, item);
    var id :| id in s1.rows && HashMatch(s1.rows[id], userId, hash) &&
      s1.rows[id].accessCount >= item.accessCount.GetOr(0) && s1.rows[id].updatedAt >= item.updatedAt;
    FindByHashUnique(s1.rows, userId, hash, id);
    assert RaiseAccessCount(s1.rows[id], item) == s1.rows[id];
    assert s1.rows[id := s1.rows[id]] == s1.rows;
  }
}
