/** The two memory read queries: the delta pull of `memoriesSince` (the
    caller's rows, tombstones included, changed at or after a watermark) and
    the live listing of `myMemories`. Both are ordered by `updatedAt`; the
    order among rows with equal `updatedAt` is left open, so the selection
    takes any row of least `updatedAt` at each step. */
module MemoryQuery {

  import opened Common
  import opened DbSchema

  /** The `where` clause of a query. */
  datatype Filter =
    | /** `memoriesSince`: owner and `updatedAt >= since`. */
      UpdatedSince(userId: Id, since: Timestamp)
    | /** `myMemories`: owner, not deleted, and the category when one is given. */
      Live(userId: Id, category: Option<string>)

  predicate Keeps(f: Filter, m: Memory)
  {
    match f
    case UpdatedSince(userId, since) => m.userId == userId && m.updatedAt >= since
    case Live(userId, category) =>
      m.userId == userId && m.deletedAt.None? && (category.Some? ==> m.category == category.value)
  }

  /** The keys of all rows the filter keeps. */
  function Matching(rows: map<Id, Memory>, f: Filter): set<Id>
  {
    set id | id in rows && Keeps(f, rows[id])
  }

  predicate SortedByUpdatedAt(s: seq<Memory>)
  {
    forall i, j :: 0 <= i < j < |s| ==> s[i].updatedAt <= s[j].updatedAt
  }

  /** The keys of the rows in a result. */
  function IdsOf(s: seq<Memory>): set<Id>
  {
    set i | 0 <= i < |s| :: s[i].id
  }

  lemma IdsOfAppend(s: seq<Memory>, m: Memory)
    ensures IdsOf(s + [m]) == IdsOf(s) + {m.id}
  {
    var t := s + [m];
    forall x | x in IdsOf(t) ensures x in IdsOf(s) + {m.id} {
      var i :| 0 <= i < |t| && t[i].id == x;
      if i < |s| { assert t[i] == s[i]; }
    }
    forall x | x in IdsOf(s) + {m.id} ensures x in IdsOf(t) {
      if x == m.id {
        assert t[|s|] == m;
      } else {
        var i :| 0 <= i < |s| && s[i].id == x;
        assert t[i] == s[i];
      }
    }
  }

  /** `result` is what `select ... where f order by updatedAt limit n` may
      return: matching rows as stored, each once, in ascending `updatedAt`,
      as many as match up to the limit, and no row left out is older than a
      row returned. */
  ghost predicate OrderedSelection(rows: map<Id, Memory>, f: Filter, limit: Option<nat>, result: seq<Memory>)
  {
    && (forall i :: 0 <= i < |result| ==> result[i].id in rows && rows[result[i].id] == result[i])
    && (forall i :: 0 <= i < |result| ==> Keeps(f, result[i]))
    && (forall i, j :: 0 <= i < j < |result| ==> result[i].id != result[j].id)
    && SortedByUpdatedAt(result)
    && |result| == (if limit.Some? && limit.value < |Matching(rows, f)| then limit.value else |Matching(rows, f)|)
    && (forall id, i :: id in Matching(rows, f) - IdsOf(result) && 0 <= i < |result| ==>
          result[i].updatedAt <= rows[id].updatedAt)
  }

  /** Among a non-empty set of keys there is one whose row is not newer than
      any other. */
  lemma {:induction false} OldestExists(rows: map<Id, Memory>, candidates: set<Id>)
    requires candidates != {} && candidates <= rows.Keys
    ensures exists id :: id in candidates && forall j :: j in candidates ==> rows[id].updatedAt <= rows[j].updatedAt
    decreases |candidates|
  {
    var x :| x in candidates;
    var rest := candidates - {x};
    if rest == {} {
      assert candidates == {x};
    } else {
      OldestExists(rows, rest);
      var y :| y in rest && forall j :: j in rest ==> rows[y].updatedAt <= rows[j].updatedAt;
      if rows[x].updatedAt <= rows[y].updatedAt {
        assert forall j :: j in candidates ==> rows[x].updatedAt <= rows[j].updatedAt;
      } else {
        assert forall j :: j in candidates ==> rows[y].updatedAt <= rows[j].updatedAt;
      }
    }
  }

  /** Loop invariant of `SelectOrdered`: `result` holds, in order, the
      matching rows already taken; `remaining` the ones not yet taken, none of
      them older than a taken one. */
  ghost predicate SelectionProgress(rows: map<Id, Memory>, f: Filter, remaining: set<Id>, result: seq<Memory>)
  {
    && remaining <= Matching(rows, f)
    && IdsOf(result) == Matching(rows, f) - remaining
    && |result| + |remaining| == |Matching(rows, f)|
    && (forall i :: 0 <= i < |result| ==> result[i].id in rows && rows[result[i].id] == result[i])
    && (forall i :: 0 <= i < |result| ==> Keeps(f, result[i]))
    && (forall i, j :: 0 <= i < j < |result| ==> result[i].id != result[j].id)
    && SortedByUpdatedAt(result)
    && (forall id, i :: id in remaining && 0 <= i < |result| ==> result[i].updatedAt <= rows[id].updatedAt)
  }

  /** Taking an oldest remaining row keeps the invariant. */
  lemma TakeOldest(rows: map<Id, Memory>, f: Filter, remaining: set<Id>, result: seq<Memory>, id: Id)
    requires forall k :: k in rows ==> rows[k].id == k
    requires SelectionProgress(rows, f, remaining, result)
    requires id in remaining && forall j :: j in remaining ==> rows[id].updatedAt <= rows[j].updatedAt
    ensures SelectionProgress(rows, f, remaining - {id}, result + [rows[id]])
  {
    var matching := Matching(rows, f);
    TakeOldestKeys(matching, remaining, result, rows[id]);
    TakeOldestRows(rows, f, remaining, result, id);
  }

  lemma TakeOldestKeys(matching: set<Id>, remaining: set<Id>, result: seq<Memory>, next: Memory)
    requires remaining <= matching && IdsOf(result) == matching - remaining
    requires |result| + |remaining| == |matching|
    requires next.id in remaining
    ensures remaining - {next.id} <= matching
    ensures IdsOf(result + [next]) == matching - (remaining - {next.id})
    ensures |result + [next]| + |remaining - {next.id}| == |matching|
  {
    IdsOfAppend(result, next);
  }

  lemma TakeOldestRows(rows: map<Id, Memory>, f: Filter, remaining: set<Id>, result: seq<Memory>, id: Id)
    requires forall k :: k in rows ==> rows[k].id == k
    requires SelectionProgress(rows, f, remaining, result)
    requires id in remaining && forall j :: j in remaining ==> rows[id].updatedAt <= rows[j].updatedAt
    ensures var result' := result + [rows[id]];
      && (forall i :: 0 <= i < |result'| ==> result'[i].id in rows && rows[result'[i].id] == result'[i])
      && (forall i :: 0 <= i < |result'| ==> Keeps(f, result'[i]))
      && (forall i, j :: 0 <= i < j < |result'| ==> result'[i].id != result'[j].id)
      && SortedByUpdatedAt(result')
      && (forall k, i :: k in remaining - {id} && 0 <= i < |result'| ==> result'[i].updatedAt <= rows[k].updatedAt)
  {
    var n := |result|;
    var result' := result + [rows[id]];
    assert forall i :: 0 <= i < n ==> result'[i] == result[i];
    assert result'[n] == rows[id];
    forall i | 0 <= i < n ensures result[i].id != id {
      assert result[i].id in IdsOf(result);
    }
  }

  /** The database's ordered, limited select: repeatedly takes a row of least
      `updatedAt` among the matching rows not yet taken. `limit` `None` means
      no limit. Row keys must agree with the stored rows' ids (the primary key). */
  method SelectOrdered(rows: map<Id, Memory>, f: Filter, limit: Option<nat>) returns (result: seq<Memory>)
    requires forall id :: id in rows ==> rows[id].id == id
    ensures OrderedSelection(rows, f, limit, result)
  {
    var remaining := Matching(rows, f);
    result := [];
    while remaining != {} && (limit.None? || |result| < limit.value)
      invariant SelectionProgress(rows, f, remaining, result)
      invariant limit.Some? ==> |result| <= limit.value
      decreases remaining
    {
      OldestExists(rows, remaining);
      var id :| id in remaining && forall j :: j in remaining ==> rows[id].updatedAt <= rows[j].updatedAt;
      TakeOldest(rows, f, remaining, result, id);
      result := result + [rows[id]];
      remaining := remaining - {id};
    }
  }

  // ----- the sync page -------------------------------------------------------

  /** `SYNC_PAGE_SIZE`. */
  const SyncPageSize := 100

  /** `MemorySyncPayload`. */
  datatype SyncPage = SyncPage(memories: seq<Memory>, cursor: Timestamp, hasMore: bool)

  /** The page built from up to `SyncPageSize + 1` fetched rows: one extra row
      means there is more; the cursor is the last returned `updatedAt`, or
      the caller's watermark when nothing was returned. */
  function Paginate(results: seq<Memory>, since: Timestamp): (p: SyncPage)
    ensures p.hasMore <==> |results| > SyncPageSize
    ensures |p.memories| == Min(|results|, SyncPageSize) && p.memories <= results
    ensures p.memories == [] ==> p.cursor == since
    ensures p.memories != [] ==> p.cursor == p.memories[|p.memories| - 1].updatedAt
  {
    var hasMore := |results| > SyncPageSize;
    var page := if hasMore then results[..SyncPageSize] else results;
    var cursor := if |page| > 0 then page[|page| - 1].updatedAt else since;
    SyncPage(page, cursor, hasMore)
  }

  /** `p` is the page of a delta pull of `userId`'s rows from watermark
      `since`: the first (at most) 100 of the caller's rows changed at or
      after `since`, tombstones included, each once, as stored and in
      ascending `updatedAt`, with no matching row left out that is older
      than a row on the page; `hasMore` exactly when more than 100 match; the
      cursor is the last page row's `updatedAt`, or `since` for an empty
      page. Every matching row left off the page is at or after the cursor,
      so it still matches the filter of a pull from the cursor (rows at the
      cursor itself match again: delivery is at-least-once). */
  ghost predicate SyncPageOf(rows: map<Id, Memory>, userId: Id, since: Timestamp, p: SyncPage)
  {
    var matching := Matching(rows, UpdatedSince(userId, since));
    && |p.memories| == Min(|matching|, SyncPageSize)
    && (p.hasMore <==> |matching| > SyncPageSize)
    && (forall i :: 0 <= i < |p.memories| ==> p.memories[i].id in rows && rows[p.memories[i].id] == p.memories[i])
    && (forall i :: 0 <= i < |p.memories| ==> p.memories[i].userId == userId && since <= p.memories[i].updatedAt)
    && (forall i, j :: 0 <= i < j < |p.memories| ==> p.memories[i].id != p.memories[j].id)
    && SortedByUpdatedAt(p.memories)
    && (forall id, i :: id in matching - IdsOf(p.memories) && 0 <= i < |p.memories| ==>
          p.memories[i].updatedAt <= rows[id].updatedAt)
    && (p.memories == [] ==> p.cursor == since)
    && (p.memories != [] ==> p.cursor == p.memories[|p.memories| - 1].updatedAt)
    && since <= p.cursor
    && (forall id :: id in matching - IdsOf(p.memories) ==> id in Matching(rows, UpdatedSince(userId, p.cursor)))
  }

  /** Paginating an ordered selection of at most 101 rows gives the page of
      the delta pull. */
  lemma PullPage(rows: map<Id, Memory>, userId: Id, since: Timestamp, results: seq<Memory>)
    requires OrderedSelection(rows, UpdatedSince(userId, since), Some(SyncPageSize + 1), results)
    ensures SyncPageOf(rows, userId, since, Paginate(results, since))
  {
    var f := UpdatedSince(userId, since);
    var p := Paginate(results, since);
    var n := |p.memories|;
    assert forall i :: 0 <= i < n ==> p.memories[i] == results[i];
    forall id, i | id in Matching(rows, f) - IdsOf(p.memories) && 0 <= i < n
      ensures p.memories[i].updatedAt <= rows[id].updatedAt
    {
      if id in IdsOf(results) {
        var k :| 0 <= k < |results| && results[k].id == id;
        forall j | 0 <= j < n ensures results[j].id != id {
          assert p.memories[j].id in IdsOf(p.memories);
        }
        assert n <= k;
        assert results[i].updatedAt <= results[k].updatedAt;
      }
    }
    forall id | id in Matching(rows, f) - IdsOf(p.memories)
      ensures id in Matching(rows, UpdatedSince(userId, p.cursor))
    {
      if n > 0 {
        assert p.memories[n - 1].updatedAt <= rows[id].updatedAt;
      }
    }
  }

  /** When more than a page of the caller's rows all carry the watermark's
      own `updatedAt`, the page says there is more but returns the watermark
      itself as the cursor, so a pull from that cursor selects among the
      same rows again: a run of more than 100 rows sharing one `updatedAt`
      is never paged past. */
  lemma TiedRowsKeepCursor(rows: map<Id, Memory>, userId: Id, since: Timestamp, p: SyncPage)
    requires SyncPageOf(rows, userId, since, p)
    requires |Matching(rows, UpdatedSince(userId, since))| > SyncPageSize
    requires forall id :: id in Matching(rows, UpdatedSince(userId, since)) ==> rows[id].updatedAt == since
    ensures p.hasMore && p.cursor == since
    ensures Matching(rows, UpdatedSince(userId, p.cursor)) == Matching(rows, UpdatedSince(userId, since))
  {
    var last := p.memories[|p.memories| - 1];
    assert last.id in Matching(rows, UpdatedSince(userId, since));
  }

}
