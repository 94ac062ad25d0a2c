/** The project-collection bookkeeping of App.tsx: crediting a scan result,
    moving a history entry between projects, adding and deleting projects,
    the modal prefill for "create from history", the focus-time total and the
    two clock formatters. Every collection operation maps the old list of
    track items to a new one, as the `setItems(prev => ...)` updaters do. */
module App {
  import opened Types
  import opened Text
  import opened Sorting

  // ----------------------------------------------------------------------
  // Measures over the collection

  function SumDurations(h: seq<HistoryItem>): int {
    if h == [] then 0 else h[0].duration + SumDurations(h[1..])
  }

  function TotalDetections(items: seq<TrackItem>): int {
    if items == [] then 0 else items[0].detectCount + TotalDetections(items[1..])
  }

  /** The sum of `totalTime` over every item, the Unknown bucket included. */
  function TotalTracked(items: seq<TrackItem>): int {
    if items == [] then 0 else items[0].totalTime + TotalTracked(items[1..])
  }

  /** Every history entry of the collection, item by item. */
  function AllHistory(items: seq<TrackItem>): seq<HistoryItem> {
    if items == [] then [] else items[0].history + AllHistory(items[1..])
  }

  /** The invariant the updaters maintain incrementally: the counters of an
      item agree with its history. */
  predicate ConsistentItem(t: TrackItem) {
    t.detectCount == |t.history| && t.totalTime == SumDurations(t.history)
  }

  predicate Consistent(items: seq<TrackItem>) {
    forall k :: 0 <= k < |items| ==> ConsistentItem(items[k])
  }

  /** Every entry of the item lasts a positive number of seconds. */
  predicate PositiveItem(t: TrackItem) {
    forall i :: 0 <= i < |t.history| ==> t.history[i].duration > 0
  }

  predicate PositiveDurations(items: seq<TrackItem>) {
    forall k :: 0 <= k < |items| ==> PositiveItem(items[k])
  }

  /** No entry of the item has a negative duration (a zero one is allowed). */
  predicate NonNegativeItem(t: TrackItem) {
    forall i :: 0 <= i < |t.history| ==> t.history[i].duration >= 0
  }

  predicate NonNegativeDurations(items: seq<TrackItem>) {
    forall k :: 0 <= k < |items| ==> NonNegativeItem(items[k])
  }

  /** Replacing one item by a consistent one keeps the collection consistent,
      and keeps each duration invariant that both satisfy. */
  lemma {:induction false} UpdateKeepsInvariants(items: seq<TrackItem>, i: int, v: TrackItem)
    requires 0 <= i < |items| && Consistent(items) && ConsistentItem(v)
    ensures Consistent(items[i := v])
    ensures PositiveDurations(items) && PositiveItem(v) ==> PositiveDurations(items[i := v])
    ensures NonNegativeDurations(items) && NonNegativeItem(v) ==> NonNegativeDurations(items[i := v])
  {
  }

  lemma {:induction false} SumDurationsAppend(a: seq<HistoryItem>, b: seq<HistoryItem>)
    ensures SumDurations(a + b) == SumDurations(a) + SumDurations(b)
  {
    if a == [] {
      assert a + b == b;
    } else {
      assert (a + b)[1..] == a[1..] + b;
      SumDurationsAppend(a[1..], b);
    }
  }

  lemma {:induction false} SumDurationsNonNegative(h: seq<HistoryItem>)
    requires forall i :: 0 <= i < |h| ==> h[i].duration >= 0
    ensures SumDurations(h) >= 0
  {
    if h != [] {
      SumDurationsNonNegative(h[1..]);
    }
  }

  /** Replacing one item changes each measure by the difference at that position. */
  lemma {:induction false} DetectionsUpdate(items: seq<TrackItem>, i: int, v: TrackItem)
    requires 0 <= i < |items|
    ensures TotalDetections(items[i := v]) + items[i].detectCount == TotalDetections(items) + v.detectCount
  {
    var u := items[i := v];
    if i > 0 {
      assert u[1..] == items[1..][i - 1 := v];
      DetectionsUpdate(items[1..], i - 1, v);
    } else {
      assert u[1..] == items[1..];
    }
  }

  lemma {:induction false} TrackedUpdate(items: seq<TrackItem>, i: int, v: TrackItem)
    requires 0 <= i < |items|
    ensures TotalTracked(items[i := v]) + items[i].totalTime == TotalTracked(items) + v.totalTime
  {
    var u := items[i := v];
    if i > 0 {
      assert u[1..] == items[1..][i - 1 := v];
      TrackedUpdate(items[1..], i - 1, v);
    } else {
      assert u[1..] == items[1..];
    }
  }

  lemma {:induction false} HistoryUpdate(items: seq<TrackItem>, i: int, v: TrackItem)
    requires 0 <= i < |items|
    ensures multiset(AllHistory(items[i := v])) + multiset(items[i].history)
         == multiset(AllHistory(items)) + multiset(v.history)
  {
    var u := items[i := v];
    assert AllHistory(u) == u[0].history + AllHistory(u[1..]);
    assert AllHistory(items) == items[0].history + AllHistory(items[1..]);
    if i > 0 {
      assert u[1..] == items[1..][i - 1 := v];
      assert items[1..][i - 1] == items[i];
      HistoryUpdate(items[1..], i - 1, v);
      var hu, hi := multiset(AllHistory(u[1..])), multiset(AllHistory(items[1..]));
      assert multiset(AllHistory(u)) == multiset(items[0].history) + hu;
      assert multiset(AllHistory(items)) == multiset(items[0].history) + hi;
      assert hu + multiset(items[i].history) == hi + multiset(v.history);
      forall x ensures (multiset(AllHistory(u)) + multiset(items[i].history))[x]
                    == (multiset(AllHistory(items)) + multiset(v.history))[x] {
        assert (hu + multiset(items[i].history))[x] == (hi + multiset(v.history))[x];
      }
    } else {
      assert u[1..] == items[1..];
    }
  }

  lemma {:induction false} MeasuresUpdate(items: seq<TrackItem>, i: int, v: TrackItem)
    requires 0 <= i < |items|
    ensures TotalDetections(items[i := v]) + items[i].detectCount == TotalDetections(items) + v.detectCount
    ensures TotalTracked(items[i := v]) + items[i].totalTime == TotalTracked(items) + v.totalTime
    ensures multiset(AllHistory(items[i := v])) + multiset(items[i].history)
         == multiset(AllHistory(items)) + multiset(v.history)
  {
    DetectionsUpdate(items, i, v);
    TrackedUpdate(items, i, v);
    HistoryUpdate(items, i, v);
  }

  /** A consistent collection has as many detections as history entries. */
  lemma {:induction false} ConsistentCounts(items: seq<TrackItem>)
    requires Consistent(items)
    ensures TotalDetections(items) == |AllHistory(items)|
  {
    if items != [] {
      ConsistentCounts(items[1..]);
    }
  }

  // ----------------------------------------------------------------------
  // Crediting a scan result (App.tsx:120-136)

  /** `result.matchId || 'unknown'`: a missing or empty id falls back to the bucket. */
  function ScanTarget(matchId: Option<string>): (id: string)
    ensures matchId.Some? && matchId.value != "" ==> id == matchId.value
    ensures matchId.None? || matchId.value == "" ==> id == UnknownId
  {
    if matchId.Some? && matchId.value != "" then matchId.value else UnknownId
  }

  /** The credited version of one item. */
  function Credited(t: TrackItem, reason: string, now: int, intervalTime: int): TrackItem {
    t.(detectCount := t.detectCount + 1,
       totalTime := t.totalTime + intervalTime,
       lastActive := now,
       history := t.history + [PlainEntry(now, reason, intervalTime)])
  }

  /** The scan updater: every item whose id is the target gains one detection,
      `intervalTime` seconds, `lastActive = now` and one history entry; the
      others are returned as they were. */
  function CreditScan(items: seq<TrackItem>, result: AnalysisResult, now: int, intervalTime: int)
    : (r: seq<TrackItem>)
    ensures |r| == |items|
    ensures forall k :: 0 <= k < |items| && items[k].id != ScanTarget(result.matchId) ==> r[k] == items[k]
    ensures forall k :: 0 <= k < |items| && items[k].id == ScanTarget(result.matchId) ==>
      && r[k].detectCount == items[k].detectCount + 1
      && r[k].totalTime == items[k].totalTime + intervalTime
      && r[k].lastActive == now
      && r[k].history == items[k].history + [PlainEntry(now, result.reason, intervalTime)]
      && r[k].(detectCount := items[k].detectCount, totalTime := items[k].totalTime,
               lastActive := items[k].lastActive, history := items[k].history) == items[k]
  {
    var target := ScanTarget(result.matchId);
    seq(|items|, k requires 0 <= k < |items| =>
      if items[k].id == target then Credited(items[k], result.reason, now, intervalTime) else items[k])
  }

  /** No item with the target id: the list comes back unchanged. */
  lemma {:induction false} CreditWithoutTarget(items: seq<TrackItem>, result: AnalysisResult, now: int, intervalTime: int)
    requires !HasId(items, ScanTarget(result.matchId))
    ensures CreditScan(items, result, now, intervalTime) == items
  {
  }

  /** Crediting keeps the counters in agreement with the histories, and keeps
      durations positive when the interval is. */
  lemma {:induction false} CreditPreservesConsistency(items: seq<TrackItem>, result: AnalysisResult, now: int, intervalTime: int)
    requires Consistent(items)
    ensures Consistent(CreditScan(items, result, now, intervalTime))
    ensures PositiveDurations(items) && intervalTime > 0 ==>
      PositiveDurations(CreditScan(items, result, now, intervalTime))
  {
    var r := CreditScan(items, result, now, intervalTime);
    forall k | 0 <= k < |r| ensures ConsistentItem(r[k]) {
      if items[k].id == ScanTarget(result.matchId) {
        SumDurationsAppend(items[k].history, [PlainEntry(now, result.reason, intervalTime)]);
      }
    }
  }

  /** With unique ids and the target present, one scan adds exactly one
      detection, one history entry and `intervalTime` seconds to the collection,
      and changes only the target item. */
  lemma {:induction false} CreditTotals(items: seq<TrackItem>, result: AnalysisResult, now: int, intervalTime: int)
    requires UniqueIds(items) && HasId(items, ScanTarget(result.matchId))
    ensures var r := CreditScan(items, result, now, intervalTime);
      && TotalDetections(r) == TotalDetections(items) + 1
      && TotalTracked(r) == TotalTracked(items) + intervalTime
      && multiset(AllHistory(r)) == multiset(AllHistory(items)) + multiset{PlainEntry(now, result.reason, intervalTime)}
  {
    var target := ScanTarget(result.matchId);
    var i := IndexOfId(items, target);
    var r := CreditScan(items, result, now, intervalTime);
    var v := Credited(items[i], result.reason, now, intervalTime);
    assert r == items[i := v];
    MeasuresUpdate(items, i, v);
    var e := PlainEntry(now, result.reason, intervalTime);
    assert multiset(v.history) == multiset(items[i].history) + multiset{e};
    MultisetCancel(multiset(AllHistory(r)), multiset(AllHistory(items)) + multiset{e}, multiset(items[i].history));
  }

  lemma {:induction false} MultisetCancel<T>(a: multiset<T>, b: multiset<T>, c: multiset<T>)
    requires a + c == b + c
    ensures a == b
  {
    forall x ensures a[x] == b[x] {
      assert (a + c)[x] == (b + c)[x];
    }
  }

  // ----------------------------------------------------------------------
  // Moving a history entry (App.tsx:204-242)

  /** `copy.splice(i, 1)` for a non-negative index: removes the entry at `i`
      when there is one. */
  function RemoveAt(h: seq<HistoryItem>, i: int): (r: seq<HistoryItem>)
    requires i >= 0
    ensures i < |h| ==> |r| == |h| - 1 && r[..i] == h[..i] && r[i..] == h[i + 1..]
    ensures i < |h| ==> multiset(r) + multiset{h[i]} == multiset(h)
    ensures i >= |h| ==> r == h
  {
    if i < |h| then
      assert h == h[..i] + [h[i]] + h[i + 1..];
      h[..i] + h[i + 1..]
    else h
  }

  /** `historyItemToMove.duration || intervalTime`: a zero duration falls back to the interval. */
  function MoveDuration(e: HistoryItem, intervalTime: int): (d: int)
    ensures e.duration != 0 ==> d == e.duration
    ensures e.duration == 0 ==> d == intervalTime
  {
    if e.duration == 0 then intervalTime else e.duration
  }

  function Max0(x: int): (r: int)
    ensures r >= 0 && r >= x && (r == x || r == 0)
  {
    if x > 0 then x else 0
  }

  /** The description suffix naming the moved entry's reason. */
  function AlsoMatchesSuffix(reason: string): string {
    " (Also matches context: \"" + reason + "\")"
  }

  function Timestamp(e: HistoryItem): int {
    e.timestamp
  }

  /** The source side of a move: the entry at `historyIndex` is spliced out and
      the counters go down, floored at zero. */
  function MovedOut(t: TrackItem, historyIndex: nat, d: int): TrackItem {
    t.(history := RemoveAt(t.history, historyIndex),
       detectCount := Max0(t.detectCount - 1),
       totalTime := Max0(t.totalTime - d))
  }

  /** The target side of a move: the entry is appended and the history re-sorted
      by ascending timestamp; the description gains a suffix unless it already
      mentions the reason. */
  function MovedIn(t: TrackItem, e: HistoryItem, d: int): TrackItem {
    t.(description := if Contains(t.description, e.reason) then t.description
                      else t.description + AlsoMatchesSuffix(e.reason),
       history := SortBy(t.history + [e], Timestamp),
       detectCount := t.detectCount + 1,
       totalTime := t.totalTime + d)
  }

  /** The move updater. The source is looked up with `find` (first match); the
      map then treats every item with the source id as the source, and only
      items whose id is not the source id as a possible target, so a move to
      the same item removes the entry without re-adding it. */
  function MoveHistoryItem(items: seq<TrackItem>, sourceId: string, historyIndex: int,
                           targetId: string, intervalTime: int): (r: seq<TrackItem>)
    ensures |r| == |items|
    ensures (!HasId(items, sourceId) ||
             !(0 <= historyIndex < |FindById(items, sourceId).value.history|)) ==> r == items
    ensures forall k :: 0 <= k < |items| && items[k].id != sourceId && items[k].id != targetId ==>
      r[k] == items[k]
  {
    match FindById(items, sourceId)
    case None => items
    case Some(source) =>
      if !(0 <= historyIndex < |source.history|) then items
      else
        var moved := source.history[historyIndex];
        var d := MoveDuration(moved, intervalTime);
        seq(|items|, k requires 0 <= k < |items| =>
          if items[k].id == sourceId then MovedOut(items[k], historyIndex, d)
          else if items[k].id == targetId then MovedIn(items[k], moved, d)
          else items[k])
  }

  /** The entry a valid move carries and the seconds it moves. */
  function MovedEntry(items: seq<TrackItem>, sourceId: string, historyIndex: int): HistoryItem
    requires HasId(items, sourceId)
    requires 0 <= historyIndex < |FindById(items, sourceId).value.history|
  {
    FindById(items, sourceId).value.history[historyIndex]
  }

  /** With unique ids, the item found by `find` is the one at `IndexOfId`. */
  lemma {:induction false} FindIsIndex(items: seq<TrackItem>, id: string)
    requires UniqueIds(items) && HasId(items, id)
    ensures FindById(items, id).value == items[IndexOfId(items, id)]
    ensures forall k :: 0 <= k < |items| && items[k].id == id ==> k == IndexOfId(items, id)
  {
    var fv := FindById(items, id).value;
    var k :| 0 <= k < |items| && items[k] == fv;
  }

  /** With unique ids, a valid move is one update at the source position and,
      when a distinct target exists, one more at the target position. */
  lemma {:induction false} MoveAsUpdates(items: seq<TrackItem>, sourceId: string, historyIndex: int,
                                         targetId: string, intervalTime: int)
    requires UniqueIds(items) && HasId(items, sourceId)
    requires 0 <= historyIndex < |FindById(items, sourceId).value.history|
    ensures var s := IndexOfId(items, sourceId);
      var e := items[s].history[historyIndex];
      var d := MoveDuration(e, intervalTime);
      var mid := items[s := MovedOut(items[s], historyIndex, d)];
      && MovedEntry(items, sourceId, historyIndex) == e
      && MoveHistoryItem(items, sourceId, historyIndex, targetId, intervalTime)
         == if sourceId != targetId && HasId(items, targetId)
            then mid[IndexOfId(items, targetId) := MovedIn(items[IndexOfId(items, targetId)], e, d)]
            else mid
  {
    FindIsIndex(items, sourceId);
    var r := MoveHistoryItem(items, sourceId, historyIndex, targetId, intervalTime);
    var s := IndexOfId(items, sourceId);
    var e := items[s].history[historyIndex];
    var d := MoveDuration(e, intervalTime);
    var mid := items[s := MovedOut(items[s], historyIndex, d)];
    if sourceId != targetId && HasId(items, targetId) {
      FindIsIndex(items, targetId);
      var t := IndexOfId(items, targetId);
      var want := mid[t := MovedIn(items[t], e, d)];
      assert |r| == |want|;
      forall k | 0 <= k < |r| ensures r[k] == want[k] {
        if k != s && k != t {
          assert items[k].id != sourceId && items[k].id != targetId;
        }
      }
    } else {
      assert |r| == |mid|;
      forall k | 0 <= k < |r| ensures r[k] == mid[k] {
        if k != s {
          assert items[k].id != sourceId;
          assert items[k].id != targetId || targetId == sourceId;
        }
      }
    }
  }

  /** Source side: exactly the entry at `historyIndex` leaves the source's
      history, the rest keep their order, and the counters drop by one entry
      and by its duration (or the interval for a zero duration), floored at 0. */
  lemma {:induction false} MoveSourceSide(items: seq<TrackItem>, sourceId: string, historyIndex: int,
                       targetId: string, intervalTime: int)
    requires UniqueIds(items) && HasId(items, sourceId)
    requires 0 <= historyIndex < |FindById(items, sourceId).value.history|
    ensures var r := MoveHistoryItem(items, sourceId, historyIndex, targetId, intervalTime);
      var s := IndexOfId(items, sourceId);
      var h := items[s].history;
      var d := MoveDuration(h[historyIndex], intervalTime);
      && |r[s].history| == |h| - 1
      && r[s].history[..historyIndex] == h[..historyIndex]
      && r[s].history[historyIndex..] == h[historyIndex + 1..]
      && multiset(r[s].history) + multiset{h[historyIndex]} == multiset(h)
      && r[s].detectCount == Max0(items[s].detectCount - 1)
      && r[s].totalTime == Max0(items[s].totalTime - d)
      && r[s].(history := h, detectCount := items[s].detectCount, totalTime := items[s].totalTime) == items[s]
  {
    MoveAsUpdates(items, sourceId, historyIndex, targetId, intervalTime);
    FindIsIndex(items, sourceId);
    if sourceId != targetId && HasId(items, targetId) {
      FindIsIndex(items, targetId);
    }
  }

  /** Target side (source and target distinct): the target's history is the old
      one plus the moved entry, re-sorted by ascending timestamp; it gains one
      detection and the moved seconds; its description gains the suffix exactly
      when it does not already contain the reason. */
  lemma {:induction false} MoveTargetSide(items: seq<TrackItem>, sourceId: string, historyIndex: int,
                       targetId: string, intervalTime: int)
    requires UniqueIds(items) && HasId(items, sourceId) && HasId(items, targetId)
    requires sourceId != targetId
    requires 0 <= historyIndex < |FindById(items, sourceId).value.history|
    ensures var r := MoveHistoryItem(items, sourceId, historyIndex, targetId, intervalTime);
      var t := IndexOfId(items, targetId);
      var e := MovedEntry(items, sourceId, historyIndex);
      var d := MoveDuration(e, intervalTime);
      && SortedBy(r[t].history, Timestamp)
      && multiset(r[t].history) == multiset(items[t].history) + multiset{e}
      && r[t].detectCount == items[t].detectCount + 1
      && r[t].totalTime == items[t].totalTime + d
      && (Contains(items[t].description, e.reason) ==> r[t].description == items[t].description)
      && (!Contains(items[t].description, e.reason) ==>
            r[t].description == items[t].description + AlsoMatchesSuffix(e.reason))
      && r[t].(description := items[t].description, history := items[t].history,
               detectCount := items[t].detectCount, totalTime := items[t].totalTime) == items[t]
  {
    MoveAsUpdates(items, sourceId, historyIndex, targetId, intervalTime);
    FindIsIndex(items, sourceId);
    FindIsIndex(items, targetId);
    var t := IndexOfId(items, targetId);
    var e := MovedEntry(items, sourceId, historyIndex);
    SortBySorted(items[t].history + [e], Timestamp);
  }

  /** With both items present, distinct, and the source's counters at least the
      amounts removed: the two items' counters keep their sums, every other item
      is untouched, and the collection holds the same entries as before (no
      entry is lost or duplicated). */
  lemma {:induction false} MoveConserves(items: seq<TrackItem>, sourceId: string, historyIndex: int,
                      targetId: string, intervalTime: int)
    requires UniqueIds(items) && HasId(items, sourceId) && HasId(items, targetId)
    requires sourceId != targetId
    requires 0 <= historyIndex < |FindById(items, sourceId).value.history|
    requires FindById(items, sourceId).value.detectCount >= 1
    requires FindById(items, sourceId).value.totalTime >=
             MoveDuration(MovedEntry(items, sourceId, historyIndex), intervalTime)
    ensures var r := MoveHistoryItem(items, sourceId, historyIndex, targetId, intervalTime);
      var s := IndexOfId(items, sourceId);
      var t := IndexOfId(items, targetId);
      && r[s].detectCount + r[t].detectCount == items[s].detectCount + items[t].detectCount
      && r[s].totalTime + r[t].totalTime == items[s].totalTime + items[t].totalTime
      && (forall k :: 0 <= k < |items| && k != s && k != t ==> r[k] == items[k])
      && TotalDetections(r) == TotalDetections(items)
      && TotalTracked(r) == TotalTracked(items)
      && multiset(AllHistory(r)) == multiset(AllHistory(items))
  {
    MoveAsUpdates(items, sourceId, historyIndex, targetId, intervalTime);
    FindIsIndex(items, sourceId);
    FindIsIndex(items, targetId);
    var r := MoveHistoryItem(items, sourceId, historyIndex, targetId, intervalTime);
    var s := IndexOfId(items, sourceId);
    var t := IndexOfId(items, targetId);
    var e := items[s].history[historyIndex];
    var d := MoveDuration(e, intervalTime);
    var a := MovedOut(items[s], historyIndex, d);
    var b := MovedIn(items[t], e, d);
    var mid := items[s := a];
    assert r == mid[t := b];
    MeasuresUpdate(items, s, a);
    MeasuresUpdate(mid, t, b);
    var hs, ht := multiset(items[s].history), multiset(items[t].history);
    assert multiset(a.history) + multiset{e} == hs;
    assert multiset(b.history) == ht + multiset{e};
    forall x ensures multiset(AllHistory(r))[x] == multiset(AllHistory(items))[x] {
      assert (multiset(AllHistory(mid)) + hs)[x] == (multiset(AllHistory(items)) + multiset(a.history))[x];
      assert (multiset(AllHistory(r)) + ht)[x] == (multiset(AllHistory(mid)) + multiset(b.history))[x];
      assert (multiset(a.history) + multiset{e})[x] == hs[x];
      assert multiset(b.history)[x] == (ht + multiset{e})[x];
    }
    assert multiset(AllHistory(r)) == multiset(AllHistory(items));
  }

  lemma {:induction false} SumDurationsInsert(x: HistoryItem, h: seq<HistoryItem>)
    ensures SumDurations(InsertBy(x, h, Timestamp)) == x.duration + SumDurations(h)
  {
    if h != [] && x.timestamp > h[0].timestamp {
      SumDurationsInsert(x, h[1..]);
    }
  }

  /** Re-sorting a history does not change its total duration. */
  lemma {:induction false} SumDurationsSort(h: seq<HistoryItem>)
    ensures SumDurations(SortBy(h, Timestamp)) == SumDurations(h)
  {
    if h != [] {
      SumDurationsSort(h[1..]);
      SumDurationsInsert(h[0], SortBy(h[1..], Timestamp));
    }
  }

  lemma {:induction false} RemoveAtSum(h: seq<HistoryItem>, i: nat)
    requires i < |h|
    ensures SumDurations(RemoveAt(h, i)) + h[i].duration == SumDurations(h)
  {
    var a, b := h[..i], h[i + 1..];
    assert RemoveAt(h, i) == a + b;
    assert h == (a + [h[i]]) + b;
    assert SumDurations([h[i]]) == h[i].duration by {
      assert [h[i]][1..] == [];
    }
    SumDurationsAppend(a + [h[i]], b);
    SumDurationsAppend(a, [h[i]]);
    SumDurationsAppend(a, b);
  }

  /** Whatever the arguments (a missing target, or the source itself as the
      target, included), a move keeps a consistent collection with positive
      durations consistent. */
  lemma {:induction false} MovePreservesConsistency(items: seq<TrackItem>, sourceId: string, historyIndex: int,
                                 targetId: string, intervalTime: int)
    requires UniqueIds(items) && Consistent(items) && PositiveDurations(items)
    ensures var r := MoveHistoryItem(items, sourceId, historyIndex, targetId, intervalTime);
      Consistent(r) && PositiveDurations(r)
  {
    assert NonNegativeDurations(items) by {
      forall k | 0 <= k < |items| ensures NonNegativeItem(items[k]) {
        assert PositiveItem(items[k]);
      }
    }
    if HasId(items, sourceId) && 0 <= historyIndex < |FindById(items, sourceId).value.history| {
      var t := FindById(items, sourceId).value;
      var k :| 0 <= k < |items| && items[k] == t;
      assert PositiveItem(items[k]);
      assert MovedEntry(items, sourceId, historyIndex).duration > 0;
    }
    MoveOwnDuration(items, sourceId, historyIndex, targetId, intervalTime);
  }

  /** A move that carries the entry's own duration keeps a consistent
      collection consistent, and keeps its durations non-negative (and
      positive, when they were). */
  lemma {:induction false} MoveOwnDuration(items: seq<TrackItem>, sourceId: string, historyIndex: int,
                                           targetId: string, intervalTime: int)
    requires UniqueIds(items) && Consistent(items) && NonNegativeDurations(items)
    requires HasId(items, sourceId) && 0 <= historyIndex < |FindById(items, sourceId).value.history| ==>
      MoveDuration(MovedEntry(items, sourceId, historyIndex), intervalTime)
        == MovedEntry(items, sourceId, historyIndex).duration
    ensures var r := MoveHistoryItem(items, sourceId, historyIndex, targetId, intervalTime);
      && Consistent(r) && NonNegativeDurations(r)
      && (PositiveDurations(items) ==> PositiveDurations(r))
  {
    if HasId(items, sourceId) && 0 <= historyIndex < |FindById(items, sourceId).value.history| {
      MoveAsUpdates(items, sourceId, historyIndex, targetId, intervalTime);
      FindIsIndex(items, sourceId);
      var s := IndexOfId(items, sourceId);
      var e := items[s].history[historyIndex];
      var d := MoveDuration(e, intervalTime);
      assert d == e.duration;
      assert NonNegativeItem(items[s]);
      var a := MovedOut(items[s], historyIndex, d);
      var mid := items[s := a];
      SourceOutConsistent(items[s], historyIndex, d);
      UpdateKeepsInvariants(items, s, a);
      if sourceId != targetId && HasId(items, targetId) {
        FindIsIndex(items, targetId);
        var t := IndexOfId(items, targetId);
        assert e.duration >= 0;
        TargetInConsistent(items[t], e, d);
        assert mid[t] == items[t];
        UpdateKeepsInvariants(mid, t, MovedIn(items[t], e, d));
      }
    }
  }

  /** Removing one entry from a consistent item with non-negative durations,
      with the entry's own duration, leaves it consistent. */
  lemma {:induction false} SourceOutConsistent(t: TrackItem, i: nat, d: int)
    requires ConsistentItem(t) && NonNegativeItem(t) && i < |t.history| && d == t.history[i].duration
    ensures ConsistentItem(MovedOut(t, i, d)) && NonNegativeItem(MovedOut(t, i, d))
    ensures PositiveItem(t) ==> PositiveItem(MovedOut(t, i, d))
  {
    var h := t.history;
    var rh := RemoveAt(h, i);
    RemoveAtSum(h, i);
    forall j | 0 <= j < |rh| ensures rh[j] == (if j < i then h[j] else h[j + 1]) {
      if j < i {
        assert rh[j] == rh[..i][j] == h[j];
      } else {
        assert rh[j] == rh[i..][j - i] == h[j + 1];
      }
    }
    SumDurationsNonNegative(rh);
  }

  /** Adding one entry to a consistent item, with the entry's own duration,
      leaves it consistent; the duration invariants carry over. */
  lemma {:induction false} TargetInConsistent(t: TrackItem, e: HistoryItem, d: int)
    requires ConsistentItem(t) && d == e.duration
    ensures ConsistentItem(MovedIn(t, e, d))
    ensures NonNegativeItem(t) && d >= 0 ==> NonNegativeItem(MovedIn(t, e, d))
    ensures PositiveItem(t) && d > 0 ==> PositiveItem(MovedIn(t, e, d))
  {
    var joined := t.history + [e];
    SumDurationsSort(joined);
    SumDurationsAppend(t.history, [e]);
    assert SumDurations([e]) == e.duration by {
      assert [e][1..] == [];
    }
    var rh := SortBy(joined, Timestamp);
    if NonNegativeItem(t) && d >= 0 {
      forall j | 0 <= j < |rh| ensures rh[j].duration >= 0 {
        assert rh[j] in multiset(joined);
      }
    }
    if PositiveItem(t) && d > 0 {
      forall j | 0 <= j < |rh| ensures rh[j].duration > 0 {
        assert rh[j] in multiset(joined);
      }
    }
  }

  // ----------------------------------------------------------------------
  // A zero-duration entry moved after the interval changed (see README, Findings)

  /** As written, `duration || intervalTime` replaces a recorded zero by the
      current interval. A scan run with the interval field cleared records a
      zero-second entry; moved once the interval is 30, it adds 30 seconds to
      the target's `totalTime` while its history gains none. */
  lemma MoveZeroDurationDesyncs()
    ensures var before := CreditScan([BlankItem("a", "A", ""), BlankItem("b", "B", "")],
                                     AnalysisResult(Some("a"), "x", None, None, None, None), 0, 0);
      var after := MoveHistoryItem(before, "a", 0, "b", 30);
      && Consistent(before)
      && after[1].totalTime == 30 && SumDurations(after[1].history) == 0
      && !Consistent(after)
  {
    var items := [BlankItem("a", "A", ""), BlankItem("b", "B", "")];
    var result := AnalysisResult(Some("a"), "x", None, None, None, None);
    var before := CreditScan(items, result, 0, 0);
    var e := PlainEntry(0, "x", 0);
    assert before[0].history == [e] && before[1] == items[1];
    assert SumDurations([e]) == 0 by { assert [e][1..] == []; }
    assert Consistent(before);
    var after := MoveHistoryItem(before, "a", 0, "b", 30);
    assert FindById(before, "a") == Some(before[0]);
    assert after[1] == MovedIn(before[1], e, 30);
    assert SortBy([e], Timestamp) == [e];
    assert after[1].history == [e];
    assert !ConsistentItem(after[1]);
  }

  /** The move as evidently intended: the entry carries its own recorded
      duration (`??` instead of `||`). Every entry of the model has a
      duration, and `MoveDuration(e, 0)` is exactly `e.duration`. */
  function MoveHistoryItemRecorded(items: seq<TrackItem>, sourceId: string, historyIndex: int,
                                   targetId: string): (r: seq<TrackItem>)
    ensures |r| == |items|
    ensures (!HasId(items, sourceId) ||
             !(0 <= historyIndex < |FindById(items, sourceId).value.history|)) ==> r == items
  {
    MoveHistoryItem(items, sourceId, historyIndex, targetId, 0)
  }

  /** The corrected move keeps every consistent collection consistent, zero
      durations included. */
  lemma {:induction false} MoveRecordedPreservesConsistency(items: seq<TrackItem>, sourceId: string,
                                                            historyIndex: int, targetId: string)
    requires UniqueIds(items) && Consistent(items) && NonNegativeDurations(items)
    ensures var r := MoveHistoryItemRecorded(items, sourceId, historyIndex, targetId);
      Consistent(r) && NonNegativeDurations(r)
  {
    MoveOwnDuration(items, sourceId, historyIndex, targetId, 0);
  }

  /** In a consistent item with positive durations one entry is covered by the
      counters, so the floors at zero of the source side do not apply. */
  lemma {:induction false} EntryWithinTotals(t: TrackItem, i: int)
    requires ConsistentItem(t) && PositiveItem(t) && 0 <= i < |t.history|
    ensures t.detectCount >= 1
    ensures t.totalTime >= t.history[i].duration > 0
  {
    var h := t.history;
    RemoveAtSum(h, i);
    var rest := RemoveAt(h, i);
    forall j | 0 <= j < |rest| ensures rest[j].duration > 0 {
      if j < i {
        assert rest[j] == rest[..i][j] == h[..i][j];
      } else {
        assert rest[j] == rest[i..][j - i] == h[i + 1..][j - i] == h[j + 1];
      }
    }
    SumDurationsNonNegative(rest);
  }

  /** Moving an entry to its own item drops it: the source loses the entry and
      nothing re-adds it, so the collection has one entry fewer. The callers
      (the card and review selectors) never request such a move. */
  lemma {:induction false} MoveToSelfDrops(items: seq<TrackItem>, sourceId: string, historyIndex: int, intervalTime: int)
    requires UniqueIds(items) && HasId(items, sourceId)
    requires 0 <= historyIndex < |FindById(items, sourceId).value.history|
    ensures var r := MoveHistoryItem(items, sourceId, historyIndex, sourceId, intervalTime);
      |AllHistory(r)| == |AllHistory(items)| - 1 &&
      multiset(AllHistory(r)) + multiset{MovedEntry(items, sourceId, historyIndex)}
        == multiset(AllHistory(items))
  {
    MoveAsUpdates(items, sourceId, historyIndex, sourceId, intervalTime);
    FindIsIndex(items, sourceId);
    var r := MoveHistoryItem(items, sourceId, historyIndex, sourceId, intervalTime);
    var s := IndexOfId(items, sourceId);
    var e := items[s].history[historyIndex];
    var a := MovedOut(items[s], historyIndex, MoveDuration(e, intervalTime));
    assert r == items[s := a];
    MeasuresUpdate(items, s, a);
    var hs := multiset(items[s].history);
    assert multiset(a.history) + multiset{e} == hs;
    forall x ensures (multiset(AllHistory(r)) + multiset{e})[x] == multiset(AllHistory(items))[x] {
      assert (multiset(AllHistory(r)) + hs)[x] == (multiset(AllHistory(items)) + multiset(a.history))[x];
      assert (multiset(a.history) + multiset{e})[x] == hs[x];
    }
    assert multiset(AllHistory(r)) + multiset{e} == multiset(AllHistory(items));
    assert |multiset(AllHistory(r)) + multiset{e}| == |multiset(AllHistory(items))|;
  }

  // ----------------------------------------------------------------------
  // A scan whose id names no item (see README, Findings)

  /** As written, an id the provider invents names no item, so the updater
      credits nothing: the scan leaves no trace in the collection. */
  lemma {:induction false} CreditScanDropsUnmatchedId(items: seq<TrackItem>, result: AnalysisResult,
                                                      now: int, intervalTime: int)
    requires result.matchId.Some? && result.matchId.value != ""
    requires !HasId(items, result.matchId.value)
    ensures CreditScan(items, result, now, intervalTime) == items
    ensures TotalDetections(CreditScan(items, result, now, intervalTime)) == TotalDetections(items)
  {
    CreditWithoutTarget(items, result, now, intervalTime);
  }

  /** The target the comment "Default to unknown if null" intends: an id that
      names no item also falls back to the Unknown bucket. */
  function ResolvedTarget(items: seq<TrackItem>, matchId: Option<string>): (id: string)
    ensures HasId(items, UnknownId) ==> HasId(items, id)
    ensures HasId(items, ScanTarget(matchId)) ==> id == ScanTarget(matchId)
    ensures !HasId(items, ScanTarget(matchId)) ==> id == UnknownId
  {
    var id := ScanTarget(matchId);
    if HasId(items, id) then id else UnknownId
  }

  /** Crediting with the resolved target. */
  function CreditScanResolved(items: seq<TrackItem>, result: AnalysisResult, now: int, intervalTime: int)
    : (r: seq<TrackItem>)
    ensures |r| == |items|
  {
    CreditScan(items, result.(matchId := Some(ResolvedTarget(items, result.matchId))), now, intervalTime)
  }

  /** The two updaters differ only on an id that names no item. */
  lemma {:induction false} CreditResolvedAgrees(items: seq<TrackItem>, result: AnalysisResult,
                                                now: int, intervalTime: int)
    requires HasId(items, ScanTarget(result.matchId))
    ensures CreditScanResolved(items, result, now, intervalTime) == CreditScan(items, result, now, intervalTime)
  {
    var fixed := result.(matchId := Some(ResolvedTarget(items, result.matchId)));
    assert ScanTarget(fixed.matchId) == ScanTarget(result.matchId);
  }

  /** Corrected crediting: while the Unknown bucket exists, every scan adds
      exactly one detection and one entry to the collection. */
  lemma {:induction false} CreditResolvedAlwaysCounts(items: seq<TrackItem>, result: AnalysisResult,
                                                      now: int, intervalTime: int)
    requires UniqueIds(items) && HasId(items, UnknownId)
    ensures var r := CreditScanResolved(items, result, now, intervalTime);
      && TotalDetections(r) == TotalDetections(items) + 1
      && TotalTracked(r) == TotalTracked(items) + intervalTime
      && |AllHistory(r)| == |AllHistory(items)| + 1
  {
    var fixed := result.(matchId := Some(ResolvedTarget(items, result.matchId)));
    assert ScanTarget(fixed.matchId) == ResolvedTarget(items, result.matchId);
    CreditTotals(items, fixed, now, intervalTime);
    var r := CreditScan(items, fixed, now, intervalTime);
    assert |multiset(AllHistory(r))| == |multiset(AllHistory(items)) + multiset{PlainEntry(now, fixed.reason, intervalTime)}|;
  }

  // ----------------------------------------------------------------------
  // Adding and deleting projects (App.tsx:173-190)

  /** `[...prev, newItem]` with the fresh id given as a parameter. */
  function AddItem(items: seq<TrackItem>, id: string, name: string, description: string)
    : (r: seq<TrackItem>)
    ensures |r| == |items| + 1 && r[..|items|] == items
    ensures r[|items|] == BlankItem(id, name, description)
  {
    items + [BlankItem(id, name, description)]
  }

  /** Adding keeps the invariants, keeps ids unique for a fresh id, and changes
      none of the totals. */
  lemma {:induction false} AddKeepsInvariants(items: seq<TrackItem>, id: string, name: string, description: string)
    requires Consistent(items)
    ensures var r := AddItem(items, id, name, description);
      && Consistent(r) && HasId(r, id)
      && (PositiveDurations(items) ==> PositiveDurations(r))
      && (UniqueIds(items) && !HasId(items, id) ==> UniqueIds(r))
      && TotalDetections(r) == TotalDetections(items)
      && TotalTracked(r) == TotalTracked(items)
      && TotalFocusTime(r) == TotalFocusTime(items)
  {
    var r := AddItem(items, id, name, description);
    var b := BlankItem(id, name, description);
    assert r[|items|].id == id;
    MeasuresAppend(items, [b]);
    assert TotalDetections([b]) == 0 && TotalTracked([b]) == 0 && TotalFocusTime([b]) == 0 by {
      assert [b][1..] == [];
    }
  }

  lemma {:induction false} MeasuresAppend(a: seq<TrackItem>, b: seq<TrackItem>)
    ensures TotalDetections(a + b) == TotalDetections(a) + TotalDetections(b)
    ensures TotalTracked(a + b) == TotalTracked(a) + TotalTracked(b)
    ensures TotalFocusTime(a + b) == TotalFocusTime(a) + TotalFocusTime(b)
    ensures AllHistory(a + b) == AllHistory(a) + AllHistory(b)
  {
    if a == [] {
      assert a + b == b;
    } else {
      assert (a + b)[1..] == a[1..] + b;
      MeasuresAppend(a[1..], b);
    }
  }

  /** `prev.filter(i => i.id !== id)` */
  function WithoutId(items: seq<TrackItem>, id: string): (r: seq<TrackItem>)
    ensures forall k :: 0 <= k < |r| ==> r[k].id != id && r[k] in items
    ensures forall k :: 0 <= k < |items| && items[k].id != id ==> items[k] in r
    ensures |r| <= |items|
    ensures !HasId(items, id) ==> r == items
  {
    if items == [] then []
    else if items[0].id == id then WithoutId(items[1..], id)
    else [items[0]] + WithoutId(items[1..], id)
  }

  /** The delete handler: only a confirmed delete filters the list. */
  function DeleteItem(items: seq<TrackItem>, id: string, confirmed: bool): (r: seq<TrackItem>)
    ensures !confirmed ==> r == items
    ensures confirmed ==> !HasId(r, id)
    ensures confirmed ==> forall k :: 0 <= k < |items| && items[k].id != id ==> items[k] in r
  {
    if confirmed then WithoutId(items, id) else items
  }

  /** Deleting keeps the other items in their order: filtering distributes over concatenation. */
  lemma {:induction false} WithoutIdAppend(a: seq<TrackItem>, b: seq<TrackItem>, id: string)
    ensures WithoutId(a + b, id) == WithoutId(a, id) + WithoutId(b, id)
  {
    if a == [] {
      assert a + b == b;
    } else {
      assert (a + b)[1..] == a[1..] + b;
      WithoutIdAppend(a[1..], b, id);
    }
  }

  /** Deleting a project keeps the invariants and unique ids; any other id
      (the Unknown bucket's among them) stays. */
  lemma {:induction false} DeleteKeepsInvariants(items: seq<TrackItem>, id: string)
    requires Consistent(items)
    ensures var r := WithoutId(items, id);
      && Consistent(r)
      && (PositiveDurations(items) ==> PositiveDurations(r))
      && (UniqueIds(items) ==> UniqueIds(r))
      && (forall other :: other != id && HasId(items, other) ==> HasId(r, other))
  {
    var r := WithoutId(items, id);
    forall k | 0 <= k < |r| ensures exists j :: 0 <= j < |items| && items[j] == r[k] {
      var j :| 0 <= j < |items| && items[j] == r[k];
    }
    if UniqueIds(items) {
      WithoutIdUnique(items, id);
    }
    forall other | other != id && HasId(items, other) ensures HasId(r, other) {
      var k :| 0 <= k < |items| && items[k].id == other;
      var j :| 0 <= j < |r| && r[j] == items[k];
    }
  }

  lemma {:induction false} WithoutIdUnique(items: seq<TrackItem>, id: string)
    requires UniqueIds(items)
    ensures UniqueIds(WithoutId(items, id))
  {
    if items != [] {
      WithoutIdUnique(items[1..], id);
      var rr := WithoutId(items[1..], id);
      if items[0].id != id {
        forall k | 0 <= k < |rr| ensures rr[k].id != items[0].id {
          var j :| 0 <= j < |items[1..]| && items[1..][j] == rr[k];
          assert items[j + 1] == rr[k];
        }
        assert WithoutId(items, id) == [items[0]] + rr;
      }
    }
  }

  /** Deleting removes exactly the deleted project's counters from the totals. */
  lemma {:induction false} DeleteTotals(items: seq<TrackItem>, id: string)
    requires UniqueIds(items) && HasId(items, id)
    ensures var r := WithoutId(items, id);
      var t := FindById(items, id).value;
      && TotalDetections(r) == TotalDetections(items) - t.detectCount
      && TotalTracked(r) == TotalTracked(items) - t.totalTime
      && TotalFocusTime(r) == TotalFocusTime(items) - (if t.isUnknown then 0 else t.totalTime)
  {
    var rest := items[1..];
    if items[0].id == id {
      assert !HasId(rest, id) by {
        forall k | 0 <= k < |rest| ensures rest[k].id != id {
          assert rest[k] == items[k + 1];
        }
      }
    } else {
      assert HasId(rest, id) by {
        var k :| 0 <= k < |items| && items[k].id == id;
        assert rest[k - 1].id == id;
      }
      DeleteTotals(rest, id);
      assert WithoutId(items, id) == [items[0]] + WithoutId(rest, id);
      assert ([items[0]] + WithoutId(rest, id))[1..] == WithoutId(rest, id);
    }
  }

  // ----------------------------------------------------------------------
  // "Create from history" prefill (App.tsx:192-196)

  datatype Prefill = Prefill(name: string, description: string)

  /** The modal prefill: a reason longer than 30 characters is cut to its
      first 30 and marked with "..."; the description quotes the whole reason. */
  function CreateFromHistory(reason: string): (p: Prefill)
    ensures |p.name| <= 33
    ensures |reason| <= 30 ==> p.name == reason
    ensures |reason| > 30 ==> |p.name| == 33 && StartsWith(reason, p.name[..30]) && p.name[30..] == "..."
    ensures |p.description| == |reason| + 32 && p.description[32..] == reason
    ensures p.description[..32] == "Context where the screen shows: "
  {
    Prefill(if |reason| > 30 then reason[..30] + "..." else reason,
            "Context where the screen shows: " + reason)
  }

  // ----------------------------------------------------------------------
  // Focus time and the clock formatters (App.tsx:320-335)

  /** `items.filter(i => !i.isUnknown).reduce((acc, c) => acc + c.totalTime, 0)` */
  function TotalFocusTime(items: seq<TrackItem>): (r: int)
    ensures (forall k :: 0 <= k < |items| ==> items[k].isUnknown) ==> r == 0
    ensures (forall k :: 0 <= k < |items| ==> items[k].totalTime >= 0) ==> 0 <= r <= TotalTracked(items)
  {
    if items == [] then 0
    else
      assert forall k :: 0 <= k < |items[1..]| ==> items[1..][k] == items[k + 1];
      (if items[0].isUnknown then 0 else items[0].totalTime) + TotalFocusTime(items[1..])
  }

  /** Focus time never counts the Unknown bucket: with the bucket's time added
      back it is the total over the whole collection. */
  lemma {:induction false} FocusTimeExcludesUnknown(items: seq<TrackItem>)
    ensures TotalFocusTime(items) + UnknownTime(items) == TotalTracked(items)
  {
    if items != [] {
      FocusTimeExcludesUnknown(items[1..]);
    }
  }

  /** The time of the Unknown-flagged items. */
  function UnknownTime(items: seq<TrackItem>): int {
    if items == [] then 0
    else (if items[0].isUnknown then items[0].totalTime else 0) + UnknownTime(items[1..])
  }

  lemma {:induction false} FocusTimeUpdate(items: seq<TrackItem>, i: int, v: TrackItem)
    requires 0 <= i < |items| && v.isUnknown == items[i].isUnknown
    ensures TotalFocusTime(items[i := v]) + (if v.isUnknown then 0 else items[i].totalTime)
         == TotalFocusTime(items) + (if v.isUnknown then 0 else v.totalTime)
  {
    var u := items[i := v];
    if i > 0 {
      assert u[1..] == items[1..][i - 1 := v];
      FocusTimeUpdate(items[1..], i - 1, v);
    } else {
      assert u[1..] == items[1..];
    }
  }

  /** A scan credited to the Unknown bucket leaves the focus time alone; one
      credited to a project adds the interval. */
  lemma {:induction false} CreditFocusTime(items: seq<TrackItem>, result: AnalysisResult, now: int, intervalTime: int)
    requires UniqueIds(items) && HasId(items, ScanTarget(result.matchId))
    ensures var t := items[IndexOfId(items, ScanTarget(result.matchId))];
      TotalFocusTime(CreditScan(items, result, now, intervalTime))
        == TotalFocusTime(items) + (if t.isUnknown then 0 else intervalTime)
  {
    var i := IndexOfId(items, ScanTarget(result.matchId));
    var v := Credited(items[i], result.reason, now, intervalTime);
    assert CreditScan(items, result, now, intervalTime) == items[i := v];
    FocusTimeUpdate(items, i, v);
  }

  /** JavaScript's `a % b` for a positive divisor: the remainder takes the sign of `a`. */
  function TruncMod(a: int, b: int): (r: int)
    requires b > 0
    ensures a >= 0 ==> r == a % b
    ensures a < 0 ==> -b < r <= 0
    ensures (a - r) % b == 0
  {
    if a >= 0 then
      var q, m := a / b, a % b;
      assert a - m == q * b + 0;
      DivModUnique(a - m, b, q, 0);
      m
    else
      var q, m := (-a) / b, (-a) % b;
      assert -a == q * b + m;
      assert a + m == (-q) * b + 0;
      DivModUnique(a + m, b, -q, 0);
      -m
  }

  datatype Hms = Hms(h: int, m: int, s: int)

  /** `formatTotalTime` (and the identical `formatTime` of the project card):
      `Math.floor` of a quotient by a positive divisor is Dafny's `/`. For a
      non-negative number of seconds the parts are a proper clock reading. */
  function HmsParts(seconds: int): (p: Hms)
    ensures seconds >= 0 ==> p.h * 3600 + p.m * 60 + p.s == seconds
    ensures seconds >= 0 ==> p.h >= 0 && 0 <= p.m < 60 && 0 <= p.s < 60
  {
    if seconds >= 0 then HmsRecompose(seconds); Hms(seconds / 3600, (seconds % 3600) / 60, seconds % 60)
    else Hms(seconds / 3600, TruncMod(seconds, 3600) / 60, TruncMod(seconds, 60))
  }

  lemma HmsRecompose(seconds: int)
    requires seconds >= 0
    ensures (seconds / 3600) * 3600 + ((seconds % 3600) / 60) * 60 + seconds % 60 == seconds
    ensures 0 <= (seconds % 3600) / 60 < 60
  {
    var h := seconds / 3600;
    var r := seconds % 3600;
    var m := r / 60;
    var s0 := r % 60;
    assert seconds == h * 3600 + r && 0 <= r < 3600;
    assert r == m * 60 + s0 && 0 <= s0 < 60;
    assert seconds == (h * 60 + m) * 60 + s0;
    DivModUnique(seconds, 60, h * 60 + m, s0);
  }

  /** Euclidean division is determined by any quotient and remainder that fit. */
  lemma DivModUnique(a: int, d: int, q: int, r: int)
    requires d >= 1 && 0 <= r < d && a == q * d + r
    ensures a / d == q && a % d == r
  {
    var q0 := a / d;
    var r0 := a % d;
    assert a == q0 * d + r0 && 0 <= r0 < d;
    if q0 > q {
      assert (q0 - q) * d == r - r0;
      MulAtLeast(q0 - q, d);
    } else if q0 < q {
      assert (q - q0) * d == r0 - r;
      MulAtLeast(q - q0, d);
    }
  }

  lemma {:induction false} MulAtLeast(k: int, d: int)
    requires k >= 1 && d >= 1
    ensures k * d >= d
    decreases k
  {
    if k > 1 {
      MulAtLeast(k - 1, d);
      assert k * d == (k - 1) * d + d;
    }
  }

  /** `r` reads as `h` hours, `m` minutes and `s` seconds. */
  predicate ReadsAsHms(r: string, h: nat, m: nat, s: nat) {
    r == NatToDecimal(h) + "h " + NatToDecimal(m) + "m " + NatToDecimal(s) + "s"
  }

  /** `${h}h ${m}m ${s}s`: for a non-negative number of seconds, the text is a
      clock reading with minutes and seconds below 60 that adds up to them. */
  function FormatTotalTime(seconds: int): (r: string)
    ensures seconds >= 0 ==> exists h: nat, m: nat, s: nat ::
      m < 60 && s < 60 && h * 3600 + m * 60 + s == seconds && ReadsAsHms(r, h, m, s)
  {
    var p := HmsParts(seconds);
    var r := IntToDecimal(p.h) + "h " + IntToDecimal(p.m) + "m " + IntToDecimal(p.s) + "s";
    if seconds >= 0 then
      assert ReadsAsHms(r, p.h, p.m, p.s);
      r
    else r
  }

  /** `formatAutoStop`: minutes, a colon and the seconds padded to two digits.
      For a non-negative countdown the digits after the colon are exactly two
      and read back as the seconds. */
  function FormatAutoStop(seconds: int): (r: string)
    ensures seconds >= 0 ==> ReadsAsMinutesSeconds(r, seconds / 60, seconds % 60)
  {
    var r := IntToDecimal(seconds / 60) + ":" + PadStart2(IntToDecimal(TruncMod(seconds, 60)));
    if seconds >= 0 then
      MinutesSecondsText(seconds);
      r
    else r
  }

  /** `r` is the minutes `m` in decimal, a colon, and two digits that read as `sec`. */
  predicate ReadsAsMinutesSeconds(r: string, m: nat, sec: nat) {
    && |r| >= 4 && r[|r| - 3] == ':'
    && r[..|r| - 3] == NatToDecimal(m)
    && (forall i :: |r| - 2 <= i < |r| ==> '0' <= r[i] <= '9')
    && DecimalValue(r[|r| - 2..]) == sec
  }

  /** The minutes, a colon and the padded seconds read back as the countdown. */
  lemma {:induction false} MinutesSecondsText(seconds: int)
    requires seconds >= 0
    ensures ReadsAsMinutesSeconds(NatToDecimal(seconds / 60) + ":" + PadStart2(NatToDecimal(seconds % 60)),
                                  seconds / 60, seconds % 60)
  {
    var s := seconds % 60;
    var digits := NatToDecimal(s);
    MinutesSeconds(seconds);
    SecondsDigits(s);
    PaddedValue(digits);
    DecimalRoundTrip(s);
    ColonJoin(seconds / 60, s, PadStart2(digits));
  }

  /** The minutes, a colon and a two-digit reading of the seconds. */
  lemma {:induction false} ColonJoin(m: nat, sec: nat, pad: string)
    requires |pad| == 2 && forall i :: 0 <= i < 2 ==> '0' <= pad[i] <= '9'
    requires DecimalValue(pad) == sec
    ensures ReadsAsMinutesSeconds(NatToDecimal(m) + ":" + pad, m, sec)
  {
    var mins := NatToDecimal(m);
    var r := mins + ":" + pad;
    assert r[|r| - 2..] == pad;
    assert r[..|r| - 3] == mins;
  }

  lemma {:induction false} SecondsDigits(s: int)
    requires 0 <= s < 60
    ensures |NatToDecimal(s)| <= 2
  {
    if s >= 10 {
      assert NatToDecimal(s) == NatToDecimal(s / 10) + [DigitChar(s % 10)];
    }
  }

  lemma {:induction false} MinutesSeconds(seconds: int)
    requires seconds >= 0
    ensures (seconds / 60) * 60 + seconds % 60 == seconds && 0 <= seconds % 60 < 60
  {
  }

  /** Left-padding digits with zeros does not change their value. */
  lemma {:induction false} PaddedValue(digits: string)
    requires 1 <= |digits| <= 2 && forall i :: 0 <= i < |digits| ==> '0' <= digits[i] <= '9'
    ensures forall i :: 0 <= i < 2 ==> '0' <= PadStart2(digits)[i] <= '9'
    ensures DecimalValue(PadStart2(digits)) == DecimalValue(digits)
  {
    if |digits| == 1 {
      var p := ['0'] + digits;
      assert PadStart2(digits) == p;
      assert p[..1] == ['0'];
      assert DecimalValue(['0']) == 0 by { assert ['0'][..0] == []; }
      assert digits[..0] == [];
    }
  }
}
