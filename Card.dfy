/** The helpers of components/TrackItemCard.tsx: the recurring-reason count,
    the latest entry, the newest-first training list with its positions mapped
    back into the history, and the guards on the move and delete controls.
    `formatTime` is the same formula as App's `formatTotalTime`
    (`App.HmsParts`, `App.FormatTotalTime`). */
module TrackItemCard {
  import opened Types
  import opened App

  /** `item.history.filter(h => h.reason === reason).length` */
  function CountReason(h: seq<HistoryItem>, reason: string): (n: nat)
    ensures n <= |h|
    ensures n == 0 <==> forall i :: 0 <= i < |h| ==> h[i].reason != reason
  {
    if h == [] then 0
    else
      assert forall i :: 1 <= i < |h| ==> h[1..][i - 1] == h[i];
      (if h[0].reason == reason then 1 else 0) + CountReason(h[1..], reason)
  }

  /** `isRecurring`: more than two entries share the reason. */
  predicate IsRecurring(h: seq<HistoryItem>, reason: string)
    ensures IsRecurring(h, reason) ==> |h| >= 3
    ensures IsRecurring(h, reason) ==> exists i :: 0 <= i < |h| && h[i].reason == reason
  {
    CountReason(h, reason) > 2
  }

  lemma {:induction false} CountReasonAppend(a: seq<HistoryItem>, b: seq<HistoryItem>, reason: string)
    ensures CountReason(a + b, reason) == CountReason(a, reason) + CountReason(b, reason)
  {
    if a == [] {
      assert a + b == b;
    } else {
      assert (a + b)[1..] == a[1..] + b;
      CountReasonAppend(a[1..], b, reason);
    }
  }

  /** New detections never make a recurring reason stop recurring. */
  lemma {:induction false} RecurringStaysRecurring(h: seq<HistoryItem>, more: seq<HistoryItem>, reason: string)
    ensures IsRecurring(h, reason) ==> IsRecurring(h + more, reason)
    ensures CountReason(h + more, reason) >= CountReason(h, reason)
  {
    CountReasonAppend(h, more, reason);
  }

  /** `latestHistoryItem` */
  function LatestHistoryItem(h: seq<HistoryItem>): (r: Option<HistoryItem>)
    ensures r.None? <==> h == []
    ensures r.Some? ==> r.value == h[|h| - 1]
  {
    if |h| > 0 then Some(h[|h| - 1]) else None
  }

  /** `[...history].reverse()` */
  function Reverse(h: seq<HistoryItem>): (r: seq<HistoryItem>)
    ensures |r| == |h|
    ensures forall i :: 0 <= i < |h| ==> r[i] == h[|h| - 1 - i]
  {
    if h == [] then [] else Reverse(h[1..]) + [h[0]]
  }

  function Min(a: int, b: int): int {
    if a <= b then a else b
  }

  /** The training list: at most the twenty newest entries, newest first. */
  function TrainList(h: seq<HistoryItem>): (r: seq<HistoryItem>)
    ensures |r| == Min(20, |h|)
  {
    Reverse(h)[..Min(20, |h|)]
  }

  /** `originalIndex = item.history.length - 1 - idx` */
  function OriginalIndex(h: seq<HistoryItem>, idx: int): int {
    |h| - 1 - idx
  }

  /** Displayed position `idx` and `originalIndex` name the same entry, and
      the list shows the last `Min(20, |h|)` entries of the history. */
  lemma TrainListAddresses(h: seq<HistoryItem>, idx: int)
    requires 0 <= idx < |TrainList(h)|
    ensures 0 <= OriginalIndex(h, idx) < |h|
    ensures |h| - Min(20, |h|) <= OriginalIndex(h, idx)
    ensures h[OriginalIndex(h, idx)] == TrainList(h)[idx]
  {
  }

  /** The selector on row `idx` of the training list fires only for a target
      other than the card's own project. */
  function MoveFromList(t: TrackItem, idx: int, selected: string): (m: Option<MoveArgs>)
    ensures m.Some? <==> selected != t.id
    ensures m.Some? ==> m.value == MoveArgs(t.id, OriginalIndex(t.history, idx), selected)
  {
    if selected != t.id then Some(MoveArgs(t.id, OriginalIndex(t.history, idx), selected)) else None
  }

  /** The shortcut for the latest entry is shown on a non-empty Unknown card
      and moves the last entry. */
  function MoveLatest(t: TrackItem, selected: string): (m: Option<MoveArgs>)
    ensures m.Some? <==> t.isUnknown && LatestHistoryItem(t.history).Some? && selected != t.id
    ensures m.Some? ==> m.value == MoveArgs(t.id, |t.history| - 1, selected)
  {
    if t.isUnknown && LatestHistoryItem(t.history).Some? && selected != t.id then
      Some(MoveArgs(t.id, |t.history| - 1, selected))
    else None
  }

  /** A move the card asks for, after the target is chosen among the projects,
      is never ignored and never dropped: on a consistent collection with
      positive durations it keeps the totals and the set of entries. */
  lemma {:induction false} CardMoveConserves(items: seq<TrackItem>, k: int, m: MoveArgs, intervalTime: int)
    requires UniqueIds(items) && Consistent(items) && PositiveDurations(items)
    requires 0 <= k < |items| && HasId(items, m.targetId)
    requires (exists idx :: 0 <= idx < |TrainList(items[k].history)| &&
                MoveFromList(items[k], idx, m.targetId) == Some(m))
          || MoveLatest(items[k], m.targetId) == Some(m)
    ensures var r := MoveHistoryItem(items, m.sourceId, m.historyIndex, m.targetId, intervalTime);
      && TotalDetections(r) == TotalDetections(items)
      && TotalTracked(r) == TotalTracked(items)
      && multiset(AllHistory(r)) == multiset(AllHistory(items))
  {
    var t := items[k];
    CardMoveIsValid(t, m);
    assert HasId(items, m.sourceId);
    FindIsIndex(items, m.sourceId);
    assert FindById(items, m.sourceId).value == t;
    EntryWithinTotals(t, m.historyIndex);
    assert MovedEntry(items, m.sourceId, m.historyIndex) == t.history[m.historyIndex];
    MoveConserves(items, m.sourceId, m.historyIndex, m.targetId, intervalTime);
  }

  /** Either control names the card's own project, a real entry of it, and
      another project. */
  lemma CardMoveIsValid(t: TrackItem, m: MoveArgs)
    requires (exists idx :: 0 <= idx < |TrainList(t.history)| && MoveFromList(t, idx, m.targetId) == Some(m))
          || MoveLatest(t, m.targetId) == Some(m)
    ensures m.sourceId == t.id && 0 <= m.historyIndex < |t.history| && m.sourceId != m.targetId
  {
    if exists idx :: 0 <= idx < |TrainList(t.history)| && MoveFromList(t, idx, m.targetId) == Some(m) {
      var idx :| 0 <= idx < |TrainList(t.history)| && MoveFromList(t, idx, m.targetId) == Some(m);
      TrainListAddresses(t.history, idx);
    }
  }

  /** The App passes the delete handler only to cards that are not the
      Unknown bucket (App.tsx:462-483). */
  function HasDeleteHandler(t: TrackItem): (b: bool)
    ensures b <==> !t.isUnknown
  {
    !t.isUnknown
  }

  /** The delete button: not on the Unknown card, only with a handler and only
      in training mode. */
  function DeleteOffered(t: TrackItem, hasHandler: bool, isTrainMode: bool): (b: bool)
    ensures b ==> !t.isUnknown && hasHandler && isTrainMode
  {
    !t.isUnknown && hasHandler && isTrainMode
  }

  /** Deleting from a card never removes the Unknown bucket. */
  lemma {:induction false} CardDeleteKeepsBucket(items: seq<TrackItem>, k: int, isTrainMode: bool)
    requires UniqueIds(items) && 0 <= k < |items|
    requires exists b :: 0 <= b < |items| && items[b].id == UnknownId && items[b].isUnknown
    requires DeleteOffered(items[k], HasDeleteHandler(items[k]), isTrainMode)
    ensures HasId(DeleteItem(items, items[k].id, true), UnknownId)
  {
    var b :| 0 <= b < |items| && items[b].id == UnknownId && items[b].isUnknown;
    assert b != k;
    var r := DeleteItem(items, items[k].id, true);
    assert items[b] in r;
    var j :| 0 <= j < |r| && r[j] == items[b];
  }
}
