/** The review queue of components/ReviewCenter.tsx: which history entries
    need a second look, and the queue of them, newest first, split into those
    sitting in the Unknown bucket and those credited with low confidence. */
module ReviewCenter {
  import opened Types
  import opened Text
  import opened Sorting
  import opened App
  import opened GeminiService

  /** Hints that mark an entry as settled by hand or by an older version. */
  predicate SettledHint(c: string) {
    c == "legacy" || c == "manual" || c == "locked"
  }

  /** `isLowConfidenceEntry` (the item argument is unused by the source). */
  function IsLowConfidenceEntry(e: HistoryItem): (b: bool)
    ensures SettledHint(ToLower(e.confidenceHint.GetOr(""))) ==> !b
    ensures e.confidenceHint.None? ==> (b <==> e.matchId.None? || e.matchId.value == "")
    ensures e.confidenceHint == Some("strong") ==> (b <==> e.matchId.None? || e.matchId.value == "")
  {
    assert ToLower("") == "";
    assert ToLower("strong") == "strong";
    var c := ToLower(e.confidenceHint.GetOr(""));
    if SettledHint(c) then false
    else if e.matchId.None? || e.matchId.value == "" then true
    else if c == "" then false
    else c != "strong"
  }

  /** The decision in one formula: not settled, and either credited without
      an id or carrying a hint other than `strong`. */
  lemma LowConfidenceMeaning(e: HistoryItem)
    ensures var c := ToLower(e.confidenceHint.GetOr(""));
      IsLowConfidenceEntry(e) <==>
        !SettledHint(c) && ((e.matchId.None? || e.matchId.value == "") || (c != "" && c != "strong"))
  {
  }

  /** The hint is compared without regard to case. */
  lemma {:induction false} LowConfidenceIgnoresCase(e: HistoryItem, hint: string)
    ensures IsLowConfidenceEntry(e.(confidenceHint := Some(hint)))
         == IsLowConfidenceEntry(e.(confidenceHint := Some(ToLower(hint))))
  {
    ToLowerIdempotent(hint);
  }

  /** Entries written by the scan updater carry neither id nor hint, so every
      one of them counts as low-confidence. */
  lemma PlainEntriesAreLowConfidence(timestamp: int, reason: string, duration: int)
    ensures IsLowConfidenceEntry(PlainEntry(timestamp, reason, duration))
  {
    assert ToLower("") == "";
  }

  /** Placeholder reasons that are not worth reviewing. */
  const IgnoredReasons: set<string> := {"Analysis failed", "Analyzing...", "Rate limit reached"}

  /** `isReviewableReason` */
  function IsReviewableReason(reason: string): (b: bool)
    ensures b <==> reason != "" && reason !in IgnoredReasons
  {
    if reason != "" then reason !in IgnoredReasons else false
  }

  /** One row of the queue. */
  datatype ReviewEntry = ReviewEntry(
    itemId: string,
    historyIndex: int,
    history: HistoryItem,
    projectName: string,
    isUnknown: bool,
    isLowConfidence: bool)

  /** The row for entry `i` of item `t`; an Unknown item's rows are never
      low-confidence. */
  function EntryFor(t: TrackItem, i: int): (r: ReviewEntry)
    requires 0 <= i < |t.history|
    ensures r.itemId == t.id && r.historyIndex == i && r.history == t.history[i]
    ensures r.isUnknown == t.isUnknown && r.projectName == t.name
    ensures r.isLowConfidence <==> !t.isUnknown && IsLowConfidenceEntry(t.history[i])
  {
    ReviewEntry(t.id, i, t.history[i], t.name, t.isUnknown,
                !t.isUnknown && IsLowConfidenceEntry(t.history[i]))
  }

  function ItemEntries(t: TrackItem): (r: seq<ReviewEntry>)
    ensures |r| == |t.history|
    ensures forall i :: 0 <= i < |t.history| ==> r[i] == EntryFor(t, i)
  {
    seq(|t.history|, i requires 0 <= i < |t.history| => EntryFor(t, i))
  }

  /** The `flatMap` over the items. */
  function AllEntries(items: seq<TrackItem>): seq<ReviewEntry> {
    if items == [] then [] else ItemEntries(items[0]) + AllEntries(items[1..])
  }

  /** An entry kept by the two filters. */
  predicate Queued(e: ReviewEntry) {
    IsReviewableReason(e.history.reason) && (e.isUnknown || e.isLowConfidence)
  }

  function FilterQueued(s: seq<ReviewEntry>): (r: seq<ReviewEntry>)
    ensures forall e :: e in r <==> e in s && Queued(e)
    ensures multiset(r) <= multiset(s)
    ensures forall x :: multiset(r)[x] == if Queued(x) then multiset(s)[x] else 0
  {
    if s == [] then []
    else
      assert s == [s[0]] + s[1..];
      (if Queued(s[0]) then [s[0]] else []) + FilterQueued(s[1..])
  }

  function NewestFirst(e: ReviewEntry): int {
    -e.history.timestamp
  }

  /** `entries`: the queued rows, sorted by descending timestamp. */
  function Entries(items: seq<TrackItem>): (r: seq<ReviewEntry>)
    ensures forall x :: x in r <==> x in AllEntries(items) && Queued(x)
    ensures forall x :: multiset(r)[x] == if Queued(x) then multiset(AllEntries(items))[x] else 0
  {
    var f := FilterQueued(AllEntries(items));
    var r := SortBy(f, NewestFirst);
    assert forall x :: x in r <==> x in multiset(f);
    r
  }

  /** A row is one of the flattened rows exactly when it is the row of some
      entry of some item. */
  lemma {:induction false} AllEntriesMembers(items: seq<TrackItem>, e: ReviewEntry)
    ensures e in AllEntries(items) <==>
      exists k, i :: 0 <= k < |items| && 0 <= i < |items[k].history| && e == EntryFor(items[k], i)
  {
    if items != [] {
      AllEntriesMembers(items[1..], e);
      if e in AllEntries(items[1..]) {
        var k, i :| 0 <= k < |items[1..]| && 0 <= i < |items[1..][k].history| && e == EntryFor(items[1..][k], i);
        assert e == EntryFor(items[k + 1], i);
      }
      if e in ItemEntries(items[0]) {
        var i :| 0 <= i < |items[0].history| && ItemEntries(items[0])[i] == e;
        assert e == EntryFor(items[0], i);
      }
      if exists k, i :: 0 <= k < |items| && 0 <= i < |items[k].history| && e == EntryFor(items[k], i) {
        var k, i :| 0 <= k < |items| && 0 <= i < |items[k].history| && e == EntryFor(items[k], i);
        if k == 0 {
          assert ItemEntries(items[0])[i] == e;
        } else {
          assert items[1..][k - 1] == items[k];
        }
      }
    }
  }

  /** The queue holds exactly the rows of reviewable entries that sit in an
      Unknown item or are low-confidence, each tagged with its own item and
      position, newest first. */
  lemma {:induction false} EntriesContents(items: seq<TrackItem>, e: ReviewEntry)
    ensures e in Entries(items) <==>
      && (exists k, i :: 0 <= k < |items| && 0 <= i < |items[k].history| && e == EntryFor(items[k], i))
      && IsReviewableReason(e.history.reason)
      && (e.isUnknown || IsLowConfidenceEntry(e.history))
    ensures multiset(Entries(items))[e] ==
      if IsReviewableReason(e.history.reason) && (e.isUnknown || e.isLowConfidence)
      then multiset(AllEntries(items))[e] else 0
  {
    var f := FilterQueued(AllEntries(items));
    assert e in Entries(items) <==> e in f by {
      assert multiset(Entries(items)) == multiset(f);
      assert e in Entries(items) <==> e in multiset(Entries(items));
    }
    AllEntriesMembers(items, e);
  }

  /** With unique ids every row of the flattened list is distinct: rows of
      one item differ in their index, rows of two items in their id. */
  lemma {:induction false} AllEntriesOnce(items: seq<TrackItem>, e: ReviewEntry)
    requires UniqueIds(items)
    ensures multiset(AllEntries(items))[e] == if e in AllEntries(items) then 1 else 0
  {
    if items != [] {
      var t := items[0];
      var rest := items[1..];
      assert UniqueIds(rest) by {
        forall i, j | 0 <= i < j < |rest| ensures rest[i].id != rest[j].id {
          assert rest[i] == items[i + 1] && rest[j] == items[j + 1];
        }
      }
      AllEntriesOnce(rest, e);
      ItemEntriesOnce(t, e);
      if e in ItemEntries(t) {
        var i :| 0 <= i < |t.history| && ItemEntries(t)[i] == e;
        AllEntriesMembers(rest, e);
        forall k, j | 0 <= k < |rest| && 0 <= j < |rest[k].history| ensures e != EntryFor(rest[k], j) {
          assert rest[k] == items[k + 1];
        }
      }
    }
  }

  lemma {:induction false} ItemEntriesOnce(t: TrackItem, e: ReviewEntry)
    ensures multiset(ItemEntries(t))[e] == if e in ItemEntries(t) then 1 else 0
  {
    var r := ItemEntries(t);
    assert forall i :: 0 <= i < |r| ==> r[i].historyIndex == i;
    DistinctOnce(r, e);
  }

  /** A sequence of pairwise distinct rows holds each row once. */
  lemma {:induction false} DistinctOnce(r: seq<ReviewEntry>, e: ReviewEntry)
    requires forall i, j :: 0 <= i < j < |r| ==> r[i] != r[j]
    ensures multiset(r)[e] == if e in r then 1 else 0
  {
    if r != [] {
      assert r == [r[0]] + r[1..];
      DistinctOnce(r[1..], e);
      if e == r[0] {
        forall j | 0 <= j < |r[1..]| ensures r[1..][j] != e {
          assert r[1..][j] == r[j + 1];
        }
      }
    }
  }

  /** With unique ids the queue holds every queued row exactly once, so the
      counts the page shows are the counts of queued entries. */
  lemma {:induction false} EntriesOnce(items: seq<TrackItem>, e: ReviewEntry)
    requires UniqueIds(items)
    ensures multiset(Entries(items))[e] == if e in Entries(items) then 1 else 0
  {
    AllEntriesOnce(items, e);
  }

  lemma {:induction false} EntriesNewestFirst(items: seq<TrackItem>)
    ensures forall i, j :: 0 <= i < j < |Entries(items)| ==>
      Entries(items)[i].history.timestamp >= Entries(items)[j].history.timestamp
  {
    SortBySorted(FilterQueued(AllEntries(items)), NewestFirst);
  }

  /** `unknownEntries` and `lowConfidenceEntries` */
  function UnknownEntries(s: seq<ReviewEntry>): (r: seq<ReviewEntry>)
    ensures forall e :: e in r <==> e in s && e.isUnknown
  {
    if s == [] then []
    else
      assert forall e :: e in s <==> e == s[0] || e in s[1..];
      (if s[0].isUnknown then [s[0]] else []) + UnknownEntries(s[1..])
  }

  function LowConfidenceEntries(s: seq<ReviewEntry>): (r: seq<ReviewEntry>)
    ensures forall e :: e in r <==> e in s && !e.isUnknown
  {
    if s == [] then []
    else
      assert forall e :: e in s <==> e == s[0] || e in s[1..];
      (if s[0].isUnknown then [] else [s[0]]) + LowConfidenceEntries(s[1..])
  }

  /** The two lists split the queue: together they hold each row as often as
      the queue does, and every row of the second list is low-confidence. */
  lemma {:induction false} SplitPartitions(s: seq<ReviewEntry>)
    ensures multiset(UnknownEntries(s)) + multiset(LowConfidenceEntries(s)) == multiset(s)
  {
    if s != [] {
      SplitPartitions(s[1..]);
      assert s == [s[0]] + s[1..];
    }
  }

  lemma {:induction false} QueueSplit(items: seq<TrackItem>)
    ensures var q := Entries(items);
      && multiset(UnknownEntries(q)) + multiset(LowConfidenceEntries(q)) == multiset(q)
      && (forall e :: e in LowConfidenceEntries(q) ==> e.isLowConfidence)
      && (forall e :: e in UnknownEntries(q) ==> !e.isLowConfidence)
  {
    var q := Entries(items);
    SplitPartitions(q);
    forall e | e in q ensures e.isUnknown ==> !e.isLowConfidence
      ensures !e.isUnknown ==> e.isLowConfidence
    {
      EntriesContents(items, e);
      var k, i :| 0 <= k < |items| && 0 <= i < |items[k].history| && e == EntryFor(items[k], i);
    }
  }

  /** Every row addresses a real entry: moving it from its own item is a move
      the updater carries out rather than ignores. */
  lemma {:induction false} EntriesAddressEntries(items: seq<TrackItem>, e: ReviewEntry)
    requires UniqueIds(items) && e in Entries(items)
    ensures HasId(items, e.itemId)
    ensures 0 <= e.historyIndex < |FindById(items, e.itemId).value.history|
    ensures FindById(items, e.itemId).value.history[e.historyIndex] == e.history
  {
    EntriesContents(items, e);
    var k, i :| 0 <= k < |items| && 0 <= i < |items[k].history| && e == EntryFor(items[k], i);
    var t := FindById(items, e.itemId).value;
    var j :| 0 <= j < |items| && items[j] == t;
    assert j == k;
  }

  /** The project selector of a row (ReviewCenter.tsx:137-142): choosing the
      row's own project does nothing; any other choice asks to move the row's
      entry there. */
  function ReviewMove(e: ReviewEntry, selected: string): (m: Option<MoveArgs>)
    ensures m.Some? <==> selected != e.itemId
    ensures m.Some? ==> m.value == MoveArgs(e.itemId, e.historyIndex, selected)
  {
    if selected != e.itemId then Some(MoveArgs(e.itemId, e.historyIndex, selected)) else None
  }

  /** A move the review queue asks for, to one of the listed projects, is never
      a move to the entry's own project and is carried out: on a consistent
      collection with positive durations and unique ids it keeps the totals
      and the multiset of entries. */
  lemma {:induction false} ReviewMoveConserves(items: seq<TrackItem>, e: ReviewEntry, selected: string,
                                               intervalTime: int)
    requires UniqueIds(items) && Consistent(items) && PositiveDurations(items)
    requires e in Entries(items) && HasId(items, selected)
    requires ReviewMove(e, selected).Some?
    ensures var m := ReviewMove(e, selected).value;
      var r := MoveHistoryItem(items, m.sourceId, m.historyIndex, m.targetId, intervalTime);
      && m.sourceId != m.targetId
      && TotalDetections(r) == TotalDetections(items)
      && TotalTracked(r) == TotalTracked(items)
      && multiset(AllHistory(r)) == multiset(AllHistory(items))
  {
    var m := ReviewMove(e, selected).value;
    EntriesAddressEntries(items, e);
    var t := FindById(items, e.itemId).value;
    var k :| 0 <= k < |items| && items[k] == t;
    EntryWithinTotals(t, e.historyIndex);
    assert MovedEntry(items, m.sourceId, m.historyIndex) == t.history[e.historyIndex];
    MoveConserves(items, m.sourceId, m.historyIndex, m.targetId, intervalTime);
  }

  /** The normaliser's failure sentinel and the scan's transient status are
      never queued for review; the default reason of an empty reply is. */
  lemma PlaceholdersNotReviewable()
    ensures !IsReviewableReason(FailureResult().reason) && !IsReviewableReason("Analyzing...")
    ensures !IsReviewableReason("Rate limit reached") && !IsReviewableReason("")
    ensures IsReviewableReason(DefaultReason)
  {
  }
}
