/** The timeline of components/TimelineModal.tsx: every history entry of every
    project as one event, newest first for display, and oldest first, one line
    each, for the text export. */
module TimelineModal {
  import opened Types
  import opened Text
  import opened Sorting
  import opened App

  datatype TimelineEvent = TimelineEvent(
    timestamp: int,
    duration: int,
    projectName: string,
    reason: string,
    isUnknown: bool)

  /** The event of entry `h` of item `t`. */
  function EventFor(t: TrackItem, h: HistoryItem): (e: TimelineEvent)
    ensures e.timestamp == h.timestamp && e.duration == h.duration && e.reason == h.reason
    ensures e.projectName == t.name && e.isUnknown == t.isUnknown
  {
    TimelineEvent(h.timestamp, h.duration, t.name, h.reason, t.isUnknown)
  }

  function ItemEvents(t: TrackItem): (r: seq<TimelineEvent>)
    ensures |r| == |t.history|
    ensures forall i :: 0 <= i < |t.history| ==> r[i] == EventFor(t, t.history[i])
  {
    seq(|t.history|, i requires 0 <= i < |t.history| => EventFor(t, t.history[i]))
  }

  /** `allEvents`: the `flatMap` over the items, in collection order. */
  function AllEvents(items: seq<TrackItem>): seq<TimelineEvent> {
    if items == [] then [] else ItemEvents(items[0]) + AllEvents(items[1..])
  }

  /** One event per history entry: the footer's count is the number of
      entries, which on a consistent collection is the number of detections. */
  lemma {:induction false} EventCount(items: seq<TrackItem>)
    ensures |AllEvents(items)| == |AllHistory(items)|
    ensures Consistent(items) ==> |AllEvents(items)| == TotalDetections(items)
  {
    if items != [] {
      EventCount(items[1..]);
      if Consistent(items) {
        ConsistentCounts(items);
      }
    }
  }

  /** Each event is the event of one entry of one item. */
  lemma {:induction false} EventsComeFromEntries(items: seq<TrackItem>, e: TimelineEvent)
    requires e in AllEvents(items)
    ensures exists k, i ::
      0 <= k < |items| && 0 <= i < |items[k].history| && e == EventFor(items[k], items[k].history[i])
  {
    if e in ItemEvents(items[0]) {
      var i :| 0 <= i < |items[0].history| && ItemEvents(items[0])[i] == e;
      assert e == EventFor(items[0], items[0].history[i]);
    } else {
      EventsComeFromEntries(items[1..], e);
      var k, i :| 0 <= k < |items[1..]| && 0 <= i < |items[1..][k].history| &&
        e == EventFor(items[1..][k], items[1..][k].history[i]);
      assert items[1..][k] == items[k + 1];
    }
  }

  /** Every entry of every item has its event on the timeline. */
  lemma {:induction false} EntriesHaveEvents(items: seq<TrackItem>, k: int, i: int)
    requires 0 <= k < |items| && 0 <= i < |items[k].history|
    ensures EventFor(items[k], items[k].history[i]) in AllEvents(items)
  {
    if k == 0 {
      assert ItemEvents(items[0])[i] == EventFor(items[0], items[0].history[i]);
    } else {
      assert items[1..][k - 1] == items[k];
      EntriesHaveEvents(items[1..], k - 1, i);
    }
  }

  function NewestFirst(e: TimelineEvent): int {
    -e.timestamp
  }

  function OldestFirst(e: TimelineEvent): int {
    e.timestamp
  }

  /** `timelineData` */
  function TimelineData(items: seq<TrackItem>): (r: seq<TimelineEvent>)
    ensures multiset(r) == multiset(AllEvents(items))
  {
    SortBy(AllEvents(items), NewestFirst)
  }

  /** The display order: the same events, newest first. */
  lemma {:induction false} TimelineDataOrdered(items: seq<TrackItem>)
    ensures multiset(TimelineData(items)) == multiset(AllEvents(items))
    ensures forall i, j :: 0 <= i < j < |TimelineData(items)| ==>
      TimelineData(items)[i].timestamp >= TimelineData(items)[j].timestamp
  {
    SortBySorted(AllEvents(items), NewestFirst);
  }

  /** `sortedForText`: a copy of the display list re-sorted oldest first. */
  function ExportOrder(items: seq<TrackItem>): (r: seq<TimelineEvent>)
    ensures multiset(r) == multiset(AllEvents(items))
  {
    SortBy(TimelineData(items), OldestFirst)
  }

  /** The export has the same events as the display, oldest first. */
  lemma {:induction false} ExportOrdered(items: seq<TrackItem>)
    ensures multiset(ExportOrder(items)) == multiset(AllEvents(items))
    ensures forall i, j :: 0 <= i < j < |ExportOrder(items)| ==>
      ExportOrder(items)[i].timestamp <= ExportOrder(items)[j].timestamp
  {
    SortBySorted(TimelineData(items), OldestFirst);
  }

  /** One export line; the locale date and time are replaced by the raw
      millisecond timestamp. */
  function ExportLine(e: TimelineEvent): string {
    "[" + IntToDecimal(e.timestamp) + "] [" + e.projectName + "] " + e.reason
      + " (" + IntToDecimal(e.duration) + "s)"
  }

  function ExportLines(events: seq<TimelineEvent>): (r: seq<string>)
    ensures |r| == |events|
    ensures forall k :: 0 <= k < |events| ==> r[k] == ExportLine(events[k])
  {
    if events == [] then [] else [ExportLine(events[0])] + ExportLines(events[1..])
  }

  /** `generateTextExport` */
  function TextExport(items: seq<TrackItem>): (r: string)
    ensures r == "" <==> AllEvents(items) == []
  {
    var order := ExportOrder(items);
    var lines := ExportLines(order);
    assert |order| == |multiset(order)| == |AllEvents(items)|;
    if lines == [] then Join(lines, "\n")
    else
      JoinStartsWithFirst(lines, "\n");
      assert lines[0][0] == '[';
      Join(lines, "\n")
  }

  lemma {:induction false} DecimalHasNoNewline(n: int)
    ensures CountChar(IntToDecimal(n), '\n') == 0
  {
    var d := IntToDecimal(n);
    NoCharCounted(d, '\n');
  }

  lemma {:induction false} NoCharCounted(s: string, c: char)
    requires forall i :: 0 <= i < |s| ==> s[i] != c
    ensures CountChar(s, c) == 0
  {
    if s != [] {
      NoCharCounted(s[1..], c);
    }
  }

  /** A line has no newline of its own when the project name and the reason
      have none. */
  lemma {:induction false} ExportLineSingle(e: TimelineEvent)
    requires CountChar(e.projectName, '\n') == 0 && CountChar(e.reason, '\n') == 0
    ensures CountChar(ExportLine(e), '\n') == 0
  {
    var a := IntToDecimal(e.timestamp);
    var b := IntToDecimal(e.duration);
    DecimalHasNoNewline(e.timestamp);
    DecimalHasNoNewline(e.duration);
    CountCharAppend("[", a, '\n');
    CountCharAppend("[" + a, "] [", '\n');
    CountCharAppend("[" + a + "] [", e.projectName, '\n');
    CountCharAppend("[" + a + "] [" + e.projectName, "] ", '\n');
    CountCharAppend("[" + a + "] [" + e.projectName + "] ", e.reason, '\n');
    CountCharAppend("[" + a + "] [" + e.projectName + "] " + e.reason, " (", '\n');
    CountCharAppend("[" + a + "] [" + e.projectName + "] " + e.reason + " (", b, '\n');
    CountCharAppend("[" + a + "] [" + e.projectName + "] " + e.reason + " (" + b, "s)", '\n');
    NoCharCounted("[", '\n');
    NoCharCounted("] [", '\n');
    NoCharCounted("] ", '\n');
    NoCharCounted(" (", '\n');
    NoCharCounted("s)", '\n');
  }

  /** With newline-free names and reasons, the export is one line per event:
      n events are separated by exactly n - 1 newlines. */
  lemma {:induction false} ExportOneLinePerEvent(items: seq<TrackItem>)
    requires AllEvents(items) != []
    requires forall k :: 0 <= k < |items| ==> CountChar(items[k].name, '\n') == 0
    requires forall k, i :: 0 <= k < |items| && 0 <= i < |items[k].history| ==>
      CountChar(items[k].history[i].reason, '\n') == 0
    ensures CountChar(TextExport(items), '\n') == |AllEvents(items)| - 1
  {
    var order := ExportOrder(items);
    var lines := ExportLines(order);
    ExportOrdered(items);
    assert |order| == |multiset(order)| == |AllEvents(items)|;
    forall j | 0 <= j < |lines| ensures CountChar(lines[j], '\n') == 0 {
      assert order[j] in multiset(AllEvents(items));
      EventsComeFromEntries(items, order[j]);
      ExportLineSingle(order[j]);
    }
    JoinSeparatorCount(lines, '\n');
  }
}
