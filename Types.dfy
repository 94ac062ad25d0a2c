/** The records of types.ts: history entries, track items (projects), candidates
    and the canonical classification result. Numbers are integers (seconds and
    millisecond timestamps); optional fields are `Option`s. */
module Types {

  datatype Option<+T> = None | Some(value: T) {
    function GetOr(default: T): T {
      match this
      case Some(v) => v
      case None => default
    }
  }

  /** The reserved id of the Unknown / Idle bucket. */
  const UnknownId: string := "unknown"

  datatype Candidate = Candidate(id: string, confidenceHint: string)

  /** One detection credited to a project. `matchId` and `action` are
      `string | null` and optional in the source; absent and null are both `None`. */
  datatype HistoryItem = HistoryItem(
    timestamp: int,
    reason: string,
    duration: int,
    matchId: Option<string>,
    candidates: Option<seq<Candidate>>,
    confidenceHint: Option<string>,
    whyNotSecond: Option<string>,
    isEdgeCase: Option<bool>,
    action: Option<string>)

  datatype TodoItem = TodoItem(id: string, text: string, completed: bool)

  datatype RuleHints = RuleHints(
    keywords: Option<seq<string>>,
    windowTitleHints: Option<seq<string>>,
    urlHints: Option<seq<string>>)

  /** A tracked context. The optional `isUnknown` flag is a plain bool here:
      every test of it in the source treats an absent flag as false. */
  datatype TrackItem = TrackItem(
    id: string,
    name: string,
    description: string,
    notes: Option<string>,
    keywords: Option<seq<string>>,
    doList: Option<seq<string>>,
    dontList: Option<seq<string>>,
    tags: Option<seq<string>>,
    clientName: Option<string>,
    billable: Option<bool>,
    parentId: Option<string>,
    ruleHints: Option<RuleHints>,
    todos: Option<seq<TodoItem>>,
    totalTime: int,
    detectCount: int,
    lastActive: int,
    history: seq<HistoryItem>,
    isUnknown: bool)

  datatype AnalysisResult = AnalysisResult(
    matchId: Option<string>,
    reason: string,
    candidates: Option<seq<Candidate>>,
    confidenceHint: Option<string>,
    whyNotSecond: Option<string>,
    action: Option<string>)

  /** A history entry that carries only the three required fields, as the
      scan updater builds it. */
  function PlainEntry(timestamp: int, reason: string, duration: int): (e: HistoryItem)
    ensures e.timestamp == timestamp && e.reason == reason && e.duration == duration
    ensures e.matchId.None? && e.confidenceHint.None? && e.candidates.None?
  {
    HistoryItem(timestamp, reason, duration, None, None, None, None, None, None)
  }

  /** A project with no optional fields set and zero totals. */
  function BlankItem(id: string, name: string, description: string): (t: TrackItem)
    ensures t.id == id && t.name == name && t.description == description
    ensures t.totalTime == 0 && t.detectCount == 0 && t.lastActive == 0 && t.history == []
    ensures !t.isUnknown
  {
    TrackItem(id, name, description, None, None, None, None, None, None, None, None, None, None,
              0, 0, 0, [], false)
  }

  /** A move request as the card and review selectors hand it to the updater. */
  datatype MoveArgs = MoveArgs(sourceId: string, historyIndex: int, targetId: string)

  /** Does some item carry this id? (`items.find(i => i.id === id)` is truthy) */
  predicate HasId(items: seq<TrackItem>, id: string) {
    exists k :: 0 <= k < |items| && items[k].id == id
  }

  /** The first item with this id, as `Array.prototype.find` returns it. */
  function FindById(items: seq<TrackItem>, id: string): (r: Option<TrackItem>)
    ensures r.None? <==> !HasId(items, id)
    ensures r.Some? ==> r.value in items && r.value.id == id
    ensures r.Some? ==> r.value == items[IndexOfId(items, id)]
  {
    if items == [] then None
    else if items[0].id == id then Some(items[0])
    else FindById(items[1..], id)
  }

  /** The position of the first item with this id. */
  function IndexOfId(items: seq<TrackItem>, id: string): (k: int)
    requires HasId(items, id)
    ensures 0 <= k < |items| && items[k].id == id
    ensures forall j :: 0 <= j < k ==> items[j].id != id
  {
    if items[0].id == id then 0
    else
      assert HasId(items[1..], id) by {
        var k :| 0 <= k < |items| && items[k].id == id;
        assert items[1..][k - 1].id == id;
      }
      1 + IndexOfId(items[1..], id)
  }

  /** No two items share an id. */
  predicate UniqueIds(items: seq<TrackItem>) {
    forall i, j :: 0 <= i < j < |items| ==> items[i].id != items[j].id
  }
}
