/** The model-independent part of `analyzeScreenshotContext` in
    services/geminiService.ts: the list of known contexts offered to the
    classifier, and the normalisation of whatever the provider call produced
    into an `AnalysisResult`. The call itself is an input. */
module GeminiService {
  import opened Types
  import opened Text
  import opened App

  /** `trackItems.filter(item => !item.isUnknown)` */
  function CandidateItems(items: seq<TrackItem>): (r: seq<TrackItem>)
    ensures forall t :: t in r <==> t in items && !t.isUnknown
    ensures |r| <= |items|
  {
    if items == [] then []
    else
      assert forall t :: t in items <==> t == items[0] || t in items[1..];
      (if items[0].isUnknown then [] else [items[0]]) + CandidateItems(items[1..])
  }

  /** Filtering keeps the order: it distributes over concatenation. */
  lemma {:induction false} CandidatesAppend(a: seq<TrackItem>, b: seq<TrackItem>)
    ensures CandidateItems(a + b) == CandidateItems(a) + CandidateItems(b)
  {
    if a == [] {
      assert a + b == b;
    } else {
      assert (a + b)[1..] == a[1..] + b;
      CandidatesAppend(a[1..], b);
    }
  }

  /** The line describing one candidate. */
  function ContextLine(t: TrackItem): string {
    "- ID: \"" + t.id + "\"\n  Name: \"" + t.name + "\"\n  Context Definition: \"" + t.description + "\""
  }

  function ContextLines(items: seq<TrackItem>): (r: seq<string>)
    ensures |r| == |items|
    ensures forall k :: 0 <= k < |items| ==> r[k] == ContextLine(items[k])
  {
    if items == [] then [] else [ContextLine(items[0])] + ContextLines(items[1..])
  }

  const NoItemsText: string := "No specific track items defined yet."

  /** `knownContexts`: the candidate lines joined by newlines, or the fixed
      text when the join is empty. */
  function KnownContexts(items: seq<TrackItem>): (r: string)
    ensures r != ""
    ensures CandidateItems(items) == [] ==> r == NoItemsText
  {
    var text := Join(ContextLines(CandidateItems(items)), "\n");
    if text == "" then NoItemsText else text
  }

  /** Every part of a join occurs in it. */
  lemma {:induction false} JoinHasPart(parts: seq<string>, sep: string, k: int)
    requires 0 <= k < |parts|
    ensures exists i :: OccursAt(Join(parts, sep), parts[k], i)
    decreases |parts|
  {
    var j := Join(parts, sep);
    if k == 0 {
      JoinStartsWithFirst(parts, sep);
      assert OccursAt(j, parts[0], 0);
    } else {
      JoinHasPart(parts[1..], sep, k - 1);
      var i :| OccursAt(Join(parts[1..], sep), parts[1..][k - 1], i);
      var pre := parts[0] + sep;
      assert j == pre + Join(parts[1..], sep);
      assert j[|pre| + i..|pre| + i + |parts[k]|] == Join(parts[1..], sep)[i..i + |parts[k]|];
      assert OccursAt(j, parts[k], |pre| + i);
    }
  }

  /** The fixed text is offered exactly when there is no candidate; otherwise
      every candidate's line appears in the list and the Unknown bucket's
      does not need to (it is never a candidate). */
  lemma {:induction false} KnownContextsListsCandidates(items: seq<TrackItem>)
    ensures KnownContexts(items) == NoItemsText <==> CandidateItems(items) == []
    ensures forall t :: t in items && !t.isUnknown ==> Contains(KnownContexts(items), ContextLine(t))
  {
    var cands := CandidateItems(items);
    var lines := ContextLines(cands);
    var text := Join(lines, "\n");
    if cands != [] {
      JoinStartsWithFirst(lines, "\n");
      assert text[0] == '-';
      assert KnownContexts(items) == text;
      assert NoItemsText[0] == 'N';
      forall t | t in items && !t.isUnknown ensures Contains(KnownContexts(items), ContextLine(t)) {
        var k :| 0 <= k < |cands| && cands[k] == t;
        JoinHasPart(lines, "\n", k);
      }
    }
  }

  // ----------------------------------------------------------------------
  // Normalising the provider's answer (geminiService.ts:42-73)

  /** What `JSON.parse(response.text || "{}")` met. The fields of a parsed
      object are `None` when absent, null or otherwise falsy. */
  datatype ReplyBody =
    | NoText                  // `response.text` empty or absent: parses as `{}`
    | Unparsable              // `JSON.parse` throws
    | JsonNull                // parses to null: reading a field throws
    | NotAnObject             // a number, string or array: every field is undefined
    | Fields(matchId: Option<string>, reason: Option<string>)

  datatype ProviderOutcome = CallFailed | Replied(body: ReplyBody)

  const FailedReason: string := "Analysis failed"
  const DefaultReason: string := "Unknown activity detected"

  /** The sentinel of the `catch` block. */
  function FailureResult(): AnalysisResult {
    AnalysisResult(None, FailedReason, None, None, None, None)
  }

  function Truthy(s: Option<string>): bool {
    s.Some? && s.value != ""
  }

  /** The result `analyzeScreenshotContext` returns once the client exists
      and the prompt is built (geminiService.ts:42-73): an error in the call
      or in the parse gives the sentinel; a reply without an id gives no id;
      only the id and the reason are ever set, the reason is never empty, and
      the id is not checked against the known projects. */
  function Normalise(o: ProviderOutcome): (r: AnalysisResult)
    ensures r.candidates.None? && r.confidenceHint.None? && r.whyNotSecond.None? && r.action.None?
    ensures r.reason != ""
    ensures r.matchId.Some? ==> r.matchId.value != ""
    ensures o.CallFailed? || o.body.Unparsable? || o.body.JsonNull? ==> r == FailureResult()
    ensures o.Replied? && (o.body.NoText? || o.body.NotAnObject?) ==>
      r.matchId.None? && r.reason == DefaultReason
    ensures o.Replied? && o.body.Fields? ==>
      && (Truthy(o.body.matchId) ==> r.matchId == o.body.matchId)
      && (!Truthy(o.body.matchId) ==> r.matchId.None?)
      && (Truthy(o.body.reason) ==> r.reason == o.body.reason.value)
      && (!Truthy(o.body.reason) ==> r.reason == DefaultReason)
  {
    match o
    case CallFailed => FailureResult()
    case Replied(body) =>
      match body
      case Unparsable => FailureResult()
      case JsonNull => FailureResult()
      case NoText => AnalysisResult(None, DefaultReason, None, None, None, None)
      case NotAnObject => AnalysisResult(None, DefaultReason, None, None, None, None)
      case Fields(m, rs) =>
        AnalysisResult(if Truthy(m) then m else None,
                       if Truthy(rs) then rs.value else DefaultReason,
                       None, None, None, None)
  }

  /** A normalised result sent back through the normalisation comes out
      unchanged: nothing the normaliser produces needs normalising again. */
  lemma NormaliseIdempotent(o: ProviderOutcome)
    ensures var r := Normalise(o);
      Normalise(Replied(Fields(r.matchId, Some(r.reason)))) == r
  {
  }

  /** Every failure is credited to the Unknown bucket. */
  lemma FailureCreditsUnknown(o: ProviderOutcome)
    requires o.CallFailed? || o.body.Unparsable? || o.body.JsonNull? || o.body.NoText? || o.body.NotAnObject?
    ensures ScanTarget(Normalise(o).matchId) == UnknownId
  {
  }

  /** Because the id is passed through unchecked, a reply naming an id that no
      project has is lost by the updater as written, and recorded on the
      Unknown bucket by the resolved updater. */
  lemma {:induction false} UncheckedIdIsLost(items: seq<TrackItem>, id: string, reason: Option<string>,
                                             now: int, intervalTime: int)
    requires id != "" && !HasId(items, id)
    requires UniqueIds(items) && HasId(items, UnknownId)
    ensures var r := Normalise(Replied(Fields(Some(id), reason)));
      && CreditScan(items, r, now, intervalTime) == items
      && TotalDetections(CreditScanResolved(items, r, now, intervalTime)) == TotalDetections(items) + 1
  {
    var r := Normalise(Replied(Fields(Some(id), reason)));
    CreditScanDropsUnmatchedId(items, r, now, intervalTime);
    CreditResolvedAlwaysCounts(items, r, now, intervalTime);
  }
}
