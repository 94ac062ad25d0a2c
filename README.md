# ai-time-tracker: a Dafny model of the tracking core

The tracker watches the screen at a fixed interval and asks a classifier which
project the activity belongs to. Each scan is credited to a project, or to the
reserved "Unknown / Idle" bucket. A project keeps two counters, `detectCount`
and `totalTime`, next to its history of detections. The user can move a
detection to another project, add and delete projects, and review uncertain
detections. This project models that bookkeeping and proves what it keeps and
what it loses.

Modules, one per source file:

- `Types` (types.ts): the records, plus `find` by id.
- `App` (App.tsx): the collection operations and the formatters.
  - Crediting a scan, moving an entry, adding and deleting a project.
  - The name and description pre-filled from a history entry.
  - The focus-time total, `formatTotalTime` and `formatAutoStop`.
- `Session` (App.tsx): the tracking session.
  - It is a class whose fields are the React state variables.
  - Its methods are start, stop, the one-second tick and the end of a scan.
- `StorageService` (services/storageService.ts): loading the collection, and the Unknown bucket.
- `GeminiService` (services/geminiService.ts): the candidate list offered to the classifier, and the normalisation of the classifier's reply.
- `ReviewCenter` (components/ReviewCenter.tsx): the review predicates and the review queue.
- `TimelineModal` (components/TimelineModal.tsx): the flattened timeline and the text export.
- `TrackItemCard` (components/TrackItemCard.tsx): the card helpers and the guards on its controls.
- `Text` and `Sorting`: the JavaScript built-ins the core relies on.
  - `includes`, `join`, ASCII `toLowerCase`, number-to-string and `padStart`.
  - A stable sort with a numeric comparator, as `Array.prototype.sort` is.

The central invariant is `App.Consistent`: every project has `detectCount == |history|` and `totalTime == sum of durations`. The code keeps it incrementally.

Crediting, adding, deleting and loading keep a consistent collection consistent, with no further assumption; positive durations and unique ids are carried along where present. A move keeps it when every duration is positive (`App.PositiveDurations`) and the ids are unique; a zero-duration entry breaks it (see Findings). Moving an entry to its own project drops the entry (`App.MoveToSelfDrops`). Neither the card (`TrackItemCard.CardMoveConserves`) nor the review queue (`ReviewCenter.ReviewMoveConserves`) asks for such a move.

Behaviour of the code that the model keeps as it is:

- The classifier's `matchId` is passed through without checking it against the known ids (see Findings).
- A moved entry keeps its `matchId` and `confidenceHint`.
- Loading inserts the missing bucket but migrates nothing.
- The entry appended by a scan carries only a timestamp, a reason and a duration.

## Model

| member | source | states |
|---|---|---|
| Types.FindById | App.tsx:206 | `find` yields nothing exactly when no item has the id, and otherwise the first item with that id (the one at `IndexOfId`, before which no item has the id) |
| App.ScanTarget | App.tsx:122 | a missing or empty id falls back to `unknown`; any other id is used as given |
| App.CreditScan | App.tsx:120-136 | same length; items without the target id unchanged; the target gains one detection, `intervalTime` seconds, `lastActive = now` and exactly one appended entry `{now, reason, intervalTime}`, and keeps every other field |
| App.CreditWithoutTarget | App.tsx:124-135 | when no item has the target id the list comes back unchanged |
| App.CreditPreservesConsistency | App.tsx:124-135 | crediting keeps every item's counters equal to its history's length and duration sum, and keeps positive durations for a positive interval |
| App.CreditTotals | App.tsx:124-135 | with unique ids and an existing target, the collection gains exactly one detection and `intervalTime` seconds |
| App.CreditFocusTime | App.tsx:320-322 | crediting raises the focus time by the interval exactly when the target is not the Unknown bucket |
| App.RemoveAt | App.tsx:214-215 | `splice(i, 1)` removes exactly the entry at `i` and keeps the prefix and suffix; out of range it changes nothing |
| App.MoveHistoryItem | App.tsx:204-242 | same length; a missing source or a missing entry leaves the list unchanged; items that are neither source nor target are untouched |
| App.MoveSourceSide | App.tsx:210-221 | the source loses exactly the entry at the index; `detectCount` becomes `max(0, c-1)` and `totalTime` becomes `max(0, t-d)`, with `d` the entry's duration or the interval when it is 0; every other field is kept |
| App.MoveDuration | App.tsx:210 | the moved seconds are the entry's duration unless it is 0, in which case they are the current interval |
| App.MoveTargetSide | App.tsx:223-237 | the target's history is the old one plus the entry, sorted by ascending timestamp; its counters gain 1 and `d`; the suffix is added only when the description does not already contain the reason; every other field is kept |
| App.MoveConserves | App.tsx:212-240 | for distinct, existing source and target with enough on the counters, the pair's sums, every other item, the collection totals and the multiset of all entries are unchanged |
| App.MovePreservesConsistency | App.tsx:204-242 | any move of a consistent collection with unique ids and positive durations keeps it consistent with positive durations |
| App.MoveToSelfDrops | App.tsx:212-224 | with source = target the entry is removed and not re-added: the collection loses exactly that entry |
| App.EntryWithinTotals | App.tsx:219-220 | in a consistent item with positive durations, any one entry is covered by the counters, so the floors at zero do not bite |
| App.MoveZeroDurationDesyncs | App.tsx:210 | as written, a zero-second entry recorded at interval 0 and moved at interval 30 adds 30 seconds to a target whose history gains none: the collection is no longer consistent |
| App.MoveHistoryItemRecorded | App.tsx:204-242 | the corrected move, carrying the entry's own duration; an invalid source or index leaves the list unchanged |
| App.MoveRecordedPreservesConsistency | App.tsx:204-242 | the corrected move keeps any consistent collection with non-negative durations and unique ids consistent, zero durations included |
| App.CreditScanDropsUnmatchedId | App.tsx:122-135 | as written, a non-empty id that names no item credits nothing: the scan leaves no trace |
| App.ResolvedTarget | App.tsx:122 | the corrected target: the named item if it exists, otherwise the Unknown bucket |
| App.CreditResolvedAgrees | App.tsx:122-135 | whenever the target exists, the corrected updater credits exactly as the written one |
| App.CreditResolvedAlwaysCounts | App.tsx:120-136 | corrected crediting adds exactly one detection, one entry and one interval whenever the Unknown bucket exists |
| App.AddItem | App.tsx:173-184 | the old items unchanged, followed by one new item with the given id, name and description, zero totals and empty history |
| App.AddKeepsInvariants | App.tsx:173-184 | adding keeps any consistent collection consistent, keeps positive durations and the totals, and keeps ids unique for a fresh id |
| App.WithoutId | App.tsx:188 | the result holds only items of the input without the id, and every item of the input without the id |
| App.WithoutIdAppend | App.tsx:188 | the filter distributes over concatenation, so the kept items keep their order |
| App.DeleteItem | App.tsx:186-190 | unconfirmed, nothing changes; confirmed, no item with the id is left and every other item is kept |
| App.DeleteKeepsInvariants | App.tsx:186-190 | deleting keeps any consistent collection consistent, keeps positive durations and unique ids where present, and keeps every other id |
| App.DeleteTotals | App.tsx:188 | deleting one project subtracts exactly its counters from the totals and from the focus time |
| App.CreateFromHistory | App.tsx:192-196 | the name is the reason if it has at most 30 characters, else its first 30 followed by `...`; the description is `Context where the screen shows: ` followed by the whole reason |
| App.FocusTimeExcludesUnknown | App.tsx:320-322 | focus time plus the Unknown buckets' time is the total tracked time |
| App.TotalFocusTime | App.tsx:320-322 | zero when every item is Unknown; with non-negative totals, between zero and the total over the whole collection |
| App.TruncMod | App.tsx:326 | JavaScript's remainder: Euclidean for a non-negative dividend; for a negative one in `(-b, 0]`; in both cases `a - r` is a multiple of `b`, which fixes the value |
| App.HmsParts | App.tsx:324-329 | for non-negative seconds `h*3600 + m*60 + s = seconds` with `m, s < 60` |
| App.FormatTotalTime | App.tsx:324-329 | for non-negative seconds, the text reads as `h`, `m` and `s` with `m, s < 60` and `h*3600 + m*60 + s` equal to the seconds |
| App.FormatAutoStop | App.tsx:331-335 | for a non-negative countdown, the minutes, a colon and exactly two digits that read back as the seconds below 60 |
| Session.ArmAutoStop | App.tsx:57-61 | the auto-stop countdown is armed, at `minutes * 60`, exactly for a positive number of minutes |
| Session.AnalysisLabel | App.tsx:117 | "No match" without an id, "Match: Idle" for the bucket, "Match: Tracked" otherwise |
| Session.ScanStep | App.tsx:144-150 | a scan fires exactly when the countdown is at 1 or below and restarts it at the interval; otherwise the countdown drops by one; a countdown in `[1, interval]` stays there |
| Session.AutoStopStep | App.tsx:153-163 | an unarmed countdown stays unarmed; an armed one at 1 or below stops and is cleared; an armed one above 1 counts down by one without stopping |
| Session.ScanCadence | App.tsx:144-150 | from countdown `c`, after `n` ticks `0` scans have fired if `n < c`, else `1 + (n - c) / interval` |
| Session.AutoStopAfter | App.tsx:153-163 | an unarmed countdown never stops; one armed at `k` shows `k - n` until tick `k`, and from tick `k` on it has stopped and been cleared |
| Session.StartedSessionStopsOnTime | App.tsx:153-163 | a session started with `m > 0` minutes stops on tick `n` exactly when `n >= 60m`; one started without never stops itself |
| Session.TrackingSession.constructor | App.tsx:11-26 | not tracking, interval 30, no countdowns, no scans, with the loaded collection |
| Session.TrackingSession.SetIntervalTime | App.tsx:376-381 | only while not tracking; changes the interval and nothing else, keeping the collection consistent |
| Session.TrackingSession.Start | App.tsx:46-79 | on success: stream held, scan count 0, first scan on the next tick, auto-stop armed from the entry, tracking; on failure only tracking is cleared; the collection stays consistent |
| Session.TrackingSession.Stop | App.tsx:81-89 | clears the stream, tracking, the status line and the auto-stop countdown, and nothing else; the collection stays consistent |
| Session.TrackingSession.Tick | App.tsx:140-164 | nothing while not tracking; otherwise the scan countdown steps and reports a due scan, then the auto-stop countdown steps and may stop the session; the collection stays consistent |
| Session.TrackingSession.PerformScan | App.tsx:96-137 | only while tracking with a stream and a frame; sets the status line, counts the scan and credits the result with the written updater, keeping the collection consistent; when the target exists this is also the corrected updater's result |
| StorageService.GetUnknownBucket | services/storageService.ts:24-34 | id `unknown`, the fixed name and description, zero counters and `lastActive`, empty history and todos, `isUnknown` |
| StorageService.LoadedItems | services/storageService.ts:6-22 | the loaded collection always has the bucket and ends with the stored list, at most one item longer |
| StorageService.LoadItems | services/storageService.ts:6-22 | the result always has the bucket; a list that has it comes back unchanged; one without it gets exactly the bucket in front, the rest in order; anything else yields just the bucket |
| StorageService.LoadKeepsInvariants | services/storageService.ts:12-15 | a consistent list loads as a consistent one; positive durations stay positive; a list with unique ids loads with unique ids and exactly one Unknown bucket |
| GeminiService.CandidateItems | services/geminiService.ts:21-22 | the candidates are exactly the items that are not Unknown |
| GeminiService.CandidatesAppend | services/geminiService.ts:21-22 | the candidate filter distributes over concatenation, so the candidates keep the collection's order |
| GeminiService.ContextLines | services/geminiService.ts:23 | one line per candidate, in order |
| GeminiService.KnownContexts | services/geminiService.ts:21-24 | the text is never empty, and is the fixed text when there is no candidate |
| GeminiService.KnownContextsListsCandidates | services/geminiService.ts:21-24 | the fixed text appears exactly when there is no candidate; otherwise every candidate's line occurs in the text |
| GeminiService.Normalise | services/geminiService.ts:64-73 | any failure gives `{null, "Analysis failed"}`; a missing or empty id gives null and any other id is passed through unchecked; an empty reason becomes the default; only id and reason are ever set |
| GeminiService.NormaliseIdempotent | services/geminiService.ts:64-68 | a normalised result fed back as a reply with the same id and reason comes out unchanged |
| GeminiService.FailureCreditsUnknown | services/geminiService.ts:64-73 | a failed call, an unparsable body, JSON `null`, a missing text or a non-object body all credit the Unknown bucket |
| GeminiService.UncheckedIdIsLost | services/geminiService.ts:66 | a reply naming an id no project has is lost by the written updater and recorded on the bucket by the corrected one |
| ReviewCenter.IsLowConfidenceEntry | components/ReviewCenter.tsx:21-27 | a settled hint is never low-confidence; without a hint, or with `strong`, low-confidence exactly when the entry has no id |
| ReviewCenter.LowConfidenceMeaning | components/ReviewCenter.tsx:21-27 | low confidence exactly when the hint is not legacy, manual or locked, and either the id is missing or empty or the hint is non-empty and not `strong` |
| ReviewCenter.LowConfidenceIgnoresCase | components/ReviewCenter.tsx:22 | lower-casing the hint first never changes the decision |
| ReviewCenter.PlainEntriesAreLowConfidence | components/ReviewCenter.tsx:24 | every entry written by the scan updater, with no id and no hint, is low-confidence |
| ReviewCenter.IsReviewableReason | components/ReviewCenter.tsx:29-36 | reviewable exactly when non-empty and not one of the three placeholder reasons |
| ReviewCenter.PlaceholdersNotReviewable | components/ReviewCenter.tsx:30-35 | the normaliser's failure reason, "Analyzing...", "Rate limit reached" and "" are not reviewable; the default reason is |
| ReviewCenter.EntryFor | components/ReviewCenter.tsx:57-64 | a row carries its item's id and name, its own position and entry, and is low-confidence only outside the Unknown bucket |
| ReviewCenter.AllEntriesMembers | components/ReviewCenter.tsx:55-65 | the flattened rows are exactly the rows of the entries of the items |
| ReviewCenter.Entries | components/ReviewCenter.tsx:54-69 | a row is queued exactly when it is one of the flattened rows, has a reviewable reason, and is Unknown or low-confidence; a queued row occurs as often as among the flattened rows, any other row not at all |
| ReviewCenter.EntriesContents | components/ReviewCenter.tsx:54-69 | the queue holds exactly the rows of reviewable entries that are in an Unknown item or are low-confidence, each as often as the flattened rows hold it |
| ReviewCenter.AllEntriesOnce | components/ReviewCenter.tsx:54-65 | with unique ids every flattened row occurs exactly once |
| ReviewCenter.ItemEntriesOnce | components/ReviewCenter.tsx:57-64 | the rows of one item are distinct, each occurring once |
| ReviewCenter.EntriesOnce | components/ReviewCenter.tsx:54-72 | with unique ids every queued row occurs exactly once, so the list lengths the page shows count queued entries |
| ReviewCenter.EntriesNewestFirst | components/ReviewCenter.tsx:68 | the queue is sorted by non-increasing timestamp |
| ReviewCenter.UnknownEntries | components/ReviewCenter.tsx:71 | the rows of the queue from Unknown items |
| ReviewCenter.LowConfidenceEntries | components/ReviewCenter.tsx:72 | the rows of the queue from other items |
| ReviewCenter.QueueSplit | components/ReviewCenter.tsx:71-72 | the two lists partition the queue (as multisets); the second holds only low-confidence rows, the first none |
| ReviewCenter.EntriesAddressEntries | components/ReviewCenter.tsx:57-59 | every row names an existing item and an index of its history holding that row's entry |
| ReviewCenter.ReviewMove | components/ReviewCenter.tsx:137-142 | the selector asks for a move exactly when the choice differs from the row's project, moving the row's entry |
| ReviewCenter.ReviewMoveConserves | components/ReviewCenter.tsx:137-142 | a move the queue asks for is never to the entry's own project and keeps the totals and the multiset of entries of a consistent collection whose ids are unique and whose durations are all positive |
| TimelineModal.EventFor | components/TimelineModal.tsx:16-22 | an event carries its entry's timestamp, duration and reason and its item's name and flag |
| TimelineModal.EventCount | components/TimelineModal.tsx:15-23 | one event per history entry; on a consistent collection, one per detection |
| TimelineModal.EventsComeFromEntries | components/TimelineModal.tsx:15-23 | every event is the event of some entry of some item |
| TimelineModal.EntriesHaveEvents | components/TimelineModal.tsx:15-23 | every entry of every item has its event |
| TimelineModal.TimelineData | components/TimelineModal.tsx:14-27 | the display list holds exactly the flattened events |
| TimelineModal.TimelineDataOrdered | components/TimelineModal.tsx:26 | the display list is a permutation of the events, newest first |
| TimelineModal.ExportOrder | components/TimelineModal.tsx:31 | the export order holds exactly the flattened events |
| TimelineModal.ExportOrdered | components/TimelineModal.tsx:31 | the export holds the same events, oldest first |
| TimelineModal.ExportLines | components/TimelineModal.tsx:32-36 | one line per event, in order |
| TimelineModal.TextExport | components/TimelineModal.tsx:29-38 | the export text is empty exactly when there are no events |
| TimelineModal.ExportOneLinePerEvent | components/TimelineModal.tsx:31-37 | with newline-free names and reasons, n events give exactly n - 1 newlines |
| TrackItemCard.CountReason | components/TrackItemCard.tsx:46-48 | at most the history length, and zero exactly when no entry has the reason |
| TrackItemCard.IsRecurring | components/TrackItemCard.tsx:46-48 | a recurring reason needs at least three entries, and at least one entry with that reason |
| TrackItemCard.RecurringStaysRecurring | components/TrackItemCard.tsx:46-48 | more detections never lower the count, so a recurring reason stays recurring |
| TrackItemCard.LatestHistoryItem | components/TrackItemCard.tsx:50 | empty exactly for an empty history, otherwise the last entry |
| TrackItemCard.Reverse | components/TrackItemCard.tsx:168 | position `i` of the reversed list holds entry `length-1-i` |
| TrackItemCard.TrainList | components/TrackItemCard.tsx:168 | at most 20 rows: `min(20, length)` |
| TrackItemCard.TrainListAddresses | components/TrackItemCard.tsx:168-169 | `originalIndex` is in range, lies among the last 20 entries, and holds the entry shown at that row |
| TrackItemCard.MoveFromList | components/TrackItemCard.tsx:200-204 | a move is asked for exactly when the selection differs from the card's id, with the row's original index |
| TrackItemCard.MoveLatest | components/TrackItemCard.tsx:128-151 | the shortcut moves index `length-1`, only on a non-empty Unknown card and for another target |
| TrackItemCard.CardMoveIsValid | components/TrackItemCard.tsx:148-150 | either control names the card's project, an existing entry, and a different target |
| TrackItemCard.CardMoveConserves | components/TrackItemCard.tsx:200-203 | a move asked for by the card keeps the totals and the multiset of entries of a consistent collection whose ids are unique and whose durations are all positive |
| TrackItemCard.HasDeleteHandler | App.tsx:462-483 | the App hands a delete handler exactly to the cards that are not Unknown |
| TrackItemCard.DeleteOffered | components/TrackItemCard.tsx:224 | the delete button appears only on a card that is not Unknown, with a handler, in training mode |
| TrackItemCard.CardDeleteKeepsBucket | components/TrackItemCard.tsx:224 | deleting through a card never removes the Unknown bucket |
| Text.Contains | App.tsx:227 | `includes` holds exactly when the text occurs at some position |
| Text.ToLower | components/ReviewCenter.tsx:22 | same length, each character lower-cased |
| Text.PadStart2 | App.tsx:334 | a string of two or more characters is kept; a shorter one is left-padded with `'0'` to exactly two |

## Left out

- Screen capture, the video and canvas, image encoding and the permission alerts are browser input and output. A scan is an input: whether a frame was ready, and the classifier's outcome.
- The classifier call, its client singleton and the prompt text are a network service. An error while creating the client or building the candidate list (geminiService.ts:18-24) happens before the `try` and rejects the promise; `GeminiService.Normalise` covers only the call and the parse. `GeminiService.ProviderOutcome` stands for what the call and `JSON.parse` produced. A field holding a truthy value that is not a string is not modelled.
- `localStorage`, `JSON.parse`, `saveItems` and `clearLocalStorage` are not modelled. `StorageService.LoadItems` is given the parsed value. A list whose elements are not records is not modelled: a `null` or `undefined` element makes `find` throw, so the code falls back to the bucket, while a number or string element has no `id` and loads as it is.
- React scheduling is not modelled: `setInterval`, effect re-subscription, the async `performScan` and the `itemsRef` mirror. One tick is one call of `Session.TrackingSession.Tick`.
- Session.TrackingSession.PerformScan: the model does not show the stale closure values the async scan sees. The transient "Analyzing..." status is set and then overwritten within the one call.
- Locale date and time strings are not modelled. The export line shows the raw timestamp instead.
- Floating-point display is not modelled. The auto-stop entry is taken as an integer number of minutes, so fractional minutes are left out.
- Picture-in-picture, the JSON download, the clipboard writes and the per-project copy log are browser output.
- Text.ToLower: lower-cases only ASCII letters, because the hints it compares are ASCII words.
- App.CreateFromHistory: lengths count code points, while `reason.length` and `substring` count UTF-16 code units. A character outside the Basic Multilingual Plane counts once here and twice in the source, so a reason of 20 emoji is cut by the source and kept whole here; a cut inside a surrogate pair cannot be represented.
- AddTrackModal's non-empty guard on name and description is not modelled. The UI-only toggles of the card are not modelled.
- `crypto.randomUUID` is replaced by an id parameter of `App.AddItem`. The `confirm` dialog is the `confirmed` parameter of `App.DeleteItem`.
- App.MoveHistoryItem: does not re-label the moved entry, because the code does not either.

## Findings

| source | as written | input that shows it | evidently intended | confidence | as-written member | corrected member |
|---|---|---|---|---|---|---|
| App.tsx:122-135 | the target is `result.matchId \|\| 'unknown'`, and an id no project has matches nothing in the `map`, so the scan is counted in `scanCount` but credited nowhere | collection `[Unknown bucket, project "p1"]`, classifier reply `{matchId: "p9", reason: "..."}` (the id is passed through unchecked at services/geminiService.ts:66): the collection is returned unchanged | an unmatched id falls back to the Unknown bucket like a missing one, so every scan adds one detection: the comment at App.tsx:122 says the target defaults to the bucket, and the prompt (services/geminiService.ts:34-36) asks for one of the listed ids or null | medium, not executed | App.CreditScanDropsUnmatchedId | App.CreditResolvedAlwaysCounts |
| App.tsx:210 | `historyItemToMove.duration \|\| intervalTime` treats a recorded 0 as missing and moves the current interval instead | the interval field cleared (`Number('')` is 0 at App.tsx:380), one scan credited to project `a` with a 0-second entry, the interval set to 30, the entry moved to project `b`: `b.totalTime` is 30 while its history sums to 0 | the moved seconds are the entry's own recorded duration, so both items stay consistent | medium, not executed | App.MoveZeroDurationDesyncs | App.MoveRecordedPreservesConsistency |

The session, the card and the review queue follow the code as written: `Session.TrackingSession.PerformScan` credits through `App.CreditScan`, which agrees with the corrected `App.CreditScanResolved` whenever the target exists (`App.CreditResolvedAgrees`), and the moves go through `App.MoveHistoryItem`. The corrected definitions, `App.CreditScanResolved` and `App.MoveHistoryItemRecorded`, carry the intended properties.
