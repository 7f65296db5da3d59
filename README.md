# Automatic chapter-text extraction: a Dafny model

The system is a dispatcher and a pool of workers that share a PostgreSQL
store. The store has three tables:

- `vitals`: one row per worker, holding its status and its last heartbeat minute.
- `chapter_text`: one row per chapter, holding its status and, once done, its text.
- `dispatcher`: the leases that bind a worker to a chapter.

The dispatcher runs a loop. Each iteration pairs idle workers with pending
chapters. Every third iteration it also checks the workers' heartbeats,
marks the silent ones offline and sends their unfinished chapters back to
pending. A worker:

- registers under a fresh nine-digit id;
- refreshes its heartbeat;
- looks up the chapter leased to it;
- runs the pages of that chapter through a text pipeline (OCR, paragraph
  splitting, symbol and digit stripping, a gibberish filter, a dictionary-ratio
  filter, then concatenation);
- stores the text, marks itself idle and closes the lease.

The model keeps the tables as sequences of rows in table order. They live in
a `Store` class whose fields the store operations reassign. Every operation
that changes the store is a method, proved against a pure step function on
the `DB` value. The lemmas about those step functions carry the protocol's
guarantees:

- a consistency invariant that ties each worker's status to the pending
  leases it holds, kept by every operation of both processes;
- a job invariant: no chapter has two online pending leases, kept by every
  operation while the dispatcher's marking updates commit, and broken by a
  rolled-back one;
- positional pairing;
- requeueing of orphaned chapters;
- fresh ids;
- a leased task surviving the dispatcher's passes.

Database errors that the source catches and rolls back are modelled as a set
of loop positions whose unit of work fails. An error that escapes a call is
modelled by the position in the call's loop where it escapes: `raiseAt ==
Some(k)` for one pass, or an `Outage(pass, k)` value for an iteration of the
loop. Position 0 covers a store that cannot be reached. A position at or
past the end of a non-empty loop describes no run of the source, where
nothing after the loop raises; the model still reports such a call as
raising, with every unit committed. A rollback that
itself fails escapes at the position of its unit. The units before that
position have committed and stay. Nothing after it runs, and the call
returns nothing. In the loop, the rest of the iteration is skipped,
including the updates of `rep` and of the offline history.

The text pipeline is modelled on sequences and arrays, as the source works
on lists. The OCR engine, the
gibberish classifier, the tokenizer and the word list are the fields of an
`Oracles` value.

Modules, in dependency order:

- `Seqs`: filtering and subsequences.
- `Tables`: rows, the store and row updates.
- `Liveness`: the heartbeat window.
- `Dispatcher`: the vitals check, assignments and reassignment.
- `DispatcherLoop`: the `rep` counter and the offline history.
- `WorkerIds`: id parsing, formatting and text order.
- `Worker`: the worker's store operations.
- `Protocol`: the invariant across both processes.
- `Jobs`: the job invariant, one active lease per chapter.
- `TextPipeline`: `text_formatter`, `char_remover`, `clean_text` and the sensible-string filter.
- `Extraction`: the aggregation and the whole per-chapter engine.

## Model

| member | source | states |
|---|---|---|
| Liveness.IsAlive | dispatcher/dispatcher.py:53-70 | the three cases of the heartbeat test, at minute 0, at minute 1 and otherwise; AliveIffWithinTwoMinutes states what they amount to |
| Liveness.AliveIffWithinTwoMinutes | dispatcher/dispatcher.py:53-70 | for a heartbeat minute in 0..59, a worker is alive exactly when the current minute is at most two minutes after it, counted round the hour |
| Liveness.FreshHeartbeatIsAlive | dispatcher/dispatcher.py:53-70 | a heartbeat taken in the current minute is always alive |
| Liveness.AliveAtMidnightWindow | dispatcher/dispatcher.py:53-64 | at minute 0 alive iff the last beat is in {58, 59, 0}; at minute 1 iff it is in {59, 0, 1} |
| Liveness.HeartbeatLastsThreeMinutes | dispatcher/dispatcher.py:53-70 | one heartbeat keeps a worker alive for the checks at t, t+1 and t+2 and no longer: the check at t+3 finds it dead |
| Dispatcher.DeadIndices | dispatcher/dispatcher.py:48-70 | the collected positions are increasing, each is outside the liveness window, and every examined position outside the window is collected |
| Dispatcher.DeadPositions | dispatcher/dispatcher.py:44-70 | the first loop of check_vitals collects exactly the positions of the examined rows outside the window, in order |
| Dispatcher.MarkPositions | dispatcher/dispatcher.py:72-86 | the second loop of check_vitals records the dead ids in order and leaves each committed worker offline in vitals and in all its leases, the failed positions unchanged; an error escaping at position k stops it after the first k workers |
| Dispatcher.CheckVitals | dispatcher/dispatcher.py:34-97 | reports the dead ids in query order, or the 'no casualties' sentinel when there are none; every reported worker whose update commits is offline in vitals and in all its leases, and a failed update still reports the id; when an error escapes at position k, nothing is reported and exactly the committed updates of the first k dead workers remain |
| Dispatcher.DeadWorkers | dispatcher/dispatcher.py:40-75 | the ids of the rows with status other than '-1' that fail the heartbeat test, in table order; DeadWorkersExact characterises them |
| Dispatcher.DeadWorkersExact | dispatcher/dispatcher.py:40-70 | a worker is declared dead iff it has a row with status other than '-1' whose heartbeat is outside the window |
| Dispatcher.MarkDeadLeavesNoCasualties | dispatcher/dispatcher.py:72-87 | once every update commits, a second check in the same minute finds no casualties |
| Dispatcher.DeadRowMarked | dispatcher/dispatcher.py:72-84 | when no update fails, every row with status other than '-1' whose heartbeat is outside the window ends offline |
| Dispatcher.MarkDeadUntil | dispatcher/dispatcher.py:72-94 | the store after the vitals check when an error escapes at position k of the dead list: the committed updates of the first k dead workers; CheckVitals is proved against it and MarkDeadKeepsConsistent keeps the invariant across it |
| Dispatcher.MarkDead | dispatcher/dispatcher.py:72-86 | the vitals check that runs to its end; DeadRowMarked and MarkDeadLeavesNoCasualties state its effect |
| Dispatcher.PendingChaptersExact | dispatcher/dispatcher.py:106-107 | a chapter is offered iff one of its rows has status '0' |
| Dispatcher.IdleWorkersExact | dispatcher/dispatcher.py:111-112 | a worker is offered work iff one of its rows has status '0' |
| Dispatcher.Assignments | dispatcher/dispatcher.py:99-148 | the store after the pass is the positional pairing of the two lists up to the shorter one; failed pairings are rolled back and later ones proceed; when an error escapes at pairing k, the pass reports failure and the committed pairings before k remain |
| Dispatcher.NewLeasesArePositional | dispatcher/dispatcher.py:115-141 | a lease is inserted iff it pairs the k-th idle worker with the k-th pending chapter for a committed k, pending and online |
| Dispatcher.NewLeasesInOrder | dispatcher/dispatcher.py:115-128 | with no failure, exactly min(#idle, #pending) leases are inserted, the k-th pairing the k-th worker with the k-th chapter |
| Dispatcher.AssignLeavesSurplus | dispatcher/dispatcher.py:115-136 | chapters and workers outside the paired prefix keep their rows |
| Dispatcher.AssignUntil | dispatcher/dispatcher.py:115-145 | the store after the assignment pass when an error escapes at pairing k: the committed pairings among the first k; Assignments is proved against it and AssignKeepsConsistent keeps the invariant across it |
| Dispatcher.AssignStep | dispatcher/dispatcher.py:115-141 | the assignment pass that runs to its end; NewLeasesArePositional, NewLeasesInOrder and AssignLeavesSurplus state its effect |
| Dispatcher.CutOffAssignIsPrefix | dispatcher/dispatcher.py:115-145 | the leases of a pass cut off by an escaping error are a prefix of the leases of the complete pass |
| Dispatcher.Reassignment | dispatcher/dispatcher.py:188-225 | the store after the pass has each committed collected chapter back at '0' and nothing else changed; lookup failures skip the worker; when an error escapes at reset k, the pass reports failure and the committed resets before k remain |
| Dispatcher.ResetListExact | dispatcher/dispatcher.py:195-208 | a chapter is collected iff it is the first pending lease of a dead worker whose lookup succeeded; at most one per dead worker |
| Dispatcher.ReassignOnlyRequeuesOrphans | dispatcher/dispatcher.py:195-218 | reassignment, complete or cut off by an escaping error, leaves vitals and leases untouched and changes a chapter only by setting it pending, only when a dead worker holds a pending lease on it |
| Dispatcher.ReassignUntil | dispatcher/dispatcher.py:195-222 | the store after reassignment when an error escapes at reset k: the committed resets among the first k collected chapters; Reassignment is proved against it |
| Dispatcher.ReassignStep | dispatcher/dispatcher.py:195-218 | the reassignment that runs to its end; ReassignOnlyRequeuesOrphans and RecoveryRequeues state its effect |
| Dispatcher.RecoveryRequeues | dispatcher/dispatcher.py:197-214 | whatever other lookups and resets fail, a dead worker's first pending chapter, when its lookup succeeds and no reset of that chapter fails, is pending again afterwards and is offered to the next assignment pass |
| DispatcherLoop.NewlyDead | dispatcher/dispatcher.py:265 | the comprehension as a filter of the report by "not in the history"; NewlyDeadExact and NewlyDeadOnce state its properties |
| DispatcherLoop.NewlyDeadExact | dispatcher/dispatcher.py:265 | an id is newly dead iff it is reported and not in the offline history; the report order is kept |
| DispatcherLoop.NewlyDeadOnce | dispatcher/dispatcher.py:265-271 | once the newly dead ids are added to the history, the same report yields no new ids |
| DispatcherLoop.StepRep | dispatcher/dispatcher.py:256-277 | rep stays within 0..3; after an iteration that does not raise it is 1..3, and it advances by one or wraps from 3 to 1; an iteration whose assignment pass or vitals check raises leaves rep as it was; the sweep runs only when rep is 3 |
| DispatcherLoop.StepHistory | dispatcher/dispatcher.py:261-271 | the history only grows, by reported ids not already in it, and exactly by the newly dead ids of a sweep |
| DispatcherLoop.Sweep | dispatcher/dispatcher.py:262-264 | the vitals check, then reassignment when it reports casualties; a raising vitals check reports nothing and skips reassignment; SweepOnce is proved against it and SweepKeepsConsistent keeps the invariant across it |
| DispatcherLoop.Step | dispatcher/dispatcher.py:256-277 | one iteration: assignment, then the sweep when rep is 3, then the history and rep updates, each skipped once a call raises; StepRep, StepHistory, LoopStepKeepsConsistent and TaskSurvivesDispatcher state its properties |
| DispatcherLoop.ControlLoop.constructor | dispatcher/dispatcher.py:241-243 | the loop starts with rep 0 and an empty offline history |
| DispatcherLoop.ControlLoop.SweepOnce | dispatcher/dispatcher.py:262-264 | the vitals check, then reassignment of the reported workers when there are casualties |
| DispatcherLoop.ControlLoop.Startup | dispatcher/dispatcher.py:245-254 | the initial sweep changes the store like any sweep but leaves rep and the history as they were |
| DispatcherLoop.ControlLoop.Iteration | dispatcher/dispatcher.py:256-277 | one iteration changes the store, rep and the history as the step function says, including an iteration cut short by a raising call |
| WorkerIds.FormatThenParse | workers/workers.py:34-36 | parsing a formatted id gives back its number; below a billion the id is exactly nine digits |
| WorkerIds.FirstId | workers/workers.py:37-39 | the first id is "000000000" |
| WorkerIds.MaxLex | workers/workers.py:33-34 | the row ORDER BY worker_id DESC returns first is one of the ids and sorts at or after every id |
| WorkerIds.LexMatchesValue | workers/workers.py:33-34 | for digit strings of one length, text order is numeric order |
| WorkerIds.NextId | workers/workers.py:32-39 | "000000000" for an empty table, otherwise the greatest id in text order plus one, nine digits wide, or nothing where int() raises; NextIdFresh states that the id is fresh, and FirstId gives the text of the first one |
| WorkerIds.NextIdFresh | workers/workers.py:32-39 | with nine-digit ids, the new id parses, is numerically greater than every existing id, and so differs from all of them |
| Worker.RegisterStep | workers/workers.py:17-45 | the store after generate_id: one idle row with the next id and the current minute appended, or no change where int() raises; RegisterAddsNewWorker and RegisterKeepsConsistent state its properties |
| Worker.GenerateId | workers/workers.py:17-49 | returns the next id (None where int() raises) and appends one idle row with the current minute as heartbeat |
| Worker.RegisterAddsNewWorker | workers/workers.py:22-45 | one row is appended for an id no row has, idle, with the current heartbeat and not declared dead in that minute; existing rows and the other tables are unchanged |
| Worker.Heartbeat | workers/workers.py:53-64 | the worker's heartbeat is the current minute; no other column or table changes |
| Worker.HeartbeatKeepsAlive | workers/workers.py:56-63 | after a heartbeat the worker is not declared dead for the next three checks, and nobody else's verdict changes |
| Worker.CheckTask | workers/workers.py:68-83 | returns the chapter of a pending lease of the worker when one exists, and 'empty' when none does |
| Worker.Complete | workers/workers.py:203-223 | the store after add_extracted_text: the chapter done with its text, the worker idle, its leases on the chapter done; CompleteEffect and CompleteKeepsConsistent state its properties |
| Worker.AddExtractedText | workers/workers.py:203-223 | the chapter gets status '2' with the text, the worker status '0', and its leases on the chapter progress '1' |
| Worker.CompleteEffect | workers/workers.py:208-222 | the chapter is never offered again and carries the text; the worker has no pending lease on it and is offered work again; every row of any other worker, chapter or lease is unchanged |
| Protocol.NewLeasesCount | dispatcher/dispatcher.py:125-128 | with distinct idle workers, a pass gives each worker one new pending lease if its pairing committed and none otherwise |
| Protocol.AssignKeepsConsistent | dispatcher/dispatcher.py:115-145 | assignment, complete or cut off by an escaping error, keeps the invariant: unique ids, leases of known workers, idle with none pending, busy with exactly one, offline with at most one |
| Protocol.MarkDeadKeepsConsistent | dispatcher/dispatcher.py:72-94 | marking dead workers offline, completely or up to an escaping error, keeps the invariant |
| Protocol.ReassignKeepsConsistent | dispatcher/dispatcher.py:195-222 | reassignment, complete or cut off, keeps the invariant |
| Protocol.SweepKeepsConsistent | dispatcher/dispatcher.py:262-264 | a sweep keeps the invariant, whichever call raises and wherever in its loop |
| Protocol.LoopStepKeepsConsistent | dispatcher/dispatcher.py:256-277 | a whole loop iteration keeps the invariant, whatever fails in it, including an error that escapes a pass after some of its units have committed |
| Protocol.RegisterKeepsConsistent | workers/workers.py:32-45 | registration keeps the invariant while the ids are nine-digit |
| Protocol.HeartbeatKeepsConsistent | workers/workers.py:61-63 | a heartbeat keeps the invariant |
| Protocol.CompleteKeepsConsistent | workers/workers.py:208-222 | completing the task check_task returned keeps the invariant and leaves the worker with no pending lease |
| Protocol.AssignKeepsFirstPending | dispatcher/dispatcher.py:124-128 | the assignment pass, complete or cut off, only appends leases, so a worker's first pending lease is unchanged |
| Protocol.SweepKeepsFirstPending | dispatcher/dispatcher.py:78-80 | the sweep only rewrites the worker_status column of leases, so no worker's first pending lease changes |
| Protocol.TaskSurvivesDispatcher | workers/workers.py:74-81 | while a worker holds a pending lease, no dispatcher iteration, complete or cut short by an escaping error, changes which chapter check_task returns to it |
| Protocol.OfflineWorkerKeepsLease | dispatcher/dispatcher.py:78-81 | a busy worker marked offline keeps its pending lease, so status '1' is not equivalent to holding one pending lease |
| Protocol.RolledBackMarkDoublesLease | dispatcher/dispatcher.py:76-85 | when the update marking a dead worker offline is rolled back, the worker keeps its online lease, reassignment still requeues the chapter and the next assignment pass leases it to a second worker; the invariant holds before and after |
| Protocol.CompleteMidwayBreaksInvariant | workers/workers.py:206-222 | after the second of add_extracted_text's three commits the worker is idle with its lease still pending, so the invariant fails; an assignment pass then gives the worker a second pending lease, and a reassignment sets the done chapter back to '0' |
| Jobs.EmptyStoreJobsExclusive | dispatcher/dispatcher.py:105-136 | the job invariant holds in a store with no workers and no leases whose chapter ids are distinct |
| Jobs.NewLeasesExclusive | dispatcher/dispatcher.py:115-128 | pairing distinct pending chapters inserts online pending leases on distinct chapters, each among the committed pairings |
| Jobs.AssignKeepsJobsExclusive | dispatcher/dispatcher.py:105-136 | an assignment pass, complete or cut off, with any failed pairings, keeps one active lease per chapter: it leases only pending chapters, each to one worker |
| Jobs.MarkKeepsJobsExclusive | dispatcher/dispatcher.py:72-85 | marking dead workers offline, with any rolled-back updates, keeps the job invariant: a worker's row and its leases change in one commit |
| Jobs.CollectedAreInactive | dispatcher/dispatcher.py:195-207 | once every dead worker is marked, no chapter reassignment collects still has an online pending lease |
| Jobs.ReassignKeepsJobsExclusive | dispatcher/dispatcher.py:209-218 | requeueing chapters none of which has an online pending lease keeps the job invariant, complete or cut off |
| Jobs.SweepKeepsJobsExclusive | dispatcher/dispatcher.py:262-264 | a sweep whose marking updates commit keeps the job invariant, whatever lookup or reset fails and wherever an error escapes |
| Jobs.LoopStepKeepsJobsExclusive | dispatcher/dispatcher.py:256-277 | a loop iteration whose marking updates commit keeps the job invariant, so no chapter gets two online pending leases |
| Jobs.RolledBackMarkBreaksExclusive | dispatcher/dispatcher.py:83-85 | with a rolled-back marking update the job invariant holds before two iterations and fails after them |
| Jobs.RegisterKeepsJobsExclusive | workers/workers.py:32-45 | registration keeps the job invariant while the ids are nine-digit: the new worker holds no lease |
| Jobs.HeartbeatKeepsJobsExclusive | workers/workers.py:61-63 | a heartbeat keeps the job invariant |
| Jobs.CompleteKeepsJobsExclusive | workers/workers.py:206-222 | completing the task check_task returned keeps the job invariant |
| TextPipeline.Split | workers/workers.py:102 | splitting always yields at least one piece |
| TextPipeline.SplitJoin | workers/workers.py:102 | joining the pieces with "\n\n" gives back the text |
| TextPipeline.SplitMaximal | workers/workers.py:102 | no piece contains "\n\n" |
| TextPipeline.NewlinesToSpaces | workers/workers.py:105 | the result has the same length, no '\n', and every other character in place |
| TextPipeline.TextFormatter | workers/workers.py:101-106 | the result is non-empty, one string per paragraph of the same length, none containing '\n' |
| TextPipeline.StripNoise | workers/workers.py:122-126 | the two substitutions applied to one string, listed symbols first, then digits; StripNoiseExact and StripNoiseIdempotent state their effect |
| TextPipeline.StripNoiseExact | workers/workers.py:111-126 | stripping deletes every listed symbol and every digit and keeps every other character, as often as it occurs and in order |
| TextPipeline.StripNoiseIdempotent | workers/workers.py:124-126 | stripping a stripped string changes nothing |
| TextPipeline.CharRemover | workers/workers.py:110-128 | the list keeps its length and each element is replaced by its stripped form |
| TextPipeline.StagesDeleteUnwanted | workers/workers.py:133-139 | deleting the seventeen patterns in order deletes exactly the fifteen unwanted characters |
| TextPipeline.Squeeze | workers/workers.py:137-139 | the replacement loop yields the sentence with every unwanted character deleted |
| TextPipeline.Padded | workers/workers.py:141-145 | a sentence shorter than 7 is right-padded with 'a' to length 8; one of length 7 or more is unchanged |
| TextPipeline.Examine | workers/workers.py:138-150 | an element is rejected iff the classifier rejects its squeezed, padded form |
| TextPipeline.CleanSpec | workers/workers.py:137-152 | what clean_text returns: a rejected element is dropped and the element after it is kept unexamined; CleanOnlyRemoves, CleanKeepsHalf, CleanIsFilterWithoutAdjacentRejects and CleanSkipsAfterPop state its properties |
| TextPipeline.CleanText | workers/workers.py:132-152 | the pop-while-enumerating loop returns the list the specification function describes, including the unexamined element after each pop |
| TextPipeline.CleanOnlyRemoves | workers/workers.py:137-151 | clean_text only deletes elements and leaves the kept ones unchanged and in order |
| TextPipeline.CleanKeepsHalf | workers/workers.py:146-150 | since each pop skips the next element, at least ⌊n/2⌋ of the n elements survive |
| TextPipeline.CleanIsFilterWithoutAdjacentRejects | workers/workers.py:137-151 | when no two rejected elements are adjacent, clean_text removes exactly the rejected ones |
| TextPipeline.CleanSkipsAfterPop | workers/workers.py:146-150 | of two adjacent rejected elements the second is kept, although a plain filter would drop it |
| TextPipeline.IsSensible | workers/workers.py:156-161 | at least 40% of the tokens, counted as at least one, are English words, as an integer inequality; SensibleIsRatio and SensibleBounds state its properties |
| TextPipeline.SensibleIsRatio | workers/workers.py:156-161 | the integer test 5·valid ≥ 2·max(n, 1) is the ratio test valid / max(n, 1) ≥ 0.4 |
| TextPipeline.SensibleBounds | workers/workers.py:158-161 | a string without tokens is never sensible; one with at least one token, all of them words, always is |
| TextPipeline.FilterSensible | workers/workers.py:165-166 | the comprehension as a filter by IsSensible; FilterSensibleExact states its effect |
| TextPipeline.FilterSensibleExact | workers/workers.py:165-166 | the filter keeps exactly the sensible strings, each as often as it occurs, in order |
| Extraction.Aggregated | workers/workers.py:188-197 | the chapter text for the filtered pages: the joined contributions with apostrophes deleted; Aggregate is proved against it, and JoinedConcat, EmptyPageContributesNothing, NoApostrophe and SeparatorsCountPages state its properties |
| Extraction.Aggregate | workers/workers.py:180-199 | the accumulator loops build the specified chapter text |
| Extraction.JoinedConcat | workers/workers.py:188-195 | pages are processed in order: the text of a split page list is the two texts concatenated |
| Extraction.AggregatedConcat | workers/workers.py:188-197 | the same holds after apostrophe deletion |
| Extraction.EmptyPageContributesNothing | workers/workers.py:188-189 | an empty page contributes nothing wherever it stands |
| Extraction.NonEmptyPageContributes | workers/workers.py:189-195 | a non-empty page adds one 11-character 'new page - ' marker per string plus the strings themselves, starting with a marker and ending with ' \| ' |
| Extraction.AllEmptyGivesEmpty | workers/workers.py:188-197 | when every page is empty the chapter text is "" |
| Extraction.NoApostrophe | workers/workers.py:197 | the chapter text has no apostrophe, and every other character of the joined text survives |
| Extraction.SeparatorsCountPages | workers/workers.py:188-197 | when no string contains '\|', the text has exactly one '\|' per non-empty page |
| Extraction.PageStrings | workers/workers.py:184-185 | the strings one page yields: formatted, stripped, cleaned and filtered; ProcessPage is proved against it and PageStringShape states their shape |
| Extraction.ProcessPage | workers/workers.py:184-185 | one page goes through OCR, formatting, noise stripping in place, clean_text and the sensibility filter, giving the strings the page pipeline specifies |
| Extraction.ExtractionEngine | workers/workers.py:170-199 | the engine's loops return the chapter text of the per-page pipeline, in page order |
| Extraction.PageStringShape | workers/workers.py:184-185 | every string a page yields is a sensible, stripped paragraph of the recognised text, with no line break, listed symbol or digit |
| Extraction.ExtractedShape | workers/workers.py:184-197 | the chapter text has no apostrophe and exactly one '\|' per page that kept a string |

## Left out

- SQL, psycopg2 connections, cursors and commits are replaced by in-memory tables. A commit/rollback unit is all-or-nothing and modelled by failure positions. Rows come back in table order, where SQL promises no order without ORDER BY.
- Worker.Complete: add_extracted_text is one atomic step in the model, but its three updates commit one by one (chapter, vitals, dispatcher), and the dispatcher can run between them. Between the second and third commits the worker is idle while its lease is still pending, so Consistent does not hold there. Protocol.CompleteMidwayBreaksInvariant shows that an assignment pass in that window gives the worker a second pending lease, and that a reassignment in that window sets the done chapter back to '0'. The preservation lemmas about Complete cover only the finished step. A crash between the commits is not modelled either.
- After a failed lookup, reassignment does not roll back, so PostgreSQL rejects the later statements of that transaction. The model only skips the failing worker.
- Dates and time: datetime.now() is the `now` parameter. time.sleep, logging, dotenv loading and the 10-second backoff are left out.
- The daemon loops: one iteration of each `while True` loop is modelled. The worker's main loop is the composition of Heartbeat, CheckTask, ExtractionEngine and AddExtractedText and is not stated as one member.
- death_notification and workers_in_email are left out: e-mail over SMTP, with its call sites disabled in the source.
- extract_text_from_image (HTTP, PIL, tesseract) is the `ocr` oracle. Its "Error: ..." string flows through the pipeline like any text.
- nostril.nonsense, nltk.word_tokenize and words.words() are the `nonsense`, `tokenize` and `isWord` oracles, modelled as total functions. The classifier's own exception on very short input is not modelled.
- Extraction.ExtractionEngine: the chapter's page list, read in the source with a SELECT on `chapters`, is a parameter.
- TextPipeline.IsSensible: the float ratio is replaced by the exact integer inequality, and SensibleIsRatio proves the two agree in exact arithmetic. Floating-point rounding at the threshold is not modelled.
- TextPipeline.StripNoise: Python's Unicode `\d` is approximated by the ASCII digits '0'..'9'.
- WorkerIds.ParseId: int() is modelled on plain digit strings. Signs, surrounding whitespace and underscores, which int() also accepts, parse as a failure.
- WorkerIds.MaxLex: the text column's collation is taken to be character-code order.
- Worker.RegisterAddsNewWorker: freshness is proved only while every id has nine digits. Once ids reach "1000000000", the greatest id in text order is "999999999", and generate_id would produce an existing id.
- Protocol.RegisterKeepsConsistent: proved under the same nine-digit restriction.
- Protocol.RolledBackMarkDoublesLease: a chapter can hold two online pending leases. When the update marking a dead worker offline is rolled back, reassignment still requeues the worker's chapter, and the next assignment pass leases it again. So "a job has at most one active lease" is not an invariant of the code; Jobs proves it only for iterations whose marking updates commit.
- Jobs.LoopStepKeepsJobsExclusive: requires that every marking update commits, which is the case Protocol.RolledBackMarkDoublesLease shows to be needed. The job invariant also requires distinct chapter ids.
- Protocol.CompleteKeepsConsistent: requires that the completed chapter is the one check_task returned to the worker, which is how the worker's main loop calls it. Jobs.CompleteKeepsJobsExclusive has the same requirement.
- Status is not equivalent to pending leases. A worker's status '1' is often described as equivalent to holding exactly one pending lease, but the code does not keep that: a worker marked offline keeps its lease. The model follows the code. Consistent requires idle ⇒ none, busy ⇒ one, offline ⇒ at most one, and Protocol.OfflineWorkerKeepsLease exhibits the offline case.
