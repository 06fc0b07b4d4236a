# A verified model of the collaboration host

The host keeps tickets, their event log and their acceptances in PostgreSQL; it follows discovered candidates in
batches, moves collaborations along a line of stages, meters token usage against monthly budgets, runs exams, streams
a model's answer while it is being written, serves tools over standard input, prints an import file, and cuts avatars
out of a sprite strip. This project models the hard core of each of these in Dafny and proves what holds over every
input, every run or every interleaving.

| files | component |
|---|---|
| `TicketContract`, `TicketRows` | lifecycle commands, event rows, and what one transaction plans from what it reads |
| `TicketMeaning` | what each request does to the rows, column by column, and when it is taken |
| `TicketInvariants`, `TicketConcurrency`, `TicketTheorems` | what every write keeps; snapshots, conflicts and retries; the results over all interleavings |
| `TicketTables` | the tables themselves, changed step by step, proved against the plans |
| `GridPaths`, `GridComponents`, `GridSilhouette` | paths on a pixel grid, component labelling, the border flood and the filled silhouette |
| `Narrative`, `Stdio` | a JSON string field read from a growing buffer; lines cut from chunks and handled in order |
| `WorkerPool`, `FollowBatch` | workers over a shared cursor; the batch built on them |
| `Stages`, `StageOptions`, `StageGraph` | stage pointers, offered targets, checklist and remote syncs; the confirmation list; the product graph |
| `Calendar`, `Costs` | month windows at +08:00; usage, budgets and the gate |
| `Exams`, `ExamPasses` | snapshots, attempts and qualifications under interleaved requests; exactly which runs keep passes and qualifications |
| `ExamStore`, `ExamMeaning` | the tables of one request at a time; what each request does to them |
| `ImportCsv` | the CSV printer and its reader |

A transaction of the ticket store reads from a snapshot taken when it begins. It is told to retry when the ticket row
it writes was written since (section 13.2.2 of the PostgreSQL documentation); the store asks for the stronger
serializable level, and the results need no more than this. Everything about tickets is stated for arbitrary
interleavings of lifecycle commands, plain appends and trace upserts on any number of tickets, with an arbitrary row
cap. `Serial` runs the same requests one after the other, and the main theorem says that what committed is exactly
such a run. A request draws its row id and its time from outside; both are parameters.

The stage algebra is stated over an arbitrary line of stages without duplicates, an arbitrary alias table and
arbitrary policies; the shipped tables and the shipped graph are given as constants and proved to meet what the
general results ask. Codes are a datatype with one constructor for each code the source names and `Other` for the rest.

## What the proofs brought to light

- The value-preserving write on the ticket row is needed: without it two trace writers pick the same number
  (`TicketWriteIsNeeded` gives the run).
- Lifecycle rows are never refused by the row cap, but they count towards it.
- A well-formed, allowed command that names the version a ticket shows is written exactly when the stored version is
  not 0: 0 is shown as 1, and the update then looks for 1. The column defaults to 1, the code that creates tickets
  writes 1, and no run leads back to 0, so only a row put in by other means is stuck (`FreshCommandIsWrittenExactlyWhen`,
  `PendingAtVersionZero`, `VersionsStayPositive`).
- A re-sent command that is well formed is answered from its receipt. Whether its version is the current one, who sends
  it and what evidence it carries play no part then; that it names a version and carries evidence is still asked first.
- The answer of a trace upsert that rewrites a row shows the caller's run. It is the stored row exactly when the row
  had no run yet, or the run kept there is the caller's (`AnswerIsStoredRowExactlyWhen`, `AnswerHidesTheKeptRun`).
- A writer that names the empty run passes the run check and is then refused by the foreign key, unless it rewrites a row
  that keeps a run of its own; it is answered as if nothing had been there to write.
- The streamed narrative drops the short escapes for carriage return, backspace and form feed, but not the same
  characters written as `\u` escapes; it shows the JSON value exactly when none of the three short escapes occurs.
- The confirmation list and the graph agree on every named stage. They part on the graph's own `exception` node, on
  reasons for returns (the gate asks for one, the form does not), and automatic targets offer completion after
  settling, which the gate forbids to facts (`ExceptionNodeIsWritten`, `ReturnWithoutReason`, `FactsMayNotComplete`).
- An unconfirmed row that was lost comes back to the line with the next remote sync.
- A budget accepts the expected version 0 twice: from the change that creates it and from the first change after it.
  Two changes that name one version are both stored exactly then (`SameVersionIsStoredTwiceExactlyWhen`).
- A published paper keeps its exam's pass score exactly when that is not zero; zero reads as eighty, so an attempt without
  a correct answer fails an exam that asks for nothing (`OwnPassScoreExactlyWhen`, `ZeroPassScoreFails`).
- Two submissions of one open attempt that both read before either writes can take a pass back: the grading update
  does not ask for the attempt to be open still. `ExamPasses` says of every run exactly when graded rows stay, when a
  passed assignment stays out of the missing ones, and when qualifications keep their passes; asking for the row to be
  open is enough for all three (`GuardedRunsLoseNothing`).
- A CR at the end of an account is not quoted, so a reader that takes CRLF for a record's end loses it.

## Model

| member | source | states |
|---|---|---|
| TicketContract.AllowedActionsMeaning | backend/src/ticket-lifecycle-contract.ts:34-43 | an action is allowed iff: reopening, from completed; accepting, from pending; cancelling, from pending, queued, waiting or needing clarification; completing, from accepted, waiting, waiting for approval or in progress; and none leads back to its own status |
| TicketMeaning.ValidExactlyWhen | backend/src/ticket-lifecycle-contract.ts:45-58 | a command is well formed iff its version is at least 1, its key has 8 to 200 characters, a completion brings an object as evidence and a reopening a reason that is not blank; each complaint is made exactly for its own lack |
| TicketMeaning.CommandIsDoneExactlyWhen | backend/src/ticket-lifecycle.ts:18-64 | run alone, a command is carried out iff it is well formed, its ticket exists, its key and the event id are new, it names the stored version, and the stored status allows its action |
| TicketMeaning.CommandIsRefusedWith | backend/src/ticket-lifecycle.ts:17-64 | otherwise no table changes, and the answer is the receipt of the key or the first refusal that applies, each by its own condition |
| TicketMeaning.AcceptLeaves | backend/src/ticket-lifecycle.ts:52-149 | an accepted ticket: status, version, owner, completion time, the `task.claimed` event in every column, the receipt, and no other row of any table changed |
| TicketMeaning.CompleteLeaves | backend/src/ticket-lifecycle.ts:52-149 | the same for a completion: dated now, `task.accepted`, the evidence with owner, actor and event in the acceptance row and once more, under the next version, in the history |
| TicketMeaning.CancelLeaves | backend/src/ticket-lifecycle.ts:52-149 | the same for a cancellation: `task.cancelled`, with the first 1000 characters of the reason where one is given |
| TicketMeaning.ReopenLeaves | backend/src/ticket-lifecycle.ts:52-149 | the same for a reopening: pending and undated, `task.reopened`, the acceptance row gone and its history kept |
| TicketMeaning.ClassOfKind | backend/src/task-events.ts:12-16 | an event type is legacy iff it is one of the two retired ones, a run trace iff it lacks the prefix, and a lifecycle fact otherwise |
| TicketRows.LifecycleKindsAreLifecycle | backend/src/ticket-lifecycle.ts:78-79 | the class written by hand on the event of each command is the class its event type has by the shared rule |
| TicketInvariants.MaxSequenceIsAbove | backend/src/task-events.ts:49-55 | no row is numbered above what the number query reads, whatever the numbers are |
| TicketInvariants.UpdateKeepsLog | backend/src/task-events.ts:136-143 | rewriting a trace row keeps the numbering, the unique keys and the cap, and changes no lifecycle row and no row's number, time, class or key |
| TicketInvariants.ExecuteKeepsAll | backend/src/ticket-lifecycle.ts:18-150 | any request run alone keeps the whole invariant of log, acceptance, history, receipts and versions, and only advances the tables |
| TicketConcurrency.SamePlan | backend/src/task-events.ts:39-45 | a snapshot that is still true of the target ticket leads to the plan the current tables lead to, unless the command's key was used on another ticket meanwhile |
| TicketConcurrency.CommitIsSerial | backend/src/ticket-lifecycle.ts:10-15 | a transaction that commits leaves the tables, and gives the answer, that it would have running alone at that moment |
| TicketConcurrency.RunKeepsSystem | backend/src/task-events.ts:23-26 | every interleaving keeps the ledger invariant and the truth of every running snapshot whose ticket was not written |
| TicketTheorems.SnapshotRunIsSerial | backend/src/ticket-lifecycle.ts:10-15 | after any interleaving the tables are those of the serial run of what committed, in commit order, with the same answers |
| TicketTheorems.AloneItCommits | backend/src/task-events.ts:92-110 | at any point of a run, a transaction that begins and ends undisturbed commits with the tables and the answer of running alone |
| TicketTheorems.RetriesHaveARival | backend/src/task-events.ts:23-26 | a transaction is told to retry only if another one on its ticket committed since it began |
| TicketTheorems.SequenceNumbersAreGapless | backend/src/task-events.ts:49-55 | after any interleaving the numbers of a ticket are exactly 1 to n, each on one row |
| TicketTheorems.TicketIndexesNeverFire | backend/src/task-events.ts:39-45 | with the ticket write, a transaction that is not told to retry never meets the unique indexes on number and item key |
| TicketTheorems.TicketWriteIsNeeded | backend/src/task-events.ts:39-45 | a concrete run: without the ticket write the second writer violates the unique index, with it the writer is told to retry |
| TicketTheorems.AtMostOneCommandPerVersion | backend/src/ticket-lifecycle.ts:38-64 | in any interleaving, of two commands on a ticket with different keys and one expected version at most one commits |
| TicketTheorems.RunsOnlyAdvance | backend/src/task-events.ts:6-9 | between any two points of a run no row is lost or renumbered, lifecycle rows are fixed, history and receipts only grow, cancelled and failed tickets stay |
| TicketTheorems.LedgerAfterAnyRun | backend/src/ticket-lifecycle.ts:52-149 | an acceptance exists iff the ticket is completed iff its completion time is set, and is the newest history row; history versions are 1 to k; completions minus reopenings is 0 or 1; the version counts the receipts; each receipt's event exists; traces stay within the cap; each item key is on at most one row |
| TicketTheorems.DoneLeavesReceipt | backend/src/ticket-lifecycle.ts:127-149 | a committed command's receipt is stored and no later run changes it |
| TicketTheorems.RedeliveryReplays | backend/src/ticket-lifecycle.ts:26-36 | a command sent again, at any later point and with any version, changes nothing and gets its first receipt |
| TicketTheorems.ExactlyOnce | backend/src/ticket-lifecycle.ts:26-36 | a serial run with any number of re-deliveries leaves the tables of the run without them |
| TicketTheorems.ExactlyOnceInEveryRun | backend/src/ticket-lifecycle.ts:26-36 | after any interleaving, however many commands were re-sent in it, the tables are those of the serial run of what committed without the re-sends |
| TicketTheorems.FreshCommandIsWrittenExactlyWhen | backend/src/ticket-lifecycle.ts:38-64 | a new, well-formed, allowed command that names the version shown is written iff the stored version is not 0, and otherwise refused as a version conflict that changes nothing |
| TicketTheorems.VersionZeroTakesNoCommand | backend/src/ticket-lifecycle.ts:38-64 | with the version stored as 0 no command at all is written, whatever it names |
| TicketTheorems.PendingAtVersionZero | backend/src/ticket-lifecycle.ts:38-64 | the concrete pending ticket whose acceptance at the version it shows is refused |
| TicketTheorems.VersionsStayPositive | backend/src/ticket-lifecycle.ts:54-61 | over every interleaving a ticket created at version 1 or above stays above 0 |
| TicketMeaning.AppendAdmission | backend/src/task-events.ts:63-110 | an append is written iff its ticket exists, the run it names, if any, is a stored run of the ticket, the empty run being none, and it is a lifecycle fact or the ticket is under the cap; its row is the last one, with the drawn id and time, the run, type and class, at most 160 characters of the title, the status, at most 1000 of the summary or none, no item key and the next number; nothing else changes |
| TicketMeaning.UpsertWritesExactlyWhen | backend/src/task-events.ts:115-159 | an upsert is refused iff it has a key and its type is no trace; it is written iff it has a key, its ticket and run are there, and a row has the key or there is room; a rewritten row that keeps a run of its own takes the empty run too |
| TicketMeaning.UpsertLeaves | backend/src/task-events.ts:124-154 | after an upsert that wrote: the row with the key has the caller's type, title, status and summary and its old run where it had one, and keeps its id, number, class, key and time; or one new trace row in every column; every other row is as it was, and the answer carries those columns |
| TicketTheorems.UpsertIsKeyed | backend/src/task-events.ts:124-154 | after an upsert that wrote, its key is on exactly one row, whose number and time are those of the key's first appearance |
| TicketTheorems.AnswerIsStoredRowExactlyWhen | backend/src/task-events.ts:131-153 | the answer of an upsert that wrote is the stored row iff the row is new, or had no run before, or keeps the run the caller names |
| TicketTheorems.AnswerHidesTheKeptRun | backend/src/task-events.ts:138-142 | a concrete upsert that names no run, on tables whose row with that key keeps a run: it is written, the answer shows no run, the stored row still has it |
| TicketTheorems.SerialKeepsAll | backend/src/ticket-lifecycle.ts:16-151 | over any serial run the invariant holds and every later state extends every earlier one |
| TicketTables.Tables.LockTarget | backend/src/task-events.ts:32-47 | answers whether the ticket exists and owns the run, and leaves every table as it was, the written ticket row included |
| TicketTables.Tables.NextSequence | backend/src/task-events.ts:49-55 | the greatest number of the ticket's rows plus one, found by going over them |
| TicketTables.Tables.Precheck | backend/src/ticket-lifecycle.ts:19-50 | the checks stop exactly the commands whose plan writes nothing, with that plan's answer |
| TicketTables.Tables.Record | backend/src/ticket-lifecycle.ts:52-149 | the whole new state of the five tables after the writes of an admitted command, the other tickets' rows unchanged |
| TicketTables.Tables.TransitionTicketLifecycle | backend/src/ticket-lifecycle.ts:16-151 | the table-by-table command comes to the planned transaction run alone, for which the invariants and theorems are proved |
| TicketTables.Tables.AppendTaskEvent | backend/src/task-events.ts:63-110 | the same for a plain append |
| TicketTables.Tables.UpsertTaskEvent | backend/src/task-events.ts:115-159 | the same for a trace upsert, rewritten in place or inserted |
| TicketTables.Tables.RewriteRow | backend/src/task-events.ts:136-143 | the update by id reaches the row with the key and no other |
| GridComponents.GrowComponent | scripts/extract_lucas_avatars.py:28-40 | the queue loop ends with the list of one whole component, without duplicates, and everything seen is closed under neighbours |
| GridComponents.Components | scripts/extract_lucas_avatars.py:20-41 | the lists are the components of the foreground: each connected and closed, together covering it, pairwise disjoint, in raster order of their first pixels |
| GridComponents.TogetherIffJoined | scripts/extract_lucas_avatars.py:34-38 | two foreground pixels are in one list iff a 4-connected foreground path joins them |
| GridComponents.ComponentsAreUnique | scripts/extract_lucas_avatars.py:20-41 | the mask alone determines the lists, up to the order behind each first pixel |
| GridSilhouette.BorderQueue | scripts/extract_lucas_avatars.py:84-88 | the queued cells are all the border cells, and nothing else inside the crop |
| GridSilhouette.FillOutside | scripts/extract_lucas_avatars.py:81-96 | the flood ends although cells are queued repeatedly, and marks exactly the unset pixels that unset pixels join to the border |
| GridSilhouette.BoundsOf | scripts/extract_lucas_avatars.py:70-72 | the box is the tightest one around the points |
| GridSilhouette.PickBody | scripts/extract_lucas_avatars.py:58-69 | the body is the largest list that stays off the edge, the first of equals; none iff all touch the edge |
| GridSilhouette.DrawBody | scripts/extract_lucas_avatars.py:75-78 | the loop over the body leaves a band mask whose set pixels are exactly the body's |
| GridSilhouette.CropBody | scripts/extract_lucas_avatars.py:75-79 | drawn on the band and then cropped, a pixel is set iff its place in the band is in the body; the box lies inside the band |
| GridSilhouette.BodySurrounded | scripts/extract_lucas_avatars.py:61-63 | around an off-edge body's box there is background, so the crop's border is outside in the band too |
| GridSilhouette.SameHole | scripts/extract_lucas_avatars.py:84-97 | a crop pixel reaches the crop's border iff its place reaches the band's border: cropping neither makes nor opens a hole |
| GridSilhouette.FillBody | scripts/extract_lucas_avatars.py:74-97 | the filled mask is the body and exactly the background it cuts off from the band's border |
| GridSilhouette.LargestOfAll | scripts/extract_lucas_avatars.py:69 | choosing among the listed components is choosing among all off-edge components of the mask |
| GridSilhouette.ExtractSilhouette | scripts/extract_lucas_avatars.py:57-97 | end to end: the result is a largest off-edge component with its box and its holes filled, and there is none only when every component touches the edge |
| Narrative.OpensAtIsPattern | shared/narrative.ts:8 | the greedy scan finds an opening at a place iff the regular expression's pattern is there, and at one end only |
| Narrative.LeftmostStays | shared/narrative.ts:8 | the leftmost key match of a buffer stays the leftmost when the buffer grows |
| Narrative.StreamingNarrative | shared/narrative.ts:6-32 | there is an answer iff the key's pattern occurs in the buffer, and it is the decoding of what follows the first place where it occurs |
| Narrative.NarrativeGrows | shared/narrative.ts:6-32 | however the buffer grows, and wherever it was cut, what was shown is a prefix of what is shown |
| Narrative.EverythingReadIsShown | shared/narrative.ts:11-31 | of a value cut anywhere, all that stands before the closing quote, the end or an unfinished escape is shown, piece by piece as the escapes mean |
| Narrative.EveryTextIsRead | shared/narrative.ts:11-31 | and every buffer is such pieces and such a place to stop |
| Narrative.HexIsRead | shared/narrative.ts:23-27 | four hexadecimal digits in either case are read as the number they write |
| Narrative.HexDigits | shared/narrative.ts:24 | a unit is taken for a hexadecimal digit iff it is one of the ten figures or of the six letters in either case |
| Narrative.DecodesJsonString | shared/narrative.ts:11-31 | a closed JSON string, escapes spelled in any valid way, decodes to its value without the dropped escapes, whatever follows |
| Narrative.ShownExactly | shared/narrative.ts:28 | the text shown is the JSON value iff no short escape for carriage return, backspace or form feed occurs |
| Narrative.FirstFieldIsRead | shared/narrative.ts:8-31 | the first narrative field of a document is the one that is shown |
| Narrative.FirstFieldWithoutQuotes | shared/narrative.ts:1-5 | a field with no quote before it, as in an object's first place, is that first field |
| Narrative.RoundTrip | shared/narrative.ts:11-31 | any text, escaped as in section 7 of RFC 8259 and placed as the first field, is shown without carriage returns, backspaces and form feeds |
| Narrative.EveryCutShowsPrefix | shared/narrative.ts:19-23 | at every cut of such a document nothing yet or a prefix of the final text is shown |
| Stdio.CutAtNewlines | backend/mcp/stdio.ts:22-24 | lines and tail put together again are the stream, and none of them holds a newline |
| Stdio.CutIsUnique | backend/mcp/stdio.ts:22-24 | there is only one way to cut a stream so |
| Stdio.HandledMeans | backend/mcp/stdio.ts:24-25 | a line is handled unless it is all white space, and then trimmed; lines are handled one after the other |
| Stdio.FramesInPieces | backend/mcp/stdio.ts:19-24 | framing a stream in two pieces, the tail carried over, gives the lines and the tail of the whole |
| Stdio.Framer.OnData | backend/mcp/stdio.ts:19-29 | one chunk leaves the tail in the buffer and adds the trimmed non-blank lines, in order, to the chain |
| Stdio.Feed | backend/mcp/stdio.ts:16-29 | for every way of cutting the input into chunks, the lines handled are those of the whole input |
| Stdio.HandlersRunOneAtATime | backend/mcp/stdio.ts:25-27 | in every schedule of arriving chunks, starts and settlements, handlers start in arrival order, each once, never two at a time, failures included |
| Stdio.ChainHoldsTheStream | backend/mcp/stdio.ts:16-29 | whatever handlers run in between, the chained lines are the handled lines of everything received, and the buffer is its tail |
| Stdio.StartedLinesAreTheStreams | backend/mcp/stdio.ts:16-29 | the lines whose handlers were started in any run are a prefix of the trimmed non-blank lines of the stream |
| Stdio.SomeHandlerCanMove | backend/mcp/stdio.ts:25-27 | the chain never gets stuck before the last handler has settled |
| WorkerPool.RunKeepsPool | backend/src/discovery.ts:1077-1090 | every interleaving keeps: claimed items are held by one worker or delivered with their own answer, and no one stops before the cursor is at the end |
| WorkerPool.ClaimsInOrder | backend/src/discovery.ts:1082-1085 | every run claims 0, 1, 2 and so on: no item twice, none skipped |
| WorkerPool.RunsAreBounded | backend/src/discovery.ts:1081 | at every point of every run at most as many items are in flight as there are items, and at most the limit, a limit below 1 counting as 1; a run has at most three turns per item |
| WorkerPool.AnyNumberIsInFlight | backend/src/discovery.ts:1081-1085 | and the bound is reached: every number up to it is the number in flight after some run |
| WorkerPool.SomeWorkerCanMove | backend/src/discovery.ts:1082-1088 | until all workers are through, one can move |
| WorkerPool.QuietRunsAreComplete | backend/src/discovery.ts:1088-1089 | a run that ends has each item's answer in its own place, whatever the interleaving |
| WorkerPool.RunLimited | backend/src/discovery.ts:1077-1090 | under an arbitrary scheduler what the pool did is a run that never has more in flight than the limit and the items allow; it ends with the answers of all items in order, or fails iff some answer failed |
| FollowBatch.ScreenAll | backend/src/discovery.ts:1120-1146 | the screening loop gives the admitted, the refused with their codes and the duplicates, each in candidate order |
| FollowBatch.ScreeningAccounts | backend/src/discovery.ts:1120-1146 | each candidate is in exactly one of the three lists, as often as it was loaded |
| FollowBatch.AdmittedAreScreened | backend/src/discovery.ts:1120-1146 | a candidate is admitted iff it was loaded, is not of the home kind, was not dismissed, fails no filter, and is not followed already with a real collaboration |
| FollowBatch.DuplicatesAreFollowed | backend/src/discovery.ts:1141-1144 | a candidate is skipped iff it was loaded, passes all that, and is followed already with a real collaboration |
| FollowBatch.FailuresHaveTheFirstObjection | backend/src/discovery.ts:1121-1139 | a candidate fails with a code iff it was loaded and that is the code of the first objection: home kind, then dismissal, then filter |
| FollowBatch.ScreeningKeepsOrder | backend/src/discovery.ts:1120-1146 | screening two batches one after the other puts their lists one behind the other |
| FollowBatch.EachInItsOwnList | backend/src/discovery.ts:1241-1245 | a candidate is among the followed, skipped or failed with a code iff that is how its own place ended |
| FollowBatch.EndingsKeepOrder | backend/src/discovery.ts:1241-1245 | and each of these lists keeps the order of the admitted |
| FollowBatch.Distribute | backend/src/discovery.ts:1241-1245 | the outcomes extend the three lists in order |
| FollowBatch.EndingsAccount | backend/src/discovery.ts:1241-1245 | each admitted candidate ends in exactly one list |
| FollowBatch.BatchAccounts | backend/src/discovery.ts:1110-1275 | screening and endings together: followed, failed and skipped add up to the candidates loaded, none lost and none twice |
| FollowBatch.FollowCandidatesBatch | backend/src/discovery.ts:1110-1275 | refused without consent; a preview follows no one; a confirmed batch never has more than three follows in flight, accounts for every candidate, and its three lists are those of the screening and of each admitted candidate's own outcome, whatever the interleaving |
| Stages.ShippedCatalogIsWellFormed | backend/src/stages.ts:26-91 | the shipped line, next-stage table, side stages and aliases agree with each other |
| Stages.OldCodesResolve | backend/src/stages.ts:82-95 | each of the eight old codes is read as its present stage, every other code as itself |
| Stages.FindEvidencedPointer | backend/src/stages.ts:498-516 | the loop gives the pointer and the completed list that the results below are about |
| Stages.PointerPassesOnlyEvidence | backend/src/stages.ts:493-516 | from a main stage everything strictly before the pointer is evidenced and reported; the pointer ends the evidenced stretch, or is the next stage where there is none, and leaves the line, for the completion, only from the last stage |
| Stages.NoPointerOffTheLine | backend/src/stages.ts:498-504 | off the line there is no pointer and nothing reported |
| Stages.EvidenceCounts | backend/src/stages.ts:439-445 | a stage is evidenced iff it is a main or side stage and some item of the list names it, by its own code or an old alias |
| Stages.PointerIsMonotone | backend/src/stages.ts:498-516 | more evidence never moves the pointer back |
| Stages.AutoLegalTargets | backend/src/stages.ts:214-227 | the successor and the five side exits, each once; every main stage from a bypass; nothing from a final stage |
| Stages.LegalTargetsWithEvidence | backend/src/stages.ts:452-482 | the loop and the splice give the target list that the results below are about |
| Stages.PointerIsOffered | backend/src/stages.ts:452-516 | the evidenced pointer is always among the targets offered for the completed list returned with it |
| Stages.OnlyCompletedStagesAreSkipped | backend/src/stages.ts:447-482 | a main stage is offered iff it is the next one, or the first open one with everything before it completed |
| Stages.TargetsInOrder | backend/src/stages.ts:452-482 | the whole list from a main stage, in order: the next stage or the completion, the first open stage where it is a later one, the five side exits; without it the automatic targets |
| Stages.TargetsOffTheLine | backend/src/stages.ts:452-459 | from paused or disputed the whole line in order, from any other code off the line nothing |
| Stages.ChecklistSplits | backend/src/stages.ts:519-550 | with the pointer's completed list the checklist reads done, current, done, pointer, then blocked exactly where evidenced |
| Stages.ChecklistWithPointer | backend/src/stages.ts:519-550 | the status and note of every stage for a pointer the caller gives and any completed and evidenced lists |
| Stages.ExceptionBlocksWhatFollows | backend/src/stages.ts:535-544 | while an exception stands, everything behind a main stage is blocked and nothing up to it is, whatever the evidence and the pointer |
| Stages.MergeMeaning | backend/src/stages.ts:158-174 | one sync, for any version: the later of two main stages; a remote off the line always taken; a row off the line brought back iff it was never confirmed; a missing code yields to the other one, and two missing codes to the first stage |
| Stages.LossIsTakenForGood | backend/src/stages.ts:153-174 | over any run of syncs, a remote off the line is the row's next stage, and a confirmed row is off the line ever after |
| Stages.SyncsNeverRegress | backend/src/stages.ts:153-174 | a confirmed row under any syncs, its stored code an old alias or not: main stages that never go back, and once off the line, off it for good |
| Stages.OffTheLineReturns | backend/src/stages.ts:158-174 | one sync takes a row from off the line back to it iff the remote is a main stage and the row was never confirmed |
| Stages.UnconfirmedRowIsRevived | backend/src/stages.ts:158-174 | a concrete lost row that comes back, and does not once it is confirmed |
| Stages.MainSyncsTakeTheMaximum | backend/src/stages.ts:158-174 | syncs that stay on the line end at the furthest stage seen, for any version |
| Stages.SyncOrderIsIrrelevant | backend/src/stages.ts:158-174 | rows that saw the same remote main stages, in any order and number, end alike |
| StageOptions.StageConfirmOptions | backend/src/stages.ts:293-334 | the loops and the stable sort show the step ahead, the skips in line order, the corrections in line order, then the exceptions |
| StageOptions.OffersByPlace | backend/src/stages.ts:293-334 | a stage is on the list with a kind iff the places of the two stages on the line give that kind |
| StageOptions.ShownInOrder | backend/src/stages.ts:293-334 | the codes of the list from a main stage, in order: the next stage or the completion, the later ones, the earlier ones, then paused, disputed, lost, rejected, cancelled |
| StageOptions.ShownOffTheLine | backend/src/stages.ts:293-299 | from paused or disputed the whole line in order, from any other code off the line nothing |
| StageOptions.OptionsAreDressed | backend/src/stages.ts:253-334 | an option's track and note follow from its kind; a skip's note says that only sample stages are passed over iff that is so, and else lists exactly the stages in between |
| StageGraph.KindsAgree | backend/src/stage-transitions-graph.ts:125-148 | the graph classifies every move between named stages as the list does, but for returns out of a final exception |
| StageGraph.DecisionMeaning | backend/src/stage-transitions-graph.ts:176-227 | a decision is `ok` iff the move is allowed, `same_stage` iff the stages are equal, `unknown_node` iff they differ and the move is unknown; approval is asked for iff the normalized target is among the approvals and differs from the start; and allowed, forbidden, reason and approval agree with the flags shown |
| StageGraph.GatePassesExactlyWhen | backend/src/stage-transitions-graph.ts:230-267 | the gate passes iff the stages are equal or the move is allowed and any reason it asks for is not blank; otherwise the refusal names its cause |
| StageGraph.LineOfEdgesMatches | backend/src/stage-transitions-graph.ts:96-110 | a file whose edges are the steps of the line is about that line, whether it names the three sets of side stages or leaves them out |
| StageGraph.OptionsAreTheAllowedStages | backend/src/stage-transitions-graph.ts:176-227 | under a policy that fits, a person is shown exactly the named stages the gate allows |
| StageGraph.OptionKindsMatch | backend/src/stage-transitions-graph.ts:176-227 | the decision's kind is the one the option is listed with, under any policy |
| StageGraph.AgreementNeedsThePolicy | backend/src/stage-transitions-graph.ts:150-165 | on a line of three stages or more, list and gate agree on all named stages iff the policy grants the five human kinds and not leaving a final exception |
| StageGraph.OnlyTheExceptionNodeDiffers | backend/src/stage-transitions-graph.ts:112-123 | over all codes, list and gate differ exactly on moves between a main stage and the graph's exception node |
| StageGraph.ReasonsAgreeButForReturns | backend/src/stages.ts:341-344 | without a reason the gate passes an offered stage iff the form asks for none and it is no return; with one it passes every offered stage |
| StageGraph.AutoTargetsAreTheAllowedStages | backend/src/stages.ts:213-227 | what facts may write and what the gate lets them write agree on all named stages but the edge from settling to completed |
| StageGraph.ExceptionNodeIsWritten | backend/src/stage-transitions-graph.ts:112-123 | in the shipped graph the gate lets a person write the exception node from a main stage, and the list never offers it |
| StageGraph.ReturnWithoutReason | backend/src/stage-transitions-graph.ts:256-264 | in the shipped graph a paused row may be taken back to the first stage, for which the form asks no reason and without one the gate refuses |
| StageGraph.FactsMayNotComplete | backend/src/stages.ts:213-227 | in the shipped graph completion is an automatic target of settling that the gate refuses to facts |
| StageGraph.FinalIsAbsorbing | backend/src/stage-transitions-graph.ts:230-267 | over every run of attempts by people and facts, completed is never left, and a final exception is not when no policy grants it |
| StageGraph.FinalIsAbsorbingExactlyWhen | backend/src/stage-transitions-graph.ts:155-157 | a final exception is absorbing over every run iff neither policy grants leaving one |
| StageGraph.ShippedGraphFits | config/stage-transitions.json:1-80 | the shipped graph is about the shipped line and its policies meet every condition used above |
| StageGraph.ApprovalsAgree | backend/src/stages.ts:203-212 | in the shipped files the gate asks for approval exactly of the moves to another stage that the stage table gives an approval of its own |
| Calendar.YearLength | backend/src/costs.ts:86 | the day counts of consecutive years differ by the length of the leap or common year |
| Calendar.MonthLengths | backend/src/costs.ts:86 | the months have the lengths of the Gregorian calendar, counted from January 1970 |
| Calendar.DayIsInItsMonth | backend/src/costs.ts:84-99 | a day lies between a month's first day and the next month's iff the calendar reads that month off it |
| Calendar.ShiftAdds | backend/src/costs.ts:84-88 | shifting through the calendar's days is adding months from year 100 on; below, it is adding them to the month 1900 years later |
| Calendar.ShiftIsAdditive | backend/src/costs.ts:84-88 | two shifts are one shift by the sum iff the month between them has no two-digit year |
| Calendar.WindowsTile | backend/src/costs.ts:101-106 | consecutive windows touch and are not empty |
| Calendar.InstantIsInItsWindow | backend/src/costs.ts:90-106 | an instant is in a month's window iff that month is the one on the wall at +08:00 |
| Calendar.WindowIs | backend/src/costs.ts:101-106 | a month's window runs from eight hours before its first day begins in Greenwich to eight hours before the next month does |
| Calendar.WallMonth | backend/src/costs.ts:90-99 | the month at an instant is the one whose days hold the instant eight hours later |
| Costs.UsageGrows | backend/src/costs.ts:108-129 | recorded usage only adds to every sum of every scope and window |
| Costs.EventCountsInItsMonthOnly | backend/src/costs.ts:101-160 | a recorded event adds its tokens to the sums of the month on the wall at its time, for its own scopes, and changes no other sum |
| Costs.StateMeans | backend/src/costs.ts:193-203 | the state shown is unconfigured iff there is no positive limit, and else disabled, stopped, warned or fine by usage times 100 against limit times percentage |
| Costs.GateMeans | backend/src/costs.ts:212-236 | the gate blocks for the first of company, agent and, where one is named, employee whose active budget has usage times 100 at or above limit times percentage in the month on the wall, with that usage and limit; it fails where that scope's sums are not safe; else it is open |
| Costs.ScopeBlocksIffStopped | backend/src/costs.ts:193-236 | a readable scope blocks iff the state shown for it is stopped, and reports its own usage and limit |
| Costs.OpenIffNoScopeStops | backend/src/costs.ts:220-235 | the gate is open iff no scope of its list stops and none fails to read |
| Costs.BlockNamesTheFirst | backend/src/costs.ts:211-235 | a closed gate answers for the first scope, in the order company, agent, employee, that is not open |
| Costs.RefusedForTheRestOfTheMonth | backend/src/costs.ts:211-236 | once refused, a run is refused at every instant of the month, whatever usage is recorded, while the budgets stay |
| Costs.NewMonthStartsOpen | backend/src/costs.ts:212-236 | usage of other months counts for nothing: a month without usage is open iff no active budget in the list stops at zero percent |
| Costs.UpsertStep | backend/src/costs.ts:282-323 | a change touches its own row only, moves that row's version by one or creates it at zero, and keeps every row's form |
| Costs.VersionsRise | backend/src/costs.ts:300-308 | over any run of changes a row stays and its version never goes down |
| Costs.StoredExactlyWhen | backend/src/costs.ts:282-306 | a change is stored iff its scope is one of the three, its name is not blank, its limit absent or a safe positive integer, its percentages absent or from 0 to 100 and in order, and it names no version or the row's own, 0 where there is none |
| Costs.StoredRow | backend/src/costs.ts:282-323 | a stored change leaves the given limit or none, the given percentages or 80 and 100, the switch, and the next version or 0, at its own scope and trimmed name |
| Costs.RefusedFor | backend/src/costs.ts:283-306 | any other change leaves the table and is refused for the first check it fails, each by its own condition |
| Costs.SameVersionIsStoredTwiceExactlyWhen | backend/src/costs.ts:300-306 | two admissible changes of a row with one expected version are both stored iff there was no row before the first, the version is 0, and no other change of the row is stored between them |
| Costs.NextChangeIsStoredTooExactlyWhen | backend/src/costs.ts:300-306 | with no change aimed at the row in between, both are stored iff there was no row and the version named is 0 |
| Costs.VersionZeroIsAcceptedTwice | backend/src/costs.ts:304-306 | the concrete pair of changes that are both stored |
| Costs.Store.RecordCostEvent | backend/src/costs.ts:152-160 | one event is appended with the caller's time and ids; each part is kept iff it is a safe number not below 0, and the total is the given one or else the sum of the parts kept |
| Costs.Store.UpsertBudget | backend/src/costs.ts:282-323 | the checks in their order and the write come to the specified change, and rows keep their form |
| Costs.Store.BudgetBlockFor | backend/src/costs.ts:212-236 | the loop over the scopes comes to the gate that the results above are about |
| Exams.ScoreCounts | backend/src/exam.ts:168-183 | the score is the number of items iff every item is answered correctly, and zero iff none is |
| ExamMeaning.MarkMeans | backend/src/exam.ts:167-188 | the score is the number of items with an answer that is not empty and is the key's normal form, out of all items; passed iff there are items and the rounded percentage reaches the pass score, eighty where that is zero |
| Exams.MoreCorrectAnswersKeepThePass | backend/src/exam.ts:167-188 | with any monotone rounding, answering more items correctly never lowers the score or turns a pass into a fail |
| Exams.PlanIsOk | backend/src/exam.ts:295-397 | what a request decides to write is good for the tables it read |
| Exams.WriteStaysOk | backend/src/exam.ts:295-397 | and stays good however much is written before it |
| Exams.OwnPassScoreExactlyWhen | backend/src/exam.ts:304-306 | a paper keeps its exam's pass score iff that is not zero, and a verdict is the one by the exam's own score iff that is not zero or the percentage is below 0 or at least 80 |
| Exams.ZeroPassScoreFails | backend/src/exam.ts:232-239 | the concrete exam accepted with pass score zero, on which an attempt without a correct answer fails |
| Exams.RunKeepsSystem | backend/src/exam.ts:295-397 | in every interleaving each graded mark is the mark of its answers on the snapshot of its own version, snapshots 1 to the version exist, hold accepted items only and never change, assignments and keys are unique |
| Exams.UninterruptedIsGuarded | backend/src/exam.ts:368-380 | a submission that nothing comes between grades a row that is still open |
| ExamPasses.GradedRowsAreFinalExactlyWhen | backend/src/exam.ts:368-380 | over any run from good tables graded rows stay as they are between any two points iff each grading write finds its row open, is refused by the index on keys, or writes the row already stored |
| Exams.PassesQualifyInEveryRun | backend/src/exam.ts:382-387 | in every interleaving each passing attempt has a qualification for its user, exam and version |
| ExamPasses.BecomesMissingExactlyWhen | backend/src/exam.ts:60-76 | a passed assignment is counted missing after one write iff it is required and the write fails its only passing attempt |
| ExamPasses.OncePassedNeverMissingExactlyWhen | backend/src/exam.ts:60-76 | over any run an assignment once passed is never counted missing again, whatever is published or submitted, iff no write of the run fails the only passing attempt of a required assignment |
| ExamPasses.QualificationsRestOnPassesExactlyWhen | backend/src/exam.ts:374-387 | all along a run every qualification rests on an attempt that passed with its score iff no write of the run fails the attempt a qualification rests on |
| ExamPasses.GuardedRunsLoseNothing | backend/src/exam.ts:374-380 | in a run whose grading writes all find their rows open, graded rows are final, no assignment once passed is counted missing again, and every qualification keeps its pass |
| ExamPasses.ResubmissionReplays | backend/src/exam.ts:356-367 | in runs that keep graded rows, a key with a graded attempt answers with that attempt and writes nothing, from whichever assignment it is sent |
| Exams.RacingSubmissionsLoseThePass | backend/src/exam.ts:368-388 | a concrete interleaving in which a pass is overwritten, the assignment is missing again and the qualification stays |
| ExamStore.UninterruptedNeverAborts | backend/migrations/pg-baseline.sql:3433 | on good tables no unique index refuses an uninterrupted request |
| ExamMeaning.CreateMeans | backend/src/exam.ts:232-239 | a new exam is a draft without items at version 0, with the given pass score from 0 to 100 or eighty |
| ExamMeaning.ItemsMean | backend/src/exam.ts:241-293 | an item is added behind the others, not accepted, and needs an answer; accepting it changes nothing else |
| ExamMeaning.PublishMeans | backend/src/exam.ts:295-310 | publishing is refused iff there is no item or one is not accepted; else the next version's paper holds all the exam's items and its pass score, eighty for zero, and nothing else changes |
| ExamMeaning.AssignMeans | backend/src/exam.ts:312-322 | an assignment needs a published exam and a known user, and is made once: the second time the first one is the answer |
| ExamMeaning.StartMeans | backend/src/exam.ts:324-350 | starting goes on with the newest open attempt iff it is on the current version, and else adds one empty attempt on it |
| ExamMeaning.KeyedSubmitReplays | backend/src/exam.ts:356-367 | a key that names a graded attempt of the user is answered with it and writes nothing |
| ExamMeaning.SubmitMeans | backend/src/exam.ts:352-397 | any other submission grades the newest open attempt on its own version, or adds one on the current version: the normal forms of all answers given, their mark on that paper, the key or none, and a qualification iff it passed |
| ExamStore.SerialRunsKeepAll | backend/src/exam.ts:232-397 | one request at a time, all the invariants hold, qualifications and passes match, and graded rows are final |
| ExamStore.OncePassedNeverMissingSerially | backend/src/exam.ts:60-76 | one request at a time, with no guard asked for, an assignment once passed stays passed and is counted missing for no one |
| ExamStore.Store.PublishExam | backend/src/exam.ts:295-310 | the writes come to the planned publication: a new snapshot and version, or a refusal that changes nothing |
| ExamStore.Store.AssignExam | backend/src/exam.ts:312-322 | the same for an assignment, which is made once |
| ExamStore.Store.StartAttempt | backend/src/exam.ts:324-350 | the same for opening an attempt, which reuses an open one of the current version |
| ExamStore.Store.SubmitAttempt | backend/src/exam.ts:352-397 | the same for a submission: replay, grading in place or a new row, and the qualification |
| ImportCsv.RoundTrip | backend/src/discovery-import.ts:224-246 | a reader in the manner of section 2 of RFC 4180, with LF records and the byte order mark stripped, gets back exactly the header and every cell, for any rows |
| ImportCsv.FieldsUnderTheirHeaders | backend/src/discovery-import.ts:224-246 | read back, each row has its own link, name, platform and account under those headers, and its trimmed uid in front iff some row's is not blank |
| ImportCsv.FileShape | backend/src/discovery-import.ts:224-240 | the file begins with the byte order mark and the header line and ends with a line feed |
| ImportCsv.CellShape | backend/src/discovery-import.ts:422-426 | a cell is put in quotes iff it holds a quote, a comma or a line feed |
| ImportCsv.ReadCell | backend/src/discovery-import.ts:422-426 | any printed cell before a comma reads as that cell |
| ImportCsv.UidColumnIffSomeUid | backend/src/discovery-import.ts:225-228 | the file read back has the uid column iff some trimmed uid is not empty |
| ImportCsv.PrinterIsInjective | backend/src/discovery-import.ts:224-246 | rows that print alike differ in nothing but blanks around uids |
| ImportCsv.RoundTripWithCrLfExactlyWhen | backend/src/discovery-import.ts:422-426 | a reader that takes CRLF as well gets every cell back iff no unquoted account ends in CR |

## Left out

- SQL text, connection pools, HTTP routes, sessions, audit rows and the ticket audit table: tables are maps and lists, row ids and times are parameters.
- Tickets: no run has the empty id; a row refused both for its id and for its run is answered as refused for its run; an append inside a caller's own transaction, which raises that refusal instead of answering null, is not modelled; labels and summaries of lifecycle rows are kept as symbols, cut texts as cut texts; other writers of a ticket's status, the older duplicate modules, nested transactions and the bound on retries are not modelled.
- TicketTheorems.SnapshotRunIsSerial: a command that is refused under an old snapshot may name another reason than it would alone, when its key was used on another ticket meanwhile.
- Narrative and Stdio: texts of `Stdio` hold whole characters, not the halves of surrogate pairs; what a handled line answers is not modelled.
- WorkerPool.RunLimited: a failed answer is reported once every worker is through; that the caller learns of it earlier, while others still run, is not modelled.
- FollowBatch.FollowCandidatesBatch: following one candidate is an arbitrary outcome that is always caught; a failure of the checks before it, which would fail the whole batch, is not modelled, nor are batch names, counts of missing emails and audit rows.
- Stages: labels, notes about sample stages beyond their choice, domains, who decides a work approval, tracks for display, reading a code from a label, the adapter's walks; names that every JavaScript object inherits, such as `constructor`, as stage codes.
- StageGraph: reading, caching and parsing the graph file; a file without nodes or path is refused, as in the source.
- Calendar: month texts, and the fallback for a text that is no month; months whose text or whose successor's text is not four digits; the zone's own history before it settled at +08:00 in September 1991.
- Costs: the rounded percentage; products beyond the exactly represented integers; times written in another form than the store's own; the reading of usage reports and the summaries.
- Exams: texts of prompts and options, the answer a form without one comes to, generated candidates, wall-clock ties between attempts; the normal form of an answer and the rounding of the percentage are arbitrary functions; the reads of one request are taken at one instant, its writes at a later one.
- ImportCsv: base64, rows made from candidates, and unpaired surrogates.
- Sprite strips: reading, thresholding, resizing and writing images; a band is a grid of booleans.
