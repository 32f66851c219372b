# Verified model of the mail client's protocols, scanners and conversation lists

This project models three parts of the desktop mail client and proves what they promise.

**Concurrency of the native process.** Each protocol is a step system: one event at a time, in any order, with
every lock taken and every wait as a step of its own where it matters. The objects behind a mutex are classes whose
methods are proved equal to the functions the step systems use. For each there is an inductive invariant, theorems
over all runs (nothing lost, nothing stuck, never two) and, where the code terminates, a measure that every own step
decreases.

- `ClassificationScheduler`: generations, the drain loop with its retries, waiters.
- `ClassificationLog`: what the drain loop did before a waiter returned, read off the events of the run.
- `RebuildCancellation`: the rebuild reservation, the cancellation registry and its lattice.
- `RebuildLog`: which request a rebuild reads, read off the events of the run.
- `WatcherRegistry`: start, stop, reconcile and stop-all calls and the locks they take.
- `WatcherCalls`: what each of those calls has done when it ends.
- `BoundedRunner`: bounded, cancellable work on shared permits, results in input order.
- `HydrationQueue`: prioritised arrivals, coalesced maintenance passes.
- `HydrationLog`: what the worker does with the batches sent to it, read off the events of the run.
- `WarmCursor`: the paging cursor of cache warming and its fairness.

**Scanners of untrusted mail.** The code's cursor loops are methods proved against recursive functions; the functions
are then proved against independent definitions.

- `PhysicalLines`: the line scanners, which must agree on every input.
- `MimeParameters`: the Content-Type parameter scanner, inverse of a printer (section 5.1 of RFC 2045).
- `MimeBudget`: the one-pass boundary scan, against MIME trees (sections 5.1 and 5.1.1 of RFC 2046).
- `Flowed`: the format=flowed decoder, against what its comments intend and against an encoder (sections 4.1 to 4.6
  of RFC 3676).

**Conversation lists.**

- `Threads`: grouping, against the definition of a grouping of a set of messages.
- `GroupedList`: the grouped list spelled out on the fields of its messages.
- `ThreadActions`: deletion and sender clean-up edit derived threads in place, whether `groupMessages` or the store made
  the list; when the result agrees with grouping afresh, and when the clean-up's rollback is exact.
- `RemovedMessages`: what deletion and clean-up take out, field by field.
- `RestoreThreads`: putting threads back after a failed action.
- `OverlappingUndo`: two actions that overlap, undone in either order.
- `UndoAcrossViews`: undoing an action with the list of another view.
- `Recipients`: the address list printer, splitter and parser (section 3.4 of RFC 5322) and the recipients of a reply.
- `AddressForms`: the regular expressions of the parser, as definitions its index arithmetic is proved against.
- `ReplyToAll`: whom a reply to all goes to, entry by entry.
- `ListReadBack`: exactly which address lists come back from the composer's text.

`Basics`, `Options`, `AsciiText`, `JavaScriptText` and `Ordering` hold what these share.

Where a promise is false of the code, the code is modelled as it is, a lemma exhibits an input, and the exact condition
is proved:

- `Flowed.DecodeIsIntendedIff`: the comment at line 28 of flowed.rs is wrong for stuffed-empty quoted lines.
- `RebuildCancellation.LossIffOverlap`: the two locks of a release can be overtaken by a new reservation.
- `WarmCursor.ReachedIff`: a batch that fills starves what lies behind it.
- `ThreadActions.RemovalKeepsListOrder`: a conversation that loses its newest message keeps its old place.
- `ThreadActions.RollbackIsExact`: rolling back a sender clean-up drops the fields only the store fills in.
- `OverlappingUndo.FirstInFirstOut`: overlapping undos can swap threads.
- `UndoAcrossViews.UndoIsExactIff`: in the smart inbox an undo can add threads to the list or move them in it.
- `Recipients.SplitInvertsJoin`: an unpaired backslash can keep a quoted name from closing, and a name with a colon is
  taken for that of a group.
- `ListReadBack.ListReadsBackIff`: besides, the end of a name without quotes can be taken for a comment.
- `Recipients.ReplyReachesEveryoneOnce`: reply targets are neither made unique nor cleared of the account.

flowed.rs removes stuffing before it counts quote marks, where section 4.5 of RFC 3676 counts them first; the model
follows the code.

Bytes and text are both `string`: the scanners compare with ASCII characters only.

## Model

| member | source | states |
|---|---|---|
| ClassificationScheduler.Scheduler.Request | apps/desktop/src-tauri/src/lib.rs:772-781 | A kick takes the next generation and is told to start a runner exactly when none runs. |
| ClassificationScheduler.Scheduler.FinishGeneration | apps/desktop/src-tauri/src/lib.rs:792-803 | Completes the generation and wakes waiters, unless a newer kick came in; then nothing changes. |
| ClassificationScheduler.Scheduler.FailGeneration | apps/desktop/src-tauri/src/lib.rs:806-814 | Records the failure for the generation, wakes waiters and says whether a newer kick must be served. |
| ClassificationScheduler.Scheduler.CheckCompleted | apps/desktop/src-tauri/src/lib.rs:819-832 | One look of a waiter: keep waiting below its generation; the stored failure if that is of its generation or later; otherwise Ok with the stored count. |
| ClassificationScheduler.LookAnswers | apps/desktop/src-tauri/src/lib.rs:816-838 | In every reachable state a look keeps the waiter waiting, or returns Ok with the stored count when no failure is stored, or the stored failure. |
| ClassificationScheduler.StepKeepsInv | apps/desktop/src-tauri/src/lib.rs:754-892 | Every event keeps the system invariant: schedule, runner, owed messages, waiters. |
| ClassificationScheduler.RunsKeepInv | apps/desktop/src-tauri/src/lib.rs:4044-4176 | The invariant over all interleavings of arrivals, kicks, batches, retries and failures. |
| ClassificationScheduler.OkMeansClassified | apps/desktop/src-tauri/src/lib.rs:816-838 | Drain coverage: when `wait_for(g)` returned Ok, nothing pending when g was requested is still unclassified. |
| ClassificationLog.OkCoversArrivals | apps/desktop/src-tauri/src/lib.rs:816-838 | In terms of the events of a run: a message that arrived before a kick has been classified or has left the store, since it arrived, whenever a waiter for that kick's generation returned Ok. |
| ClassificationLog.OkMeansFinished | apps/desktop/src-tauri/src/lib.rs:4140-4164 | On every run the number an Ok carries is that of all messages one drain loop classified, batch by batch, until a batch of fewer than 64 finished a generation at least the waiter's. |
| ClassificationLog.ErrMeansThreeFailures | apps/desktop/src-tauri/src/lib.rs:868-892 | On every run a returned failure is that of the third of three failed attempts in a row at one batch, for a generation at least the waiter's. |
| ClassificationLog.BatchesOfSixtyFour | apps/desktop/src-tauri/src/lib.rs:4140-4171 | A batch holds up to 64 messages, fewer only when no more are pending, and the loop goes on without finishing exactly after 64. |
| ClassificationScheduler.RunningMeansOneRunner | apps/desktop/src-tauri/src/lib.rs:754-814 | `running` exactly while a request is outstanding, exactly then one runner; a failure belongs to the latest completion. |
| ClassificationScheduler.SleeperHasARunner | apps/desktop/src-tauri/src/lib.rs:816-838 | No lost wake-up: while a waiter sleeps unnotified, exactly one runner is in the drain loop. |
| ClassificationScheduler.RunnerMakesProgress | apps/desktop/src-tauri/src/lib.rs:4140-4171 | Every step of a runner, retries and failures included, brings it closer to its end, which notifies the waiters. |
| ClassificationScheduler.SleeperIsWoken | apps/desktop/src-tauri/src/lib.rs:816-838 | From every reachable state an unnotified sleeper has a runner, and once that runner has taken its bounded number of steps, whichever they are, the sleeper can wake up. |
| ClassificationScheduler.RunnerIsNeverBlocked | apps/desktop/src-tauri/src/lib.rs:868-892 | In any state a runner has a step of its own. |
| RebuildCancellation.JoinIsLeastUpperBound | apps/desktop/src-tauri/src/lib.rs:194-207 | The combination of dispositions is the least upper bound in None < Retain < Replace < Remove; commutative, associative. |
| RebuildCancellation.MailRebuildCancellations.Reserve | apps/desktop/src-tauri/src/lib.rs:151-165 | Creates the entry with a fresh channel if missing and marks it reserved. |
| RebuildCancellation.MailRebuildCancellations.Register | apps/desktop/src-tauri/src/lib.rs:167-182 | Counts a registration and subscribes to the entry's channel. |
| RebuildCancellation.MailRebuildCancellations.Request | apps/desktop/src-tauri/src/lib.rs:184-212 | Replaces the channel's value by its join with the request; nothing without an entry. |
| RebuildCancellation.MailRebuildCancellations.Clear | apps/desktop/src-tauri/src/lib.rs:221-232 | Uncounts a registration; the entry goes with the last one unless reserved. |
| RebuildCancellation.MailRebuildCancellations.ReleaseReservation | apps/desktop/src-tauri/src/lib.rs:234-245 | Drops the reservation; the entry goes unless someone is registered. |
| RebuildCancellation.StepKeepsBase | apps/desktop/src-tauri/src/lib.rs:150-246 | Every half-step, overlapping or not, keeps the counts of the registry and the running set right. |
| RebuildCancellation.RunsKeepBase | apps/desktop/src-tauri/src/lib.rs:4481-4538 | The same over every run. |
| RebuildCancellation.StepKeepsInv | apps/desktop/src-tauri/src/lib.rs:150-246 | Every half-step that is not an overlapping reservation keeps each worker's channel equal to what was asked of it. |
| RebuildCancellation.LossIffOverlap | apps/desktop/src-tauri/src/lib.rs:4309-4335 | The exact condition: from a good state an event makes it possible to lose a request if and only if it is a reservation that reaches the registry while an earlier one of the account has left the running set but is not yet released. |
| RebuildCancellation.RunsKeepInv | apps/desktop/src-tauri/src/lib.rs:4481-4538 | The full invariant over all runs without such an overlapping reservation; a place in the running set may be taken at any time. |
| RebuildCancellation.OneRebuildPerAccount | apps/desktop/src-tauri/src/lib.rs:4309-4335 | On every run: at most one rebuild per account, from taking the place in the running set to giving it back. |
| RebuildCancellation.WorkerReadsAllRequests | apps/desktop/src-tauri/src/lib.rs:214-219 | A worker reads exactly the join of all requests since its own reservation: none lost, none left over from an earlier rebuild. |
| RebuildLog.WorkerReadsStrongest | apps/desktop/src-tauri/src/lib.rs:184-219 | In terms of the events of a run without an overlap: a registered worker reads the strongest disposition requested for its account after its reservation, and Keep if none was. |
| RebuildCancellation.ClearNeverUnderflows | apps/desktop/src-tauri/src/lib.rs:221-232 | On every run: an entry belongs to an outstanding reservation, its count is that of the registered workers, and the decrement in `clear` finds a one. |
| RebuildCancellation.EntryIffOutstanding | apps/desktop/src-tauri/src/lib.rs:221-245 | Without an overlap an entry exists exactly while a reservation is outstanding. |
| RebuildCancellation.QuietRegistryIsEmpty | apps/desktop/src-tauri/src/lib.rs:4481-4538 | On every run: with no worker left the registry and the running set are empty. |
| RebuildCancellation.OverlapLosesARequest | apps/desktop/src-tauri/src/lib.rs:4324-4335 | From every good state with an overlap, a continuation without further overlaps ends with a worker that was asked to retain and reads nothing. |
| RebuildCancellation.OverlapIsReachable | apps/desktop/src-tauri/src/lib.rs:4309-4335 | Such a state is reached: a rebuild ends while the next one of its account is reserved. |
| WatcherRegistry.StepKeepsInv | apps/desktop/src-tauri/src/realtime.rs:98-173 | Every step of start, stop, reconcile and stop-all keeps the locks exclusive and every live watcher accounted for. |
| WatcherRegistry.RunsKeepInv | apps/desktop/src-tauri/src/realtime.rs:98-219 | The same over all interleavings. |
| WatcherRegistry.OneWatcherPerAccount | apps/desktop/src-tauri/src/realtime.rs:60-68 | Never two live watchers for one account. |
| WatcherRegistry.NoWatcherIsLost | apps/desktop/src-tauri/src/realtime.rs:203-219 | A live watcher is registered, or cancelled and awaited by the owner of its account's transition or of the lifecycle lock. |
| WatcherRegistry.StoppedStaysStopped | apps/desktop/src-tauri/src/realtime.rs:144-153 | After a stop and until the next start: no task, no status, no live watcher. |
| WatcherCalls.StartsRegister | apps/desktop/src-tauri/src/realtime.rs:117-142 | On every run a call begun as a start ends only after a step right after which its account was registered with a live watcher that is not cancelled. |
| WatcherCalls.StopsUnregister | apps/desktop/src-tauri/src/realtime.rs:144-153 | A call begun as a stop ends only after a step right after which its account had no task, no status and no live watcher. |
| WatcherCalls.StopAllClears | apps/desktop/src-tauri/src/realtime.rs:155-173 | A stop-all ends with no task, no status and no live watcher at all. |
| WatcherCalls.ReconcileRegistersListed | apps/desktop/src-tauri/src/realtime.rs:98-110 | Whatever other calls are under way, a reconciliation ends with exactly the accounts registered that the store listed as enabled, no registered watcher cancelled and no other one live; with none when listing failed. |
| WatcherRegistry.NoDeadlock | apps/desktop/src-tauri/src/realtime.rs:98-219 | While a call is under way, and in whatever order the waiting calls arrived, some call can move without passing one that waited longer for the same lock, or an awaited, cancelled watcher can end. |
| WatcherRegistry.CallsFinish | apps/desktop/src-tauri/src/realtime.rs:98-173 | Every step of a call lowers the bounded number of steps it has left; the steps of others leave it where it is. |
| WatcherRegistry.OwnStepsArePaidFor | apps/desktop/src-tauri/src/realtime.rs:98-219 | On every run the steps a call number takes, plus what it has left at the end, are at most what it had left plus what the calls begun under it bring. |
| WatcherRegistry.OwnStepsAreBounded | apps/desktop/src-tauri/src/realtime.rs:98-173 | On every run a call takes at most its bounded number of own steps, whatever the others do, and after that many it has ended. |
| BoundedRunner.StepKeepsInv | apps/desktop/src-tauri/src/realtime.rs:977-1045 | Spawned items stay a prefix of the input, split into active and completed; bounds, permits and outputs are kept. |
| BoundedRunner.FillPass | apps/desktop/src-tauri/src/realtime.rs:999-1021 | The fill loop spawns the next items, as many as the limit and the input leave room for, none once cancelled. |
| BoundedRunner.FillPassIsSpawns | apps/desktop/src-tauri/src/realtime.rs:1000-1008 | That pass is exactly a run of the step system's spawn steps, after which the pass can only end. |
| BoundedRunner.CompletionsArePrefix | apps/desktop/src-tauri/src/realtime.rs:1039-1040 | On return the sorted completions are the spawned prefix, index by index, each once. |
| BoundedRunner.UncancelledIsMap | apps/desktop/src-tauri/src/lib.rs:1011-1051 | Never cancelled, the result is the operation mapped over the input in order. |
| BoundedRunner.ResultIsInOrder | apps/desktop/src-tauri/src/realtime.rs:1039-1044 | Cancelled or not, the result is the outputs of exactly the tasks that produced one, in input order. |
| BoundedRunner.NoSpawnInLateFill | apps/desktop/src-tauri/src/realtime.rs:999-1008 | A fill pass that begins after cancellation spawns nothing. |
| BoundedRunner.NoSpawnOnceCancelled | apps/desktop/src-tauri/src/realtime.rs:998-1037 | After the signal is raised, unless in the middle of a fill pass, and after its sender goes while the call waits for a task, nothing is spawned on any continuation. |
| BoundedRunner.PermitsAreConserved | apps/desktop/src-tauri/src/realtime.rs:1009-1021 | Running operations stay within the shared permits, active tasks within the limit; all permits are back on return. |
| BoundedRunner.NotStuck | apps/desktop/src-tauri/src/realtime.rs:998-1037 | Until it returns the call has a step of its own, unless others hold every permit. |
| BoundedRunner.StepsUseUpWork | apps/desktop/src-tauri/src/realtime.rs:998-1037 | Every own step uses up some of a bounded amount of work; steps of others add none. |
| BoundedRunner.OwnStepsAreBounded | apps/desktop/src-tauri/src/realtime.rs:998-1037 | On every run the call takes at most that many steps of its own, whatever the others do. |
| BoundedRunner.CallReturns | apps/desktop/src-tauri/src/realtime.rs:998-1044 | From every good state the call can be brought to return by its own steps and by others giving back permits. |
| HydrationQueue.StepKeepsInv | apps/desktop/src-tauri/src/realtime.rs:585-628 | Every step keeps both queues in order, priority, coalescing and closing flags. |
| HydrationQueue.StartedInOrder | apps/desktop/src-tauri/src/realtime.rs:596-626 | The batches of each queue start in the order accepted, each at most once. |
| HydrationQueue.EndedMeansDone | apps/desktop/src-tauri/src/realtime.rs:594-600 | Never cancelled, the worker ends only with both queues closed and empty and every accepted batch processed once. |
| HydrationQueue.ArrivalWaitsForOnePass | apps/desktop/src-tauri/src/realtime.rs:600-621 | An arrival waits for at most one maintenance pass. |
| HydrationQueue.WarmRequestIsQueued | apps/desktop/src-tauri/src/realtime.rs:288-318 | A warm request, dropped or not, is followed by a maintenance pass: one is queued while any request is unserved. |
| HydrationLog.ProcessesWhatWasSent | apps/desktop/src-tauri/src/realtime.rs:594-627 | Counted off the events of any run: the batches processed are the first of those sent, in their order, and all of them if the worker ends without having been cancelled; the same for the queued maintenance passes. |
| HydrationLog.WarmRequestIsServed | apps/desktop/src-tauri/src/realtime.rs:288-318 | After every warm request, queued or coalesced, a maintenance pass starts before an uncancelled worker ends. |
| HydrationLog.CancelledWorkerStops | apps/desktop/src-tauri/src/realtime.rs:594-600 | After a cancellation the worker starts at most one more operation, none unless it was already past the poll for it, and has ended after at most four steps of its own, whatever is sent to it. |
| HydrationQueue.DrainClosedQueues | apps/desktop/src-tauri/src/realtime.rs:594-627 | With both senders gone the loop processes the remaining arrivals, then the remaining maintenance batches, and ends. |
| HydrationQueue.WorkerDrains | apps/desktop/src-tauri/src/realtime.rs:594-627 | Once both senders are gone every step of the worker decreases a measure. |
| HydrationQueue.WorkerEnds | apps/desktop/src-tauri/src/realtime.rs:594-627 | So any run of that many worker steps has ended. |
| WarmCursor.SelectRecentCandidatePage | apps/desktop/src-tauri/src/realtime.rs:501-515 | Appends the first rows of the page that are not cooling, as far as the batch has room. |
| WarmCursor.WarmCursor.LoadRecentWarmCandidates | apps/desktop/src-tauri/src/realtime.rs:752-815 | One cycle: expired failures dropped, pages read from the saved offset, the next offset saved; cancellation and query failures included. |
| WarmCursor.CycleSelectsWindow | apps/desktop/src-tauri/src/realtime.rs:517-528 | An undisturbed cycle selects the first non-cooling rows of its window, and the next one starts after the window or at the top. |
| WarmCursor.DisturbedCycle | apps/desktop/src-tauri/src/realtime.rs:752-815 | A cycle cancelled before a page selects nothing; one whose query for a page fails selects from the pages before it; neither moves the cursor. |
| WarmCursor.UndisturbedCycle | apps/desktop/src-tauri/src/realtime.rs:752-815 | A cycle that gets to no such page is an undisturbed one. |
| WarmCursor.EveryRowIsReached | apps/desktop/src-tauri/src/realtime.rs:752-815 | Fairness: from any offset, while no cycle fills its batch, every non-cooling row is selected within 2*ceil(N/300)+1 cycles. |
| WarmCursor.ReachedIff | apps/desktop/src-tauri/src/realtime.rs:517-528 | From any offset, a row is ever selected if and only if, counting from that offset or from the top, no full window stands before it and fewer than a batch before it in its own window. |
| WarmCursor.OnlyFirstBatchIsReached | apps/desktop/src-tauri/src/realtime.rs:517-528 | The starving input: with nothing cooling and cycles from the top, a row is ever selected if and only if it is one of the first 100. |
| PhysicalLines.SplitPhysicalLines | crates/dakia-core/src/flowed.rs:52-85 | The cursor loop yields the lines of its input. |
| PhysicalLines.ForEachLine | crates/dakia-core/src/mime_budget.rs:179-200 | Visits exactly the texts of those same lines. |
| PhysicalLines.OuterHeaderLen | crates/dakia-core/src/mime_budget.rs:353-374 | Returns where the first empty line starts, or the full length. |
| PhysicalLines.LinesAreFaithful | crates/dakia-core/src/flowed.rs:52-85 | Texts and endings concatenate to the input, texts hold no line break, only the last line may lack an ending. |
| PhysicalLines.FaithfulIsUnique | crates/dakia-core/src/flowed.rs:52-85 | There is only one such split. |
| PhysicalLines.HeaderSectionIsWholeLines | crates/dakia-core/src/mime_budget.rs:353-374 | The outer header section consists of whole lines, none of them empty. |
| MimeParameters.NextParameter | crates/dakia-core/src/mime_budget.rs:258-274 | Splits at the first semicolon outside quotes; the remainder shrinks. |
| MimeParameters.UnquoteBoundary | crates/dakia-core/src/mime_budget.rs:304-322 | The text up to the closing quote with quoted pairs undone, or nothing. |
| MimeParameters.MimeBoundaryParameter | crates/dakia-core/src/mime_budget.rs:228-240 | Terminates, and returns the first boundary parameter of a multipart Content-Type. |
| MimeParameters.BodyValue | crates/dakia-core/src/mime_budget.rs:276-294 | A printed parameter reads back as its value when named boundary, as nothing otherwise. |
| MimeParameters.BoundaryOfPrinted | crates/dakia-core/src/mime_budget.rs:228-322 | The scanner inverts the printer for any preceding parameters, whatever their quoted values hold, and finds no boundary in a field that is not multipart or has an empty subtype. |
| MimeParameters.WordsAreRecognised | crates/dakia-core/src/mime_budget.rs:242-294 | `multipart` and `boundary` are recognised in capitals, small letters or any mixture, and no other word is. |
| MimeBudget.PreflightScanner.Visit | crates/dakia-core/src/mime_budget.rs:95-147 | The closure's effect on its captured variables for one line. |
| MimeBudget.PreflightScanner.RecordMimeBoundary | crates/dakia-core/src/mime_budget.rs:163-177 | Adds a usable declared boundary and notices when there are too many. |
| MimeBudget.PreflightMimePartCount | crates/dakia-core/src/mime_budget.rs:86-161 | The verdict of the scan over the lines of the message. |
| MimeBudget.PreflightRawMessage | crates/dakia-core/src/mime_budget.rs:65-78 | The three checks in their order, with the measurements on success. |
| MimeBudget.ScanEntity | crates/dakia-core/src/mime_budget.rs:86-161 | Below any live boundaries the scan of a rendered entity counts its inner parts exactly and restores the live boundaries. |
| MimeBudget.PreflightMatchesStructure | crates/dakia-core/src/mime_budget.rs:86-177 | For every message whose lines are those of a renderable tree, however each line ends, the scan rejects exactly when `validate_structure` rejects the part count. |
| MimeBudget.RenderedTreeMatches | crates/dakia-core/src/mime_budget.rs:86-200 | Every renderable tree without line breaks in its lines is such a message with each of the three line endings. |
| MimeBudget.PrintedFieldDeclares | crates/dakia-core/src/mime_budget.rs:163-177 | A printed Content-Type field, folded or not and with its words spelled in either case, declares exactly its boundary, if non-empty and at most 200 long; a field that is not multipart declares none. |
| MimeBudget.StormIsRejected | crates/dakia-core/src/mime_budget.rs:129-158 | Small parts under the ordinary header `Content-Type: multipart/mixed; boundary=x` are rejected as too many from 1,000 on and pass below. |
| MimeBudget.LongFieldIsRejected | crates/dakia-core/src/mime_budget.rs:104-119 | A folded Content-Type field that unfolds to more than a mebibyte is rejected for its headers, whatever follows it. |
| MimeBudget.StructureLimits | crates/dakia-core/src/mime_budget.rs:336-351 | The parser's counts are accepted exactly up to 1,000 parts and 64 levels, the parts being looked at first. |
| MimeBudget.BlankEndedBoundaryNeverOpens | crates/dakia-core/src/mime_budget.rs:129-133 | Whatever else is live, a boundary that ends in a blank never adds to the count. |
| MimeBudget.BlankEndedTreePasses | crates/dakia-core/src/mime_budget.rs:86-161 | A whole message with such a root boundary, however its lines end, passes with no part counted, however many it has. |
| MimeBudget.MissingBlankLineHidesDelimiters | crates/dakia-core/src/mime_budget.rs:100-127 | Until a blank line no delimiter is counted. |
| Flowed.ParsePhysicalLine | crates/dakia-core/src/flowed.rs:98-120 | Unstuffs, counts quote marks, strips one space, decides whether the line is flowed. |
| Flowed.DecodeFormatFlowed | crates/dakia-core/src/flowed.rs:10-44 | The two nested loops compute the decoded text. |
| Flowed.DecodeIsIntendedIff | crates/dakia-core/src/flowed.rs:21-38 | Decoding is what the comments intend if and only if delsp is off or no joined continuation is stuffed-empty. |
| Flowed.DecodeInvertsEncode | crates/dakia-core/src/flowed.rs:10-44 | Decoding inverts encoding for delsp on and off; different quote depths are never joined. |
| Flowed.StuffedEmptyEatsText | crates/dakia-core/src/flowed.rs:27-30 | Three quoted lines for which a letter is lost. |
| Threads.FillMap | apps/desktop/src/threads.ts:4-8 | The Map-filling loop: keys in first-seen order, each with its messages in arrival order. |
| Threads.GroupMessages | apps/desktop/src/threads.ts:3-42 | The pipeline computes the grouping function. |
| Threads.GroupIsGrouping | apps/desktop/src/threads.ts:3-64 | For distinct ids the result is the grouping: each conversation once, copies shown by their latest, derived fields right, sorted. |
| GroupedList.FieldsOfConversations | apps/desktop/src/threads.ts:3-34 | For every list, on the fields of the messages alone: a conversation holds the messages with its key, is unread when one of them is, has attachments when one has, and its participants are the senders' names, or addresses where there is none, each once and in order. |
| GroupedList.OrderOfConversations | apps/desktop/src/threads.ts:9-64 | For distinct ids, likewise: every message is in the one conversation with its key; its messages are shown in order, each by the latest of its copies; conversations are listed by their latest message, newest first. |
| GroupedList.CopyKeysAgreeIff | apps/desktop/src/threads.ts:44-55 | Messages are merged exactly when their message ids differ at most in case, or, without a message id, when their ids agree. |
| GroupedList.MessageBeforeIff | apps/desktop/src/threads.ts:70-82 | The comparator orders by date, invalid dates first, then by message id in small letters, then by id. |
| GroupedList.ThreadBeforeIff | apps/desktop/src/threads.ts:35-41 | Conversations come in the order of their latest messages, newest first, and by id where those tie. |
| Ordering.CompareStringsIff | apps/desktop/src/threads.ts:89-93 | The comparison of strings is the lexicographic order. |
| Threads.GroupingIsUnique | apps/desktop/src/threads.ts:35-42 | A set of messages has at most one grouping. |
| Threads.MergeCopiesIsLast | apps/desktop/src/threads.ts:57-64 | The displayed copy is the maximum of its copies; when any copy has a valid date the displayed one has one too, and no copy a later one. |
| Threads.GroupIgnoresOrder | apps/desktop/src/threads.ts:3-42 | Every permutation of messages with distinct ids gives the identical list. |
| Threads.GroupKeepsMessages | apps/desktop/src/threads.ts:16-24 | The source messages of all threads together are exactly the input, each as often as given. |
| ThreadActions.RestoreSenderCleanup | apps/desktop/src/App.tsx:190-205 | The Map-filling loops compute the restored list. |
| ThreadActions.RemovalIsRegrouping | apps/desktop/src/App.tsx:176-188 | For any list with one thread for each key, whatever copies it shows and whatever the store filled in: removal leaves such a list of exactly the remaining messages, and it is one of grouping's threads if and only if the threads that lose nothing are. |
| ThreadActions.SenderCleanupIsRegrouping | apps/desktop/src/App.tsx:165-188 | For such lists sender clean-up gives, as a set, the threads of grouping the other senders' messages afresh if and only if the threads that lose nothing are grouping's; the same in all but the store's fields. |
| RemovedMessages.CleanupTakesTheSender | apps/desktop/src/App.tsx:165-188 | For any list: after clean-up a message is held exactly when it was held before and is of another account or its sender's address differs by more than case and the white space around it. |
| ThreadActions.RemovalKeepsListOrder | apps/desktop/src/App.tsx:176-188 | For such lists the edited list is the regrouped list, order included, if and only if the threads that lose nothing are grouping's and the conversations that keep something still stand in the order of their newest kept message. |
| ThreadActions.DerivedRemovalKeepsListOrder | apps/desktop/src/App.tsx:176-188 | The same in all but the store's fields. |
| ThreadActions.RemovalKeepsOldPlace | apps/desktop/src/App.tsx:165-188 | Three messages and a sender for which the order differs: the conversation keeps its old place; the same when that one message is deleted. |
| ThreadActions.RemoveConcreteIsRegrouping | apps/desktop/src/mailActions.ts:104-116 | Deleting a copy from one thread regroups it and keeps the fields grouping does not set. |
| ThreadActions.DeletionIsRegrouping | apps/desktop/src/mailActions.ts:91-126 | For such lists deleting a locator keeps the store's fields, leaves exactly the other messages, and agrees in the other fields with grouping afresh if and only if the threads without the copy do; in order under the condition on their newest messages. |
| RemovedMessages.DeletionTakesOneCopy | apps/desktop/src/mailActions.ts:85-126 | For any list of conversations: after deletion a message is held exactly when it was held before and differs from the target in account, mailbox or UID. |
| RemovedMessages.GroupedDeletionTakesOneCopy | apps/desktop/src/mailActions.ts:85-126 | For a list that `groupMessages` made, of any messages, what is held is exactly the given messages that differ in one of the three. |
| RemovedMessages.UidsArePerMailbox | apps/desktop/src/mailActions.ts:79-83 | Deleting UID 7 of the inbox leaves the conversations with UID 7 of the archive and of another account. |
| ThreadActions.GroupedListsRegroup | apps/desktop/src/App.tsx:165-188 | On a list that `groupMessages` made of messages with distinct ids, clean-up and deletion give, as sets, the grouping of the other messages; in order exactly under the condition on the newest messages. |
| ThreadActions.RestoreIsRegrouping | apps/desktop/src/App.tsx:190-205 | Whatever mail arrived or left, and whatever the two lists show of it, restoring gives the grouping of the current messages and the removed ones that are missing. |
| RemovedMessages.RestoreIsAlwaysRegrouping | apps/desktop/src/App.tsx:190-205 | For any two lists, repeated ids included: restoring groups the last message with each id of the current list and the first one of the account and sender with each id that list lacks. |
| ThreadActions.RollbackRegroups | apps/desktop/src/App.tsx:165-205 | With nothing else changed, remove then restore gives the grouping of all the messages of the list, whatever list it was. |
| ThreadActions.RollbackIsExact | apps/desktop/src/App.tsx:165-205 | With nothing else changed, remove then restore gives the list back if and only if it was the grouping of its messages; in all but the store's fields, if and only if it was so in them. |
| ThreadActions.GroupedListsRollBack | apps/desktop/src/App.tsx:165-205 | So it is for every list that `groupMessages` made of messages with distinct ids. |
| ThreadActions.RollbackDropsServerFields | crates/dakia-core/src/storage.rs:255-270 | It is not for a list with a message count, account or thread id in it, as the store serves them: the result has none. |
| RestoreThreads.Restore | apps/desktop/src/mailActions.ts:151-187 | The splicing loop computes the restored list. |
| RestoreThreads.RestoreOneKeepsOrder | apps/desktop/src/mailActions.ts:160-184 | One restored thread goes where the original order wants it. |
| RestoreThreads.RestoreKeepsBothOrders | apps/desktop/src/mailActions.ts:151-187 | The result holds the current threads and the restored originals, keeps the current ones' order, and the original order if it held before. |
| RestoreThreads.UndoLeavesTheSuccesses | apps/desktop/src/App.tsx:1435-1514 | In the list view and in each smart section, which are restored with the list they showed: undoing the failed part of an action's filter leaves the original list minus the successes. |
| OverlappingUndo.LastInFirstOut | apps/desktop/src/mailActions.ts:151-187 | Two overlapping actions undone in the opposite order leave exactly the original list minus both successes. |
| OverlappingUndo.RestoredPlace | apps/desktop/src/mailActions.ts:164-184 | Where a restored thread ends up among threads its list does not know is decided by the list it is restored to. |
| OverlappingUndo.FirstInFirstOut | apps/desktop/src/mailActions.ts:151-187 | Undone in the order of the actions they do so if and only if no thread the first undo brings back is in the way of one the second brings back. |
| OverlappingUndo.OverlappingUndoReorders | apps/desktop/src/mailActions.ts:151-187 | Two threads that swap because one is in the way of the other. |
| UndoAcrossViews.ContentsIff | apps/desktop/src/App.tsx:1391-1500 | For any display, repeats and differing copies included: `threads` filtered and restored with it holds all but the successes if and only if the failed threads, in their last copy on display, were those of the list. |
| UndoAcrossViews.AlikeAgreeIff | crates/dakia-core/src/storage.rs:3752-3775 | When all copies on display are alike, as a load of all the sections makes them, that says that the two held the same failed threads. |
| UndoAcrossViews.UndoIsExactIff | apps/desktop/src/App.tsx:1391-1500 | For any display it does so in order if and only if, besides, each failed thread, where its first copy is on display, stood in `threads` right before the next one on display that is there, without such a one right after the last, without either at the end. |
| UndoAcrossViews.FitsInOrder | apps/desktop/src/mailActions.ts:164-184 | When the display repeats nothing and the two lists have one order, that asks only that no thread missing from the display stands between the two. |
| UndoAcrossViews.RejectedThreadAppears | apps/desktop/src/App.tsx:1161-1166 | A rejected action on a thread of a smart section puts it into a list that did not hold it. |
| UndoAcrossViews.RejectedThreadMoves | apps/desktop/src/App.tsx:1161-1166 | Two threads the sections show the other way round end up swapped in the list. |
| UndoAcrossViews.DoubledThreadReturnsOnce | crates/dakia-core/src/storage.rs:3693-3700 | A starred conversation that is read stands in two sections; it comes back once, at its first place and in its last copy. |
| Recipients.SplitAddressValues | apps/desktop/src/recipients.ts:96-136 | The loop over quoted, escaped and depth variables computes the parts. |
| Recipients.SplitInvertsJoin | apps/desktop/src/components/Composer.tsx:93-98 | Splitting the comma-joined printed addresses gives the printed addresses if and only if no name has a colon before the first at-sign, every name but the last closes its quotes and brackets and the last one is not broken. |
| Recipients.PairedBackslashesSurvive | apps/desktop/src/recipients.ts:96-136 | Lists of quoted names whose backslashes are paired, and so of those without one, and of other names without brackets meet that condition if and only if no name has such a colon. |
| Recipients.ParseInvertsFormat | apps/desktop/src/recipients.ts:87-161 | Parsing a printed address gives its trimmed name and address if and only if no part of its name is taken for a comment. |
| AddressForms.ParsedAddressIff | apps/desktop/src/recipients.ts:145-161 | For every text: an address is parsed exactly when what its angle brackets enclose, or else what stands before a comment, or else the whole, matches the address expression once trimmed; and it is that text. |
| AddressForms.AngleFormIff | apps/desktop/src/recipients.ts:146-146 | The index arithmetic for the angle form finds the match of its regular expression, and nothing without a match. |
| AddressForms.CommentFormIff | apps/desktop/src/recipients.ts:147-149 | The same for the form with a comment. |
| AddressForms.UsableIff | apps/desktop/src/recipients.ts:163-165 | The same for the expression a usable address matches. |
| Recipients.PrintedListReadsBack | apps/desktop/src/recipients.ts:21-161 | Under the two conditions a whole list is read back, names and addresses trimmed; commas, semicolons and quotes in names survive. |
| ListReadBack.ListReadsBackIff | apps/desktop/src/recipients.ts:21-161 | The two conditions are exact: a printed list reads back as a whole if and only if it meets them. |
| ListReadBack.HeadIsNotIt | apps/desktop/src/recipients.ts:145-161 | No piece of a printed address that ends at a separator inside its name parses to it. |
| ListReadBack.TailParse | apps/desktop/src/recipients.ts:138-161 | What is left of a printed address behind a separator or a stripped group prefix never parses to it. |
| ListReadBack.NeverCatchesUp | apps/desktop/src/recipients.ts:96-136 | From any separator on, the rest of a printed list never parses to the whole list, however its parts are merged or broken. |
| Recipients.TrailingBackslashLosesTheList | apps/desktop/src/recipients.ts:87-94 | A quoted name that ends in a backslash loses both recipients of a list of two. |
| Recipients.GroupPrefixIsLost | apps/desktop/src/recipients.ts:138-143 | `Sales: Bob` loses the part before the colon, which is taken for a group. |
| Recipients.CommentIsLost | apps/desktop/src/recipients.ts:152-155 | `Bob (work)` comes back without the brackets. |
| Recipients.ReplyRecipients | apps/desktop/src/recipients.ts:45-85 | The reply's two strings, from the lists the two loops keep. |
| Recipients.ReplyReachesEveryoneOnce | apps/desktop/src/recipients.ts:60-84 | A reply to all reaches everyone not excluded, in To or else in Cc; it names nobody twice if and only if the reply targets do not, and the account if and only if it is a reply target; addresses that differ in case or in white space around them are one. |
| ReplyToAll.ReplyAllPicks | apps/desktop/src/recipients.ts:45-85 | Entry by entry: added to the targets are exactly the To entries that are not blank, are neither a target's nor the account's address and were not given before, then as copies the Cc entries that besides are no To address, in the order of the headers. |
| ReplyToAll.CaseIsNoDifference | apps/desktop/src/recipients.ts:167-169 | `Bob@x.org, bob@x.org` adds one recipient. |
| Recipients.RepeatedReplyTarget | apps/desktop/src/recipients.ts:50-58 | A Reply-To header that names an address twice keeps both. |
| Recipients.ReplyToOneself | apps/desktop/src/recipients.ts:45-85 | A reply to all to a message the account itself sent, without a Reply-To, goes to the account. |

## Left out

- The SQLite store, IMAP, SMTP and the classifier are abstract steps. A batch select returns as many pending messages as
  fit, and applying a batch may change any part of it before it fails.
- ClassificationScheduler.OkMeansClassified: a message that left the store counts as done.
- RemovedMessages.DeletionTakesOneCopy: the messages of one conversation have one key, as those of the store and of
  grouping have; of any others only the first group would be left.
- Counters are unbounded where the source has 64-bit generations and a machine-sized registration count; the 32-bit
  saturating arithmetic of the warm cursor is modelled.
- The async coordinators of realtime.rs and lib.rs are step systems, because what they promise is about interleavings. Only
  the parts that run without waiting are methods as well: the fill pass, the draining of closed queues, a warming cycle.
- RebuildCancellation.WorkerReadsAllRequests: holds on runs without an overlapping reservation, which the two separate
  locks of the source do not guarantee; `LossIffOverlap` says that nothing less will do.
- WatcherRegistry.StepKeepsInv: cancelling the drained watchers is one step with draining them, and a status is present or
  not; what a watcher does is its publishing and its end.
- The durable reset flag of a rebuild, content-fetch claims and the per-account operation lock are not modelled.
- MimeBudget.PreflightMatchesStructure: every part of the tree has its blank line and no boundary ends in a blank; the two
  lemmas after it say what the scan does otherwise. Parser-derived metrics are the tree's own counts.
- Flowed.DecodeInvertsEncode: depth-0 lines never start with a quote mark, because the decoder unstuffs before it looks for
  quotes.
- Lower-casing is ASCII, strings are compared character by character rather than by UTF-16 code unit, and a received date
  is its parsed millisecond value or None.
- RestoreThreads.UndoLeavesTheSuccesses: the React state updates around the filter and the restore are not modelled.
- Recipients.SplitInvertsJoin: the addresses are usable and hold no quotes, separators or brackets, and the names hold no
  line break.
- UndoAcrossViews.UndoIsExactIff: loads and other actions between the filter and the restore are not modelled.
- ThreadActions.RemovalIsRegrouping: a conversation has at least one source message, as those of the store and of
  grouping have.
- OverlappingUndo.FirstInFirstOut: the second action's targets are threads of the list it saw, so the two are disjoint.
- Recipients.ReplyRecipients: starts from parsed lists; filling in the sender's name from the message is not modelled.
- Retry delays and jitter, size tables, provider presets, the CLI copies of shared helpers, and everything in the user
  interface.
