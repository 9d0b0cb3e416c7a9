# Verified models of qTox's chat view storage, instance IPC and lint tooling

This project models the stateful cores of qTox and proves what they keep over whole runs.

* **Chat view storage** (`ChatLineView`, `ChatLineStorage`, `ChatLineOrder`, `ChatLineErase`,
  `ChatLineDays`, `ChatLineRemoval`, `ChatLineRange`, `ChatLineWindow`, `ChatLineSlide`,
  `ChatLinePurge`). The storage keeps the rendered lines, a map of date lines
  and a sorted index from message index to line position, all updated in place. The class
  `ChatLineStorage.Storage` has the same three containers and the same methods, loops
  included; a ghost sequence of rows (messages, with a mark that says whether an index entry
  points at them, and date lines) determines all three. Each method is proved to turn that
  sequence into the one its specification function gives, and the results below are about
  these functions. Iterators are positions, the end iterator is the length, and a sorted map
  is the sequence of its entries in key order.
* **IPC between instances** (`IpcModel`, `IpcInvariants`, `IpcTickets`, `IpcDelivery`,
  `IpcSlots`, `IpcFairness`, `IpcLease`, `IpcProcess`). Processes share a table of 32 event slots under one lock. What a process does
  under the lock is an action (create, renew or take the lease, one pass of the event loop,
  post, exit); a run is any sequence of actions by any processes, with a history of posts and
  handler runs and an epoch that advances whenever the whole memory is wiped. `clk(n)` is what
  the n-th reading of the machine's clock returns: positive and never decreasing. The classes
  `Machine` and `Ipc` hold the shared memory as fields and an array, and their methods are
  proved to do exactly what the actions in the history say.
* **Column layout of a chat line** (`ChatLineLayout`), over exact reals.
* **Lint tooling** (`AsyncJoin`, `IncludeHash`): the fan-in of asynchronous generators under
  every interleaving, and the content digest that keys the result cache.

Assumptions that the statements carry: inserted lines are new objects; hash collisions are
excluded only among the texts actually hashed; appending a hexadecimal digest to a text adds
or removes no include line; a day function returns a start of day at or before its argument,
is monotone and leaves starts of day alone; in the chat log the times of messages do not
decrease with their index. The answer of an event handler is arbitrary: it is a function of the
event's data and of the moment of the call.

## Where the code does less than it promises

* `ChatLineErase.EraseLosesEntry`, `ChatLineErase.LostEntryConsequences`: when `erase` takes a
  date line along, the search for an index entry at *or after* the erased position
  (src/chatlog/chatlinestorage.cpp:138-146) finds and drops the entry of the next message. The
  positions of the remaining entries stay right, but the next message can then be inserted a
  second time, and a message inserted before it lands below the wrong date line.
  `ChatLineErase.EraseKeepsCoverage` gives the exact condition under which no message loses its
  entry, and `ChatLineErase.EraseIndexCount` the exact number of entries dropped.
* `ChatLineErase.RunIsChronologicalIff`: over runs with any erasures, the view stays
  chronological exactly when no insertion's search passes a message that lost its entry.
* `ChatLineRemoval.RemovalEmptiesView`: removing the only message of the first of two days
  empties the whole view. `ChatLineRemoval.KeepsWhatFollows` gives the exact condition for every
  view: what follows a removed range stays exactly when nothing follows, or every row of the
  range is a message with an index entry; otherwise everything to the end of the view goes.
* `ChatLineRange.LastIsLost`: a range that begins past everything shown is clamped to the last
  message, which is then removed although it lies before the range. `ChatLineRange.RowsBefore` is
  exact: this is the only way in which a message before the range goes.
* `ChatLineSlide.SlideOverMidnight`, `ChatLineSlide.SlideUpLosesLast`: moving the widget's window
  (src/chatlog/chatwidget.cpp:1162-1201) does not always show the window. Moved down past the end
  of a day, it loses all that was shown; moved up without a change of its end, it loses its
  last message. `ChatLineSlide.SlideShowsIff` gives the exact condition for every window and
  every new start.
* `IpcTickets.TicketsRepeatAcrossEpochs`: a takeover in the second of the last ticket wipes the
  queue, and the next event gets that ticket again. `IpcTickets.TicketsFreshIff` is exact over all
  runs: the next ticket always exceeds all earlier ones exactly when every wipe finds the clock
  past the last ticket by its next reading.
* `IpcTickets.AcceptedForAnother`: in that run the poster of the first event sees its ticket
  accepted although no handler ran for its event. `IpcTickets.NeverAnotherAnswerIff` is exact for a
  takeover: no future of the new epoch answers for an earlier event exactly when the last
  ticket lies before the time the takeover leaves as the lease's. With wipes late enough,
  `IpcTickets.AcceptedMeansMine` gives the poster what it expects, whatever the epoch.
* `IpcFairness.StarvedInARun`: every pass of the event loop starts over at the first slot, so an
  event that stays open, for want of a handler or because it is global and always declined,
  holds up the older events behind it until they are collected. In a reachable state an event
  whose handler accepts everything is collected without having been run.
  `IpcFairness.DeliveredIff` gives the exact condition for a whole call.
* `IpcLease.CleanExitStillWaits`: the comment at src/ipc.cpp:75-76 says that an owner can hand
  over at once when it exits. The destructor clears only the owner mark, so a clean exit
  waits out the ownership timeout like a crash.
* `IpcModel.FullDataRunsOn`: 128 bytes of data are accepted, but the handler's argument is read
  up to a zero byte, and the ticket lies behind the field. `IpcModel.DataArrives` gives the
  exact condition. Names do not suffer from this: src/ipc.cpp:339 reads a character array, which
  Qt 6 (cmake/Dependencies.cmake:13) reads to its end at most.
* `ChatLinePurge.DropLosesEntry`, `ChatLinePurge.ClearLosesEntry`: a hidden widget that drops its
  oldest lines, and a cleared one with an active file transfer, always cost a line that stays
  its index entry. The exact conditions are `ChatLinePurge.DropKeepsCoverage` and
  `ChatLinePurge.ClearKeepsCoverage`.

## Model

| member | source | states |
|---|---|---|
| ChatLineView.Seek | src/chatlog/chatlinestorage.cpp:138-162 | the searches through the index name the first indexed row that reaches the bound; every indexed row before it falls short |
| ChatLineView.AdjustBack | src/chatlog/chatlinestorage.cpp:164-184 | the insertion point moves up over date lines later than the timestamp only, and stops below the first row that is not one |
| ChatLineView.DateRun | src/chatlog/chatlinestorage.cpp:201-208 | the maximal run of date lines just above a position |
| ChatLineView.EntrySound | src/chatlog/chatlinestorage.h:42-49 | index refinement: every entry has its position in range and points at the row of its own index and timestamp; its rank is the number of indexed rows above |
| ChatLineView.EntriesIncreasing | src/chatlog/chatlinestorage.h:18-37 | positions increase strictly along the index |
| ChatLineView.SeekThroughIndex | src/chatlog/chatlinestorage.cpp:129-162 | a search over the index entries lands on the row that a search over the view finds, and the entry's rank is the number of indexed rows above it |
| ChatLineView.IndexInsert | src/chatlog/chatlinestorage.cpp:25-32 | inserting a row inserts its entry at its rank and shifts exactly the entries behind it |
| ChatLineView.IndexEraseStep | src/chatlog/chatlinestorage.cpp:105-117 | one pass of the erase loop drops the first entry at or after the line and shifts exactly the entries behind it |
| ChatLineStorage.Storage.InsertChatMessage | src/chatlog/chatlinestorage.cpp:10-35 | the three containers represent the view with the message inserted at its place, or are unchanged when the index is shown; the returned position holds the message |
| ChatLineStorage.Storage.InsertDateLine | src/chatlog/chatlinestorage.cpp:37-65 | the containers represent the view with the date line above the first message at or after its time |
| ChatLineStorage.Storage.Erase | src/chatlog/chatlinestorage.cpp:98-127 | the erase loop terminates and computes the closed form: the row and its cascade of date lines go, and the result is the position behind the gap |
| ChatLineStorage.Storage.EraseOne | src/chatlog/chatlinestorage.cpp:105-117 | one pass of the loop keeps the containers in step and no position wraps below zero |
| ChatLineStorage.Storage.EraseIdx | src/chatlog/chatlinestorage.cpp:90-96 | erasing a shown index erases exactly its row; an absent one erases the next shown message, as the search finds it |
| ChatLineStorage.Storage.FindIdx | src/chatlog/chatlinestorage.cpp:75-83 | a shown index is found at the line of its latest insertion; an absent one gives the next shown message, or the end |
| ChatLineStorage.Storage.FindLine | src/chatlog/chatlinestorage.cpp:85-88 | the only position of the line, or the end |
| ChatLineStorage.FindsAgree | src/chatlog/chatlinestorage.cpp:75-88 | both searches give the same position for a shown message |
| ChatLineStorage.Storage.AtIdx | src/chatlog/chatlinestorage.h:89-92 | the line last inserted for the index, or failure exactly when the index is not shown |
| ChatLineStorage.Storage.InfoIteratorForIdx | src/chatlog/chatlinestorage.cpp:148-162 | the binary search splits the index at the key |
| ChatLineStorage.Storage.ContainsIdx | src/chatlog/chatlinestorage.h:74-77 | true exactly when an indexed row has this index |
| ChatLineStorage.Storage.ContainsTime | src/chatlog/chatlinestorage.cpp:67-73 | true exactly when a date line of this time is shown |
| ChatLineStorage.Storage.FirstIdx | src/chatlog/chatlinestorage.h:64-67 | the least indexed message |
| ChatLineStorage.Storage.LastIdx | src/chatlog/chatlinestorage.h:69-72 | the greatest indexed message |
| ChatLineStorage.Storage.AdjustItForDate | src/chatlog/chatlinestorage.cpp:164-184 | the loop over the date map computes AdjustBack |
| ChatLineStorage.Storage.DecrementLinePosAfter | src/chatlog/chatlinestorage.cpp:193-199 | exactly the entries from the iterator on move by one |
| ChatLineStorage.Storage.IncrementLinePosAfter | src/chatlog/chatlinestorage.cpp:186-191 | exactly the entries from the iterator on move by one |
| ChatLineStorage.Storage.Clear | src/chatlog/chatlinestorage.h:118-123 | all three containers are emptied together |
| ChatLineStorage.Storage.EquivalentInfoIterator | src/chatlog/chatlinestorage.cpp:138-146 | the scan stops at the entry whose rank is the number of indexed rows above the position |
| ChatLineStorage.Storage.ShouldRemovePreviousLine | src/chatlog/chatlinestorage.cpp:201-208 | the loop test, in terms of the rows |
| ChatLineStorage.InsertRepresents | src/chatlog/chatlinestorage.cpp:18-34 | inserting a fresh row keeps lines, date map, index and latest insertions in step |
| ChatLineStorage.EraseStepRepresents | src/chatlog/chatlinestorage.cpp:98-127 | erasing keeps them in step for the code as it is: soundness of the index is unconditional |
| ChatLineOrder.InsertMsgKeepsOrder | src/chatlog/chatlinestorage.cpp:18-23 | inserting a message keeps the view chronological exactly when no unindexed message at or past its index stands before the row the index finds |
| ChatLineOrder.InsertDateKeepsOrder | src/chatlog/chatlinestorage.cpp:49-57 | the same for a date line |
| ChatLineOrder.BuildSorted | src/chatlog/chatlinestorage.cpp:10-65 | every run of insertions ends in a chronological, fully indexed view of exactly the inserted rows |
| ChatLineOrder.SortedIsUnique | src/chatlog/chatlinestorage.h:34-37 | a set of rows has only one chronological order |
| ChatLineOrder.HistoryIndependence | src/chatlog/chatlinestorage.cpp:10-65 | two runs that insert the same rows, in any order and with any repetitions, end in the same view |
| ChatLineErase.EraseRemovesDatesOnly | src/chatlog/chatlinestorage.cpp:98-127 | besides the row only the maximal run of date lines above it goes, and only when nothing of its day is left; the rest keeps its order |
| ChatLineErase.EraseKeepsRows | src/chatlog/chatlinestorage.cpp:98-127 | every other row is unchanged but for the loss of its index entry |
| ChatLineErase.EraseIndexCount | src/chatlog/chatlinestorage.cpp:105-115 | the exact number of index entries dropped by one erase |
| ChatLineErase.SizeEquation | src/chatlog/chatlinestorage.h:150-152 | lines are date lines, indexed messages and messages that lost their entry |
| ChatLineErase.CoverageBySize | src/chatlog/chatlinestorage.h:150-152 | every message is indexed exactly when the three sizes add up |
| ChatLineErase.EraseKeepsCoverage | src/chatlog/chatlinestorage.cpp:138-146 | an erase leaves every message indexed exactly when its date lines stay or no message follows |
| ChatLineErase.EraseKeepsOrder | src/chatlog/chatlinestorage.cpp:98-127 | an erase keeps the view chronological |
| ChatLineErase.EraseKeepsTidy | src/chatlog/chatlinestorage.cpp:201-208 | erasing a message from a tidy view removes at most one date line and leaves it tidy |
| ChatLineErase.InsertEraseIff | src/chatlog/chatlinestorage.cpp:10-127 | the exact condition under which erasing a row just inserted restores the view |
| ChatLineErase.RoundTrip | src/chatlog/chatlinestorage.cpp:10-96 | in a tidy view, inserting a new index and erasing it restores lines, date lines and index |
| ChatLineErase.CommandKeepsOrderIff | src/chatlog/chatlinestorage.cpp:10-127 | one insertion or erasure leaves a chronological view chronological exactly when its search passes no unindexed message |
| ChatLineErase.RunIsChronologicalIff | src/chatlog/chatlinestorage.cpp:10-127 | over every run of insertions and erasures of any rows: all states are chronological exactly when all insertions search exactly |
| ChatLineErase.DayBoundaryInRun | src/chatlog/chatlinestorage.cpp:49-55 | in every state such a run reaches, a message stands above a date line exactly when it is earlier |
| ChatLineErase.RunIsCoveredIff | src/chatlog/chatlinestorage.cpp:10-127 | over every run of insertions and erasures: every message is indexed in every state exactly when no erasure costs another message its entry |
| ChatLineErase.TwoDaysIsReachable | src/chatlog/chatlinestorage.cpp:10-65 | the view of the next two rows is reached by insertions |
| ChatLineErase.EraseLosesEntry | src/chatlog/chatlinestorage.cpp:138-146 | witness: erasing one message takes the index entry of another |
| ChatLineErase.LostEntryConsequences | src/chatlog/chatlinestorage.cpp:13-21 | witness: afterwards a message can be shown twice and one lands below the wrong date line |
| ChatLineDays.DaysAlwaysIff | src/chatlog/chatwidget.cpp:522-536 | over every run that mixes messages shown with their date lines and erasures of single rows: all states are chronological, without empty day and with every message's day shown, exactly when only messages are erased and all searches are exact |
| ChatLineDays.EraseKeepsDays | src/chatlog/chatlinestorage.cpp:98-127 | erasing a message costs no other message the date line of its day |
| ChatLineDays.BelowItsDay | src/chatlog/chatwidget.cpp:522-536 | in such a state every message stands below the date line of its day |
| ChatLineDays.NextIsOfDay | src/chatlog/chatlinestorage.cpp:201-208 | in such a state the row below a date line is a message of that day |
| ChatLineRemoval.RemoveLoop | src/chatlog/chatwidget.cpp:1020-1025 | the removal loop terminates, never runs past its end line, and computes RemoveRange, for every range that does not begin below its end line |
| ChatLineRemoval.RemoveLines | src/chatlog/chatwidget.cpp:1010-1025 | the range is clamped to the shown indexes before the loop |
| ChatLineRemoval.EndsIffRange | src/chatlog/chatwidget.cpp:1022-1025 | exactly for the other ranges the loop never stands at its end line and runs past the last line |
| ChatLineRemoval.RemoveRangeClosedForm | src/chatlog/chatwidget.cpp:1010-1025 | what is left of any view, whatever entries it has lost, in closed form |
| ChatLineRemoval.KeepsWhatFollows | src/chatlog/chatwidget.cpp:1020-1025 | for any view, the rows behind the range survive exactly when there are none or every row of the range is an indexed message |
| ChatLineRemoval.RemovalEmptiesView | src/chatlog/chatwidget.cpp:1010-1025 | witness: removing one message of a reachable, fully indexed view removes everything |
| ChatLineRange.RowsBefore | src/chatlog/chatwidget.cpp:1010-1025 | a message before the range stays, with its entry, unless the range begins past everything shown and it is the last one |
| ChatLineRange.RowsInside | src/chatlog/chatwidget.cpp:1010-1025 | no index of the range is left |
| ChatLineRange.RowsBehind | src/chatlog/chatwidget.cpp:1010-1025 | of a fully indexed view, a message behind the range stays exactly when no day starts inside the range |
| ChatLineRange.LastIsLost | src/chatlog/chatwidget.cpp:1017-1018 | witness: removing the empty range behind the last message removes the last message |
| ChatLineWindow.BatchIsTidy | src/chatlog/chatwidget.cpp:522-536 | a batch from the log, shown with its date lines in any order and wherever it lands, keeps the view chronological, fully indexed, without empty day and with every message's day shown |
| ChatLineWindow.BatchIsShown | src/chatlog/chatwidget.cpp:522-536 | exactly the indexes of the batch join those shown, with their own lines and times, and no row goes |
| ChatLineWindow.RemoveKeepsWindow | src/chatlog/chatwidget.cpp:1010-1025 | so does the removal of any range |
| ChatLineWindow.WindowAlways | src/chatlog/chatwidget.cpp:1164-1201 | so does every run of batches and removed ranges, with no assumption on searches or states |
| ChatLineWindow.WindowIsDetermined | src/chatlog/chatwidget.cpp:1164-1201 | two such runs that end with the same messages end with the same rows, however the window got there |
| ChatLineSlide.InsertChatlines | src/chatlog/chatwidget.cpp:522-536 | the loop over a batch, with the test for the date line, shows the batch |
| ChatLineSlide.RenderMessages | src/chatlog/chatwidget.cpp:1133-1160 | exactly the messages of the range that the log has and the view does not are inserted |
| ChatLineSlide.SetRenderedWindowStart | src/chatlog/chatwidget.cpp:1162-1201 | the three ways to move the window, as removals and insertions on the storage |
| ChatLineSlide.SlideShowsIff | src/chatlog/chatwidget.cpp:1162-1201 | a window of consecutive messages, moved to a new start, shows exactly the messages from there up to the window size: if and only if, moving down, the old and the new first message are of one day and the window was not too long; otherwise, that the end of the window changes |
| ChatLineSlide.SlideKeepsWindow | src/chatlog/chatwidget.cpp:1162-1201 | however it is moved, the view stays chronological and fully indexed with every message below its day |
| ChatLineSlide.SlideOverMidnight | src/chatlog/chatwidget.cpp:1188-1193 | witness: moved down by one over the end of a day, the window is empty |
| ChatLineSlide.SlideUpLosesLast | src/chatlog/chatwidget.cpp:1194-1197 | witness: moved up to show the whole log, the window loses the last message |
| ChatLinePurge.DropOldest | src/chatlog/chatwidget.cpp:1353-1360 | the loop of a hidden widget leaves the last lines, and each dropped row without an entry has taken one of theirs |
| ChatLinePurge.DropKeepsOrder | src/chatlog/chatwidget.cpp:1353-1360 | the lines left stay chronological |
| ChatLinePurge.DropKeepsCoverage | src/chatlog/chatwidget.cpp:1353-1360 | from a fully indexed view, every message left keeps its entry exactly when no date line was dropped or no message is left |
| ChatLinePurge.DropIndexCount | src/chatlog/chatwidget.cpp:1353-1360 | the exact number of entries left |
| ChatLinePurge.DropLosesEntry | src/chatlog/chatwidget.cpp:1353-1360 | in every view of the sliding window, dropping something and leaving something costs a message its entry |
| ChatLinePurge.Clear | src/chatlog/chatwidget.cpp:717-724 | the clearing loop ends with exactly the rows kept, with their marks in closed form |
| ChatLinePurge.ClearKeepsLines | src/chatlog/chatwidget.cpp:717-724 | the lines left are the active transfers in their order |
| ChatLinePurge.ClearKeepsCoverage | src/chatlog/chatwidget.cpp:717-724 | from a fully indexed view, the lines left keep their entries exactly when no date line stood above any of them |
| ChatLinePurge.ClearLosesEntry | src/chatlog/chatwidget.cpp:717-724 | in every view of the sliding window, clearing with an active transfer costs one its entry |
| ChatLinePurge.DropInTwoDays | src/chatlog/chatwidget.cpp:1353-1360 | witness: dropping one line of two days takes the first message's entry |
| ChatLinePurge.ClearInTwoDays | src/chatlog/chatwidget.cpp:717-724 | witness: clearing two days with one transfer takes its entry |
| IpcModel.NameArrives | src/ipc.cpp:133-163 | a posted name that fits reaches the handler lookup unchanged exactly when it has no zero byte, a full field included |
| IpcModel.DataArrives | src/ipc.cpp:138-163 | the exact condition under which posted data reaches the handler unchanged, where the reader goes on past a full field into the ticket |
| IpcModel.FullDataRunsOn | src/ipc.cpp:138-163 | witness: accepted data of 128 bytes that arrives with a byte of the ticket behind it |
| IpcModel.FindFrom | src/ipc.cpp:269-290 | the fetched slot is the first that is eligible after collection |
| IpcSlots.PostCarries | src/ipc.cpp:131-174 | a post succeeds exactly when name and data fit and a slot is free; then one free slot and the history carry addressee, sender, name and data as given, padded with zeros, and nothing else changes; otherwise nothing changes |
| IpcSlots.PostedArrives | src/ipc.cpp:131-358 | over every run, from the poster to the handler: the exact conditions under which a handler run for a post has its name and its data, and in which processes it happens |
| IpcSlots.FetchesFirst | src/ipc.cpp:269-290 | the fetched slot is the first whose event, by its fields, is pending, not too old at its reading, not the process's own, and addressed to its profile or global with this process as owner |
| IpcSlots.HandlerMarks | src/ipc.cpp:338-353 | a handler run leaves its answer in the slot and, unless the event is global and declined, the time at which it returned; it got the name and data of the slot |
| IpcSlots.CollectsExactly | src/ipc.cpp:275-281 | a slot that a pass goes by is freed exactly when its event, pending or processed, is older than the timeout, and is unchanged otherwise |
| IpcSlots.LastPassCollects | src/ipc.cpp:269-290 | what a whole call leaves in each slot, by the reading of its last pass |
| IpcSlots.LateCallEmpties | src/ipc.cpp:269-363 | a call that comes after the timeout of all events, processed ones included, empties the table, and the next post that fits succeeds |
| IpcInvariants.StepInv | src/ipc.cpp:131-363 | every action of every process keeps the slots, tickets and handler runs consistent |
| IpcInvariants.ExecInv | src/ipc.cpp:131-363 | so does every run |
| IpcInvariants.HandledOnce | src/ipc.cpp:337-358 | only a declined global event is run again: at most one accepting run per event, at most one run of a directed event |
| IpcInvariants.OpenAfterRun | src/ipc.cpp:341-353 | after a handler run the event can be run again exactly when it is global and was declined; the slot carries the answer |
| IpcInvariants.UnhandledIsLeft | src/ipc.cpp:354-357 | an event without a handler stays as it is and open, to be fetched again |
| IpcInvariants.RunByAddressee | src/ipc.cpp:283-286 | handlers run in a process of the addressed profile (profile 0 counts as addressed by global events) or, for global events, in the owner, and never in the sender |
| IpcInvariants.GlobalRunByOwner | src/ipc.cpp:283-286 | a process with a profile other than 0 runs a global event only as the owner |
| IpcInvariants.AcknowledgementIsSound | src/ipc.cpp:208-232 | an accepted ticket was posted in this epoch and another process's handler for its name returned true |
| IpcInvariants.SeenAcceptedWasHandled | src/ipc.cpp:234-249 | a ticket seen accepted at any moment of a run belongs to an event of the epoch of that moment whose handler returned true; whether this is the caller's event is decided in IpcTickets |
| IpcInvariants.OwnPostWasHandled | src/appmanager.cpp:333-335 | a poster that sees the ticket of its post accepted in the same epoch has had its own event accepted by another process |
| IpcInvariants.FailedPostIsNeverAccepted | src/ipc.cpp:129-154 | ticket 0 is never accepted |
| IpcInvariants.PostIsFresh | src/ipc.cpp:151-169 | a post changes one free slot and its ticket exceeds every ticket of the epoch |
| IpcInvariants.GoneStaysGone | src/ipc.cpp:165-281 | a collected ticket never reappears in its epoch |
| IpcInvariants.HistoryGrows | src/ipc.cpp:151-358 | posts and handler runs are never undone |
| IpcInvariants.ResultIsStable | src/ipc.cpp:275-281 | a processed event keeps its slot unchanged until the collection timeout has passed, whatever other processes do |
| IpcInvariants.AnswerIsStable | src/ipc.cpp:219-227 | in every run, during that time the sender's question is answered with the handler's result, exactly from the moment the lease is newer than the ticket |
| IpcTickets.TicketsFreshIff | src/ipc.cpp:165-331 | over every run: the next ticket always exceeds all tickets of all epochs exactly when every wipe finds the clock past the last ticket by its next reading |
| IpcTickets.NextTicketIsLeast | src/ipc.cpp:165 | in every reachable state the next ticket is the least one not behind the clock that exceeds every ticket of the epoch |
| IpcTickets.WipeKeepsTicketsFreshIff | src/ipc.cpp:165-331 | the same for one wipe and all that can follow in the new epoch |
| IpcTickets.OldTicketsAreNotAccepted | src/ipc.cpp:208-232 | with such late wipes a ticket of an earlier epoch is never accepted |
| IpcTickets.AcceptedMeansMine | src/appmanager.cpp:333-335 | with late wipes a poster that sees its ticket accepted at any later time has had its own event accepted, whatever the epoch |
| IpcTickets.NeverAnotherAnswerIff | src/ipc.cpp:208-331 | after a takeover no future, whatever the clock and the processes do, answers for an event of an earlier epoch exactly when the last ticket lies before the new lease |
| IpcTickets.TicketsRepeatAcrossEpochs | src/ipc.cpp:165-331 | witness: after one post and a takeover in the same second the next ticket was given before |
| IpcTickets.AcceptedForAnother | src/ipc.cpp:208-232 | witness: the first poster sees its ticket accepted and no handler ever ran for its event |
| IpcLease.TimelyOwnerIsKept | src/ipc.cpp:71-76 | over every run: the owner is never displaced and its queue never wiped exactly when the segment is not created anew, the owner does not leave, and every look of another process comes before the timeout after a renewal |
| IpcLease.Succession | src/ipc.cpp:319-334 | after the owner's last renewal nobody takes over before the timeout, and the first process to look afterwards owns an empty queue |
| IpcLease.CleanExitStillWaits | src/ipc.cpp:109-122 | witness: after a clean exit there is no owner until the timeout |
| IpcProcess.Ipc.constructor | src/ipc.cpp:59-107 | creating or attaching, followed by a first round of events, as recorded in the history; a segment created but not locked is not zeroed, and a process that can neither create nor attach leaves the memory alone |
| IpcProcess.Ipc.Leave | src/ipc.cpp:109-122 | the destructor's effect is the exit action |
| IpcProcess.Ipc.PostEvent | src/ipc.cpp:131-174 | the in-place search and write are the post action; the result is its ticket, or 0 on failure |
| IpcProcess.Ipc.IsEventAccepted | src/ipc.cpp:208-232 | the loop answers IsAccepted |
| IpcProcess.WaitUntilAccepted | src/ipc.cpp:234-249 | over the memory as a run leaves it between the polls: true exactly when some poll finds the event accepted before one comes at least the timeout after the start, and then another process's handler accepted the event that carries the ticket |
| IpcProcess.Ipc.FetchEvent | src/ipc.cpp:269-290 | the in-place sweep collects exactly the expired slots up to the one returned |
| IpcProcess.Ipc.RenewLease | src/ipc.cpp:319-334 | renewal or takeover as the lease action says |
| IpcProcess.Ipc.Serve | src/ipc.cpp:338-357 | the handler registered for the name is called with the data as read from the slot, and the event is marked |
| IpcProcess.Ipc.ProcessEvents | src/ipc.cpp:306-363 | the state is that of the lease and the passes made; it ends with no slot that holds a pending event of another process for this profile or, in the owner, for all; every run got its answer from the registered handler during this call, and there are at most 33 passes if the handlers close whatever is found |
| IpcDelivery.LateFetchFindsNothing | src/ipc.cpp:275-281 | once the clock is past the last ticket by the collection timeout, a fetch finds nothing |
| IpcDelivery.DrainsFast | src/ipc.cpp:336-360 | whatever the clock does: one pass for each pending event and a last one, if every event found is directed or accepted |
| IpcFairness.DeliveredIff | src/ipc.cpp:306-363 | one whole call runs an event with a handler exactly when every event before it that this process may run will be closed or is older, where the clock leaves time to reach it |
| IpcFairness.StarvedBehind | src/ipc.cpp:269-360 | an event behind a younger one that is never closed, having no handler or being global and declined, is never run, whatever the clock does |
| IpcFairness.StarvedInARun | src/ipc.cpp:269-360 | witness: a reachable state in which the call collects an event that its handler would have accepted |
| AsyncJoin.NothingLostOnTheWay | tools/lsp_tidy.py:347-374 | at every moment what was delivered or queued of a generator is exactly what was taken from it, in order |
| AsyncJoin.JoinIsLossless | tools/lsp_tidy.py:347-374 | when the loop has ended, under any interleaving, every item of every generator was delivered once and in order |
| AsyncJoin.ExitMeansDone | tools/lsp_tidy.py:369-381 | after the loop has ended every generator is exhausted and every producer finished; only the closing gather is left, and it never fails |
| AsyncJoin.WorkIsConserved | tools/lsp_tidy.py:347-374 | productive steps and remaining work add up to the initial work in every schedule |
| AsyncJoin.NeverStuck | tools/lsp_tidy.py:347-374 | a productive step is always available until the work is done, and then the check ends the loop |
| AsyncJoin.EndsSoon | tools/lsp_tidy.py:369-374 | when the work is done the consumer leaves its loop within two steps, also when it was waiting for an item |
| AsyncJoin.JoinCanEnd | tools/lsp_tidy.py:347-374 | whatever has happened so far, some schedule ends the loop with exactly the work that is left, and without a timeout if the consumer is about to test |
| IncludeHash.OnlyClosureMatters | tools/lsp_tidy.py:125-151 | file sets that agree on an include-closed set of names give its files the same digest |
| IncludeHash.DigestText | tools/lsp_tidy.py:147-151 | the text hashed is the file's own, followed by the digests of its includes in their order |
| IncludeHash.TwoIncludes | tools/lsp_tidy.py:147-151 | for a file with two includes: its text, the digest of the first, the digest of the second |
| IncludeHash.DigestHashesTree | tools/lsp_tidy.py:138-151 | the digest is the hash of the tree of texts and fails exactly when a file of the closure is missing |
| IncludeHash.HashIsInjective | tools/lsp_tidy.py:147-151 | without collisions among the hashed texts, the digest determines the whole tree of texts |
| IncludeHash.DigestIdentifiesClosure | tools/lsp_tidy.py:125-151 | two files have the same digest exactly when their include closures carry the same texts in the same places |
| ChatLineLayout.ChatLine.Layout | src/chatlog/chatline.cpp:149-218 | the loops compute the specified widths, positions and bounding box; an empty line is left alone |
| ChatLineLayout.ChatLine.MoveBy | src/chatlog/chatline.cpp:220-227 | every item and the box move down by the distance |
| ChatLineLayout.ChatLine.UpdateBBox | src/chatlog/chatline.cpp:106-114 | the box has the line's width and reaches down to the lowest item |
| ChatLineLayout.ChatLine.AddColumn | src/chatlog/chatline.cpp:121-129 | item and format are appended together; a missing item changes nothing |
| ChatLineLayout.ChatLine.ReplaceContent | src/chatlog/chatline.cpp:131-147 | an item put into a valid column replaces its content and the line is laid out where it was; otherwise nothing changes |
| ChatLineLayout.ColumnsFill | src/chatlog/chatline.cpp:157-182 | columns and gaps fill the wider of the line and the fixed part exactly when the variable sizes do not sum to zero or nothing is left over |
| ChatLineLayout.ColumnsDisjoint | src/chatlog/chatline.cpp:176-206 | with nonnegative sizes columns are disjoint and neighbours exactly the spacing apart |
| ChatLineLayout.ItemInsideColumn | src/chatlog/chatline.cpp:187-202 | whatever its alignment, an item no wider than its column stays inside it |
| ChatLineLayout.AlignmentPlaces | src/chatlog/chatline.cpp:187-202 | a left-aligned item starts where its column starts, a right-aligned one ends where it ends, and a centred one has equal gaps on both sides |
| ChatLineLayout.WidthsInProportion | src/chatlog/chatline.cpp:176-185 | fixed columns have their size, and variable ones are to each other as their sizes |
| ChatLineLayout.OneBaseline | src/chatlog/chatline.cpp:205-215 | all columns share one baseline and none starts above the line |
| ChatLineLayout.BaselineIsTight | src/chatlog/chatline.cpp:205-215 | some item stands at the top of the line, or the baseline is the top of the line |
| ChatLineLayout.HeightIsTight | src/chatlog/chatline.cpp:106-114 | the height is the least one, from 0 up, that reaches the bottom edge of every item |
| ChatLineLayout.LaidAgain | src/chatlog/chatline.cpp:143-218 | a layout does not depend on where the items were before |
| ChatLineLayout.LayoutCommutesWithMove | src/chatlog/chatline.cpp:149-227 | laying out and moving down gives the same items and box as laying out further down |

## Left out

- ChatLineRemoval.RemoveLoop: a range that begins below its end line has no result to state, because the source then erases past the last line; ChatLineRemoval.EndsIffRange says exactly when.
- ChatLineRemoval.RemoveLines: excludes the same ranges after clamping, with which the widget never calls it.
- ChatLineSlide.SetRenderedWindowStart: the new start is within the log, and the line objects are named by what they show (a line made anew for the same message has the same name as one removed before).
- IpcModel.DataArrives: the ticket is read as eight bytes, least significant first; what lies behind it is not part of this model.
- IpcFairness.DeliveredIff: handlers that accept a waiting global event only at some moments are outside the condition, which a caller could not check before the call.
- AsyncJoin.ExitMeansDone: the gather counts a producer as done once it has acquired the semaphore, which is the last thing it does.
- IpcProcess.Ipc.constructor: what the other methods do in a process that is not attached (they return at once) is not part of this model.
- IpcProcess.WaitUntilAccepted: without a positive timeout the source may wait forever, which shows as a third outcome.
- IncludeHash.DigestIdentifiesClosure: hash collisions are excluded among the texts hashed for the two files only; the regular expression that finds includes is represented by the number of include lines it counts.
- IpcProcess.Ipc.ProcessEvents: the clock is required to pass the last ticket by the collection timeout at some reading; with a stopped clock and an event nobody handles, the source's loop does not end.
- ChatLineLayout.ChatLine.Layout: items are values whose measures depend on their width only; scene membership, visibility and repainting are not modelled, and arithmetic is exact.
- Widget operations besides showing batches, removing ranges, moving the window, dropping the oldest lines and clearing: selection, scrolling, search and visibility.
- Qt's shared memory itself: segment destruction, failing locks, timers, calls across threads, and handlers that call back into the IPC object.
- Integer widths: times, tickets and sizes are unbounded integers; process and owner identifiers are numbers, and owner identifiers are assumed to be non-zero where it matters.
- The slot fields `flags` and `global`, which nothing reads or writes apart from zeroing.
- A get that is cancelled by its timeout in the asynchronous fan-in is taken to lose no item.
- clangd process handling, JSON, file walking and the on-disk cache of the lint tool.
- Friend and conference lists, start-up and login code, audio, translations and packaging scripts: map updates and plumbing that would only add easy members.
