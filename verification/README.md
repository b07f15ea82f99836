# Verified model of a GPS-disciplined clock

This project models the parts of the clock's firmware that carry its guarantees, and
proves those guarantees with Dafny. `dafny verify dfyconfig.toml` checks all of it.

| file | component |
|---|---|
| `Words.dfy` | 32- and 64-bit words with explicit wrap-around |
| `SchedulerModel.dfy`, `SchedulerInvariant.dfy`, `SchedulerRuns.dfy` | the task scheduler as a state machine with interrupts, its invariant, theorems over all runs |
| `SchedulerTiming.dfy` | when tasks run: deadlines and starts against the events that created, adjusted and woke the task |
| `SchedulerConstructed.dfy` | the same over a pool whose constructors have run |
| `Scheduler.dfy` | the scheduler's code on linked nodes, following that state machine step by step |
| `TxRing.dfy` | the Ethernet transmit ring, shared with a DMA engine |
| `ClockUtil.dfy`, `ClockMono.dfy`, `ClockComp.dfy`, `ClockTai.dfy`, `Capture.dfy`, `Ptp.dfy` | fixed-point clocks, packet time stamps, PTP time stamps |
| `Ubx.dfy`, `Nmea.dfy`, `GpsRing.dfy`, `UbxPort.dfy` | GPS receiver messages: printer and parser, the test of text lines, the UART's rings, the port |
| `Calendar.dfy` | GPS time and dates |
| `Ber.dfy`, `BerMessages.dfy` | BER codec of the SNMP agent, and which messages the agent takes |
| `Checksum.dfy` | IPv4 and UDP checksums |
| `Interleave.dfy`, `Sources.dfy` | the NTP server's interleave table and source list |
| `LinearFit.dfy`, `QuadraticFit.dfy`, `RealFacts.dfy` | the two regressions, over exact reals |

## How the model reads the firmware

**Concurrency.** The scheduler's main loop is cut wherever an interrupt could be told
apart: at each access to `taskUpdate` or to a task's `schedule`, each reading of the
tick counter, each unlink and each insertion. Between any two steps time may pass and
handlers may wake tasks. In `Scheduler.dfy` the same happens on the heap: `Interrupts`
stands between the statements, and ghost state follows the state machine, so that
`Scheduler.Firmware` inherits the theorems about runs. In `TxRing.dfy` the DMA engine
(`TxRing.TxRing.Dma`) runs any number of steps between the driver's statements, also
inside the loops.

**Assumptions on the surroundings**, each visible as a precondition or as `Enabled`:
a wake names a task that is allocated and not cancelled; no task is ever 2^30 ticks late;
updates of the clocks, and reads of the present time, come less than 2^31 units after the
last update, stamps of packets and edges within 2^31 units on either side of it; a capture
interrupt is served within 2^24 ticks; name servers do not answer with the address zero.
For the last, and for the constructed task pool, the exact consequence of the opposite is
proved as well.

**Where a property is not true of the code**, the code is kept and the exact condition is
proved:

- The pool's constructor marks nodes as cancelled, where a zero-filled pool reads as free.
  With constructed nodes one sleeping task and one wake make the first update pass unlink
  a node that was never linked. `SchedulerRuns.UnlinkFaultExactly`: some run faults if and
  only if the pool was constructed. Run by run
  (`SchedulerConstructed.ConstructedFaultsExactly`): it faults exactly with the first update
  pass that comes to a slot in which no task was ever created. All other theorems are about
  the zero-filled pool, and until then hold of the constructed one
  (`SchedulerConstructed.AsZeroKeeps`).
- With an empty queue the scheduler looks at the queue's own root node. Zero-filled, its
  callback is null, and it is called exactly while the tick counter is below 2^31
  (`SchedulerRuns.EmptyQueueFaultsExactly`); a start without any task does so in the first
  turn (`SchedulerRuns.NoTaskFaults`).
- The date conversion is right exactly from 1 March 2000 to 29 February 2400, of all years
  that the 16-bit field can hold (`Calendar.EpochExactly`).
- The end of a text line is stored as a zero behind it without a test for room. It goes into
  the byte behind the message buffer exactly if 254 bytes or more stand between dollar and
  line end (`Ubx.OverlongExactly` for a line, `Ubx.SpillsExactly` for any stream of bytes;
  `Ubx.OverlongLine` is one). That byte is modelled, and `UbxPort.GpsPort.RunParse` says when
  it is lost; what else may live there is not.
- A UBX message survives the parser exactly when its payload has at most 248 bytes, though
  `sendUBX` accepts 512 (`Ubx.RoundTripExactly`).
- A UDP checksum that comes out as zero is stored as zero, which RFC 768 reserves for "no
  checksum". That happens exactly when the sum is a multiple of 2^16 - 1
  (`Checksum.UdpFinalize`, `Checksum.FinishedZeroExactly`); `Checksum.UnprotectedFrame` is
  such a frame, and by `Checksum.SomeDataStoreZero` every datagram with a word of data
  becomes one for some value of that word.
- The SNMP agent reads back its own message exactly while the length takes two octets
  (`Ber.ReadsBackExactly`). What it reads for an INTEGER is a matter of that element alone
  exactly if the element has content (`Ber.ElementDecidesExactly`); without any the octets
  behind it decide, as in `Ber.EmptyIntegerReadsAhead`. It goes on with negative offsets
  after a number that it cannot read, and so takes a message with such a number exactly if
  the message is 49 bytes long and the byte before it is that of a sequence
  (`Ber.UnreadableTakenExactly`; `Ber.UnreadableTaken` is one).
- The test for room in `network::transmit` protects the ring except for a frame of no
  bytes on a full ring (`TxRing.RoomTestExactly`, `TxRing.TxRing.Transmit`), after which the
  indices read as those of an empty ring while every slot is in flight
  (`TxRing.TxRing.Overfull`).
- The rings of the UART have no test for room: they keep everything exactly while fewer than
  256 bytes are in them (`GpsRing.KeptExactly`).
- The source table stays right after a name server's answer exactly if the answer is
  refused or is not the address zero (`Sources.Table.DnsCallback`).

The comments of run.cpp give 16 seconds as the longest interval; the code saturates just below
2^30 ticks, which is 8.59 seconds (`SchedulerTiming.ToMonoRawIs`). The model follows the
code.

## Model

| member | source | states |
|---|---|---|
| `Words.WrappedDifference` | tm4c/lib/run.cpp:116-118 | the signed difference of two wrapped counters is the true difference while the counters are less than half a turn apart |
| `SchedulerModel.ToMonoRawBound` | tm4c/lib/run.cpp:78-84 | no interval exceeds 2^30 ticks, and a second or more is at least the clock frequency |
| `SchedulerInvariant.InsertAtSplits` | tm4c/lib/run.cpp:285-299 | the wrapped comparison finds the absolute place: all before it due no later, all from it on due strictly later |
| `SchedulerInvariant.InsertKeepsOrder` | tm4c/lib/run.cpp:285-299 | insertion keeps the queue sorted by absolute deadline, first come first served among equals |
| `SchedulerInvariant.InsertedIs` | tm4c/lib/run.cpp:285-299 | insertion adds exactly the one task and repeats none |
| `SchedulerInvariant.PoppedIs` | tm4c/lib/run.cpp:123-126 | unlinking removes exactly the one task |
| `SchedulerInvariant.ReadyIsDue` | tm4c/lib/run.cpp:116-118 | a task tests ready if and only if its absolute deadline has come |
| `SchedulerInvariant.LookKeeps` | tm4c/lib/run.cpp:372-380 | the look at the queue keeps the invariant unless it calls the root's null callback, which it does exactly when the queue is empty and the root tests ready |
| `SchedulerInvariant.WakeKeeps` | tm4c/lib/run.cpp:406-409 | wakes of live tasks at any point of the main loop keep the invariant |
| `SchedulerInvariant.CancelKeeps` | tm4c/lib/run.cpp:411-414 | cancelling queued tasks, woken or not, keeps the invariant: each waits for an update pass, and its wake lapses |
| `SchedulerInvariant.NewKeeps` | tm4c/lib/run.cpp:384-400 | creating a task moves one slot from the free stack to its place in the queue |
| `SchedulerInvariant.FreeKeeps` | tm4c/lib/run.cpp:261-272 | the update of a cancelled task moves its slot from the queue to the free stack |
| `SchedulerInvariant.UnlinkKeeps` | tm4c/lib/run.cpp:275-277 | between unlink and insertion the slot is in hand, in no list, and nothing else is lost |
| `SchedulerInvariant.StampKeeps` | tm4c/lib/run.cpp:307-308 | the new deadline lies within 2^30 ticks of now, wrapped and absolute agreeing |
| `SchedulerInvariant.LinkKeeps` | tm4c/lib/run.cpp:279-282 | insertion of the slot in hand keeps the whole invariant |
| `SchedulerInvariant.RunKeeps` | tm4c/lib/run.cpp:140-148 | the tests for Wait and Wake, and the return to Wait, keep the invariant with wakes between them |
| `SchedulerInvariant.MainKeeps` | tm4c/lib/run.cpp:362-382 | every step of the scheduler's own keeps the invariant: conservation, timeliness, order, wakes and cancellations; or it calls the null callback of the root of an empty queue |
| `SchedulerRuns.StepKeeps` | tm4c/lib/run.cpp:362-414 | every event, of the main loop, of handlers, of callbacks or of time, keeps the invariant until the pool is exhausted or the root of an empty queue is called |
| `SchedulerRuns.EveryRun` | tm4c/lib/run.cpp:230-452 | in every state of every run each slot is in exactly one place, the queue is sorted by absolute deadline, and the outstanding wakes and cancellations are kept |
| `SchedulerRuns.NoWakeLost` | tm4c/lib/run.cpp:406-409 | from a wake until the task's callback next starts or the task is cancelled, the task stays woken, and the update flag is up, or the pass under way has yet to reach it, or its deadline has come |
| `SchedulerRuns.PendingWakeIsServed` | tm4c/lib/run.cpp:373-375 | with a wake outstanding and the flag down the scheduler does not go idle |
| `SchedulerRuns.HeadSpeaksForAll` | tm4c/lib/run.cpp:373-375 | the head is the earliest, first queued among equals; if it is not ready no queued task is due |
| `SchedulerRuns.LookRunsEarliest` | tm4c/lib/run.cpp:372-378 | a look at the queue runs a task if and only if one is due, and then the earliest deadline of all that are queued, the first to come among equals |
| `SchedulerRuns.CancelledNeverStarts` | tm4c/lib/run.cpp:261-272 | when a callback starts no cancelled task is left in the pool, and the task that starts is queued and due |
| `SchedulerRuns.CancelSilences` | tm4c/lib/run.cpp:411-452 | over any run, once cancelled a task does not start again as long as no new task is created in its slot |
| `SchedulerRuns.HistoryIsRun` | tm4c/lib/run.cpp:362-382 | a history kept event by event is a run of the state machine, so that the heap code's history has every theorem about runs |
| `SchedulerRuns.CalleeIsOwners` | tm4c/lib/run.cpp:384-400 | over any history a live task holds the callback and argument of the creation that put it into its slot |
| `SchedulerRuns.TurnsAreLooks` | tm4c/lib/run.cpp:362-382 | the turns of the endless loop that a state counts are the looks at the queue in its history |
| `SchedulerRuns.EmptyQueueFaultsExactly` | tm4c/lib/run.cpp:372-380 | a look at the queue ends in the null callback of the root if and only if the queue is empty and the counter below 2^31 |
| `SchedulerRuns.NoTaskFaults` | tm4c/lib/run.cpp:362-380 | there is a lawful history that ends there: a start without a task |
| `SchedulerRuns.ConstructedPoolFaults` | tm4c/lib/run.cpp:241-251 | with nodes constructed as cancelled a run exists that unlinks a node that is not linked |
| `SchedulerRuns.UnlinkFaultExactly` | tm4c/lib/run.cpp:241-272 | such a run exists if and only if the nodes start as cancelled |
| `SchedulerTiming.ToMonoRawIs` | tm4c/lib/run.cpp:78-84 | an interval in 8.24 seconds is that many ticks of 8 ns, rounded down, and 2^30 - 1 of them when it is longer |
| `SchedulerTiming.LifeAccounts` | tm4c/lib/run.cpp:140-414 | over any lawful history the record of a live task agrees with its creation, its adjustments, its wakes and its starts and returns: its interval is the one last given, its kind that of its creation until it is woken |
| `SchedulerTiming.DeadlineGiven` | tm4c/lib/run.cpp:275-311 | a requeued task gets its old deadline plus its interval if it was created as periodic and never woken, else the tick of the requeueing plus its interval; a woken one gets the tick of the update itself |
| `SchedulerTiming.PeriodicIsExact` | tm4c/lib/run.hpp:47-54 | the exact execution rate that is promised: after k requeueings the deadline of a periodic task that was never woken is its creation plus k + 1 intervals, however late it ran, with one start for each deadline and none before it |
| `SchedulerTiming.PauseIsWhole` | tm4c/lib/run.cpp:301-355 | a sleeping or waiting task that was never woken starts no sooner than its whole interval after its last return, or after its creation; 2^30 ticks for a waiting one |
| `SchedulerTiming.StartsNeedWakes` | tm4c/lib/run.cpp:140-148 | once woken, a task starts no more often than it is woken, but for one start that was on its way at the first wake |
| `SchedulerConstructed.AsZeroKeeps` | tm4c/lib/run.cpp:241-283 | a run over constructed nodes has the invariant of runs over zero-filled ones as long as no update pass tests a node that is as its constructor left it |
| `SchedulerConstructed.ConstructedFaultsExactly` | tm4c/lib/run.cpp:241-283 | any such run unlinks a node that is not linked exactly with the first event in which an update pass tests a slot that no creation has used |
| `SchedulerConstructed.PassNeedsAll` | tm4c/lib/run.cpp:366-370 | a pass gets past a slot only if a task was created in it before, so past all of them only if the whole pool was used |
| `Scheduler.TaskQueue.constructor` | tm4c/lib/run.cpp:230-239 | the linked pool and the empty ring are the state machine's start state |
| `Scheduler.TaskQueue.LinkPool` | tm4c/lib/run.cpp:232-234 | each node of the pool points to the next, the last to none |
| `Scheduler.TaskQueue.Pop` | tm4c/lib/run.cpp:123-126 | two pointer writes take exactly one node out of the ring, qNext and qPrev staying inverse, and leave the free stack alone |
| `Scheduler.TaskQueue.Push` | tm4c/lib/run.cpp:265-270 | the node becomes the top of the free stack; the ring is untouched |
| `Scheduler.TaskQueue.FindLater` | tm4c/lib/run.cpp:286-292 | the walk stops at the first node that is later, or at the root |
| `Scheduler.TaskQueue.LinkBefore` | tm4c/lib/run.cpp:294-298 | four pointer writes splice the node in just before the one found, in both directions |
| `Scheduler.TaskQueue.Insert` | tm4c/lib/run.cpp:285-299 | the ring becomes the sequence with the task at its place; the free stack stays |
| `Scheduler.TaskQueue.Alloc` | tm4c/lib/run.cpp:253-259 | the top of the free stack is taken; ring and rest of the stack stay |
| `Scheduler.TaskQueue.Create` | tm4c/lib/run.cpp:384-400 | one creation event of the state machine, on the heap, the callback and its argument stored in the task; null, with nothing changed, exactly if the pool is exhausted |
| `Scheduler.TaskQueue.RunAdjust` | tm4c/lib/run.cpp:402-404 | one change of interval of the state machine, on the heap |
| `Scheduler.TaskQueue.RunWake` | tm4c/lib/run.cpp:406-409 | one wake of the state machine, on the heap, at any program point |
| `Scheduler.TaskQueue.CancelMatching` | tm4c/lib/run.cpp:416-452 | the walk cancels exactly the queued tasks that match, and raises the flag if there was one |
| `Scheduler.TaskQueue.TargetsSelected` | tm4c/lib/run.cpp:416-452 | which tasks a cancellation is for: a null callback stands for every callback, and a null reference beside a callback for every reference |
| `Scheduler.TaskQueue.RunCancel` | tm4c/lib/run.cpp:416-452 | one cancellation event of the state machine for the set of matching queued tasks, woken or not |
| `Scheduler.TaskQueue.Release` | tm4c/lib/run.cpp:262-272 | the step of the state machine that frees a cancelled slot, on the heap |
| `Scheduler.TaskQueue.Update` | tm4c/lib/run.cpp:261-283 | with interrupts between its statements, steps of the state machine that bring the pass to the next slot |
| `Scheduler.TaskQueue.RequeueTask` | tm4c/lib/run.cpp:301-311 | with interrupts between its statements, steps of the state machine that end the task's turn, the deadline being the one of `SchedulerTiming.DeadlineGiven` |
| `Scheduler.TaskQueue.NodeOnTime` | tm4c/lib/run.cpp:301-325 | in the node's own word: a periodic task that was requeued k times and never woken or adjusted has as runNext its creation plus k + 1 intervals, modulo 2^32 |
| `Scheduler.TaskQueue.Invoke` | tm4c/lib/run.cpp:147 | the task's own callback with its own argument is the next invocation, recorded as the start that the state machine makes |
| `Scheduler.TaskQueue.RunTask` | tm4c/lib/run.cpp:140-148 | with interrupts between its statements and any callback, steps of the state machine up to the requeueing |
| `Scheduler.TaskQueue.NextReady` | tm4c/lib/run.cpp:373-375 | the task found is the earliest queued one and due; if none is found no queued task is due; the root is found exactly when the queue is empty and the counter below 2^31 |
| `Scheduler.TaskQueue.UpdatePass` | tm4c/lib/run.cpp:366-370 | the pass over the pool is a run of the state machine from the clearing of the flag to the look at the queue |
| `Scheduler.TaskQueue.Turn` | tm4c/lib/run.cpp:364-381 | one turn of the loop extends the history by exactly one look at the queue, or stops at the root of an empty queue |
| `Scheduler.TaskQueue.RunScheduler` | tm4c/lib/run.cpp:362-382 | so many turns of the loop extend the history of the state machine by as many looks at the queue, unless it stops at the root of an empty queue |
| `Scheduler.Firmware` | tm4c/lib/run.cpp:230-382 | after set-up and so many turns the heap is in a state that the state machine reaches by a history with as many looks at the queue, with its invariant; the callbacks invoked are exactly those that it started, in order, each with the callback and argument of the creation that owned the slot; a fault is the null callback of the root |
| `TxRing.SendKeeps` | tm4c/lib/net.cpp:508-520 | the DMA engine's step keeps the ring, whatever the driver is in the middle of; what it sends is the next accepted segment |
| `TxRing.WriteKeeps` | tm4c/lib/net.cpp:483-491 | writing a new frame's segment never touches a slot in flight |
| `TxRing.AcceptKeeps` | tm4c/lib/net.cpp:502-514 | the written and flagged segments are exactly those of the new frame, all of it still held back |
| `TxRing.PublishKeeps` | tm4c/lib/net.cpp:516-520 | handing over the last segment held back keeps the rest held back |
| `TxRing.WholeFrameOwned` | tm4c/lib/net.cpp:516-520 | when the engine owns a frame's first segment it owns all of the frame |
| `TxRing.ReclaimKeeps` | tm4c/lib/net.cpp:421-422 | the slots of sent segments can be given back without disturbing the others |
| `TxRing.RoomLeft` | tm4c/lib/net.cpp:475-480 | the masked difference of the wrapped indices is the number of free slots but one |
| `TxRing.RoomTestExactly` | tm4c/lib/net.cpp:475-480 | passing the test means room for what the copy loop writes, if and only if the frame is not empty or the ring is not full |
| `TxRing.WireIsFifo` | tm4c/lib/net.cpp:470-525 | the segments sent spell whole accepted frames, unaltered and in order, then the beginning of the next |
| `TxRing.CompletionsAre` | tm4c/lib/net.cpp:367-427 | the completions of frames with callbacks are one for each frame in order, with its own callback, argument and bytes and the time at which its last segment was sent |
| `TxRing.BookedNext` | tm4c/lib/net.cpp:421-426 | reclaiming a frame adds its own callback to those invoked, and none if it has none |
| `TxRing.RunIsQueue` | tm4c/lib/net.cpp:367-525 | over any such run every accepted frame is queued once, in the order of acceptance, callbacks' own frames between them; one frame leaves with each successful poll; without a callback invoked nothing else was queued |
| `TxRing.TxRing.DmaStep` | tm4c/lib/net.cpp:508-523 | the engine changes only ownership and time stamps of the ring; when it starts a frame it owns the whole frame |
| `TxRing.TxRing.Copy` | tm4c/lib/net.cpp:482-500 | with the engine running, the loop writes the frame's segments behind those in flight |
| `TxRing.TxRing.Publish` | tm4c/lib/net.cpp:516-520 | with the engine running, the loop hands over the frame from its last segment to its first |
| `TxRing.TxRing.Transmit` | tm4c/lib/net.cpp:470-525 | accepted if and only if it is short enough and there is room by its bytes; then appended whole, else the ring is as it was, and a refusal for want of room is counted; the ring stays right exactly unless the frame is empty and the ring full |
| `TxRing.TxRing.Overfull` | tm4c/lib/net.cpp:475-480 | what comes of an empty frame on a full ring: every slot is in flight and the indices read as those of an empty ring |
| `TxRing.TxRing.FindSent` | tm4c/lib/net.cpp:369-386 | found if the oldest frame was sent whole before the call, and only if it is by now; last slot and size are that frame's |
| `TxRing.TxRing.Assemble` | tm4c/lib/net.cpp:406-419 | the bytes put together are those of the frame as it was given to transmit |
| `TxRing.TxRing.Reclaim` | tm4c/lib/net.cpp:421-422 | the tail moves behind the oldest frame, and exactly that frame's callback is owed |
| `TxRing.TxRing.Invoke` | tm4c/lib/net.cpp:424-425 | the callback owed is invoked, with that frame's argument, bytes and send time, before anything else can happen |
| `TxRing.TxRing.ProcessFrameTx` | tm4c/lib/net.cpp:367-427 | one frame sent whole is reclaimed; its callback, if it has one, is invoked once with its own argument, bytes and send time, and may transmit |
| `TxRing.TxRing.constructor` | tm4c/lib/net.cpp:117-128 | the empty ring |
| `TxRing.TxRing.Answer` | tm4c/lib/net.cpp:367-525 | one request, with the engine running, does to the queue of frames what the request is to do: acceptance exactly by room, a poll takes the oldest frame if it was sent whole before; the ring is right after it exactly unless the request is the empty frame on a full ring |
| `TxRing.TxRing.Traffic` | tm4c/lib/net.cpp:367-431 | the ring with its engine behaves as a queue: over any requests, up to the first empty frame on a full ring, the replies and the books are a run of that queue, request by request |
| `TxRing.TxRing.EveryState` | tm4c/lib/net.cpp:470-525 | in every state, also after an empty frame on a full ring, the wire has carried a number of whole accepted frames in order and part of the next, a time stamp asked for with each first segment and an interrupt with each last; no frame was reclaimed that was not sent whole, and the callbacks invoked are those of the frames reclaimed, in order, with their bytes and send times |
| `ClockUtil.NanosToFracExact` | tm4c/lib/clock/util.cpp:12-22 | the wrapped arithmetic equals the unbounded formula for every number of nanoseconds below a second |
| `ClockUtil.NanosToFracNear` | tm4c/lib/clock/util.cpp:12-22 | within one unit in the last place of n 2^32 / 10^9 |
| `ClockUtil.NanosToFracIncreases` | tm4c/lib/clock/util.cpp:12-22 | strictly increasing |
| `ClockUtil.CorrFracRemConserves` | tm4c/lib/clock/util.cpp:41-51 | quotient and new remainder together are exactly delta times rate plus the old remainder |
| `ClockUtil.CorrValueExact` | tm4c/lib/clock/util.cpp:24-39 | for every rate and every delta but the least, the split unsigned product is the magnitude's product rounded down, with the sign of delta |
| `ClockMono.MonoClock.ServiceBoundary` | tm4c/lib/clock/mono.cpp:36-44 | the interrupt keeps the three words in step with the count of seconds, across wraps |
| `ClockMono.MonoClock.FromRaw` | tm4c/lib/clock/mono.cpp:54-77 | the time of any tick within 2^31 of the last serviced boundary depends on the tick alone, not on when the interrupt was served |
| `ClockMono.StampIncreases` | tm4c/lib/clock/mono.cpp:54-77 | later ticks read later, until the seconds wrap |
| `ClockMono.StampNear` | tm4c/lib/clock/mono.cpp:54-77 | the time is the tick count over the frequency, to within one unit |
| `ClockComp.UpdateConserves` | tm4c/lib/clock/comp.cpp:41-49 | an update adds exactly rate times elapsed time to offset and remainder |
| `ClockComp.UpdateSteps` | tm4c/lib/clock/comp.cpp:104-118 | an update or trim steps the reading by nothing or by one unit up, whatever the new rate |
| `ClockComp.ReadingRises` | tm4c/lib/clock/comp.cpp:89-96 | between updates the reading never falls, for any rate |
| `ClockComp.NeverBackwards` | tm4c/lib/clock/comp.cpp:41-118 | over any mix of reads, updates and trims the readings never fall |
| `ClockComp.RunConserves` | tm4c/lib/clock/comp.cpp:41-118 | over any run offset and remainder, with the stretch since the last update, come to exactly the sum of elapsed time times the rate of the last trim before it, read off the list of events |
| `ClockComp.RateIsLast` | tm4c/lib/clock/comp.cpp:104-118 | the rate in force after any run is that of its last trim, or the start rate if there was none |
| `ClockComp.TrimTakesEffect` | tm4c/lib/clock/comp.cpp:104-118 | after a trim at t the reading at u is the reading at t plus u - t plus the floor of (u - t) times the new rate over 2^32, until the next event |
| `ClockComp.ReadingIsAsked` | tm4c/lib/clock/comp.cpp:41-118 | the reading after any run is the time plus what the trims asked for, rounded down, or one unit less, however many reads and updates there were |
| `ClockComp.IncrementExact` | tm4c/lib/clock/comp.cpp:109-111 | the increment of the output timer does not wrap, for any rate |
| `ClockComp.ReloadsConserve` | tm4c/lib/clock/comp.cpp:31-39 | over any number of firings the reloads are the sum of the increments, within one tick |
| `ClockComp.CompClock.ServiceOutput` | tm4c/lib/clock/comp.cpp:31-39 | reload and remainder together are the increment and the old remainder, the next of the series that `ReloadsConserve` is about |
| `ClockComp.CompClock.RunClkComp` | tm4c/lib/clock/comp.cpp:41-49 | the wrapped words follow the exact update |
| `ClockComp.CompClock.SetTrim` | tm4c/lib/clock/comp.cpp:104-118 | the wrapped words follow the exact trim, which sets the rate as `RateIsLast` and `TrimTakesEffect` say |
| `ClockComp.CompClock.Now` | tm4c/lib/clock/comp.cpp:89-96 | the wrapped result is the exact reading modulo 2^64 |
| `ClockComp.CompClock.FromMono` | tm4c/lib/clock/comp.cpp:98-102 | inside the update window the same as now(), before it the mirrored rounding |
| `ClockTai.CarriedOnce` | tm4c/lib/clock/tai.cpp:144-155 | carrying the first stage's remainder rounds the two corrections down once, together |
| `ClockTai.TaiUpdateSteps` | tm4c/lib/clock/tai.cpp:58-66 | an update or trim moves the TAI clock by at most one unit either way |
| `ClockTai.CompUpdateSteps` | tm4c/lib/clock/comp.cpp:104-118 | an update or trim of the compensated clock moves the TAI clock by one unit down to two up |
| `ClockTai.TaiUpdateConserves` | tm4c/lib/clock/tai.cpp:58-66 | offset and remainder grow by exactly rate times compensated time |
| `ClockTai.TaiRises` | tm4c/lib/clock/tai.cpp:144-155 | between updates the TAI clock never falls, for any two rates |
| `ClockTai.NeverFarBack` | tm4c/lib/clock/tai.cpp:58-184 | over any mix of reads, updates and trims of both clocks and steps, the TAI clock goes back by no more than one unit for each update or trim, and by what the steps take |
| `ClockTai.TaiRunConserves` | tm4c/lib/clock/tai.cpp:58-184 | over any such run the TAI offset and remainder, with the stretch since the last TAI update, come to exactly the steps and the sum of compensated time times the rate of the last TAI trim before it, read off the list of events |
| `ClockTai.TaiReadingIsAsked` | tm4c/lib/clock/tai.cpp:58-184 | the TAI reading after any run is the time plus what the trims of both stages and the steps asked for, rounded down, or at most two units less |
| `ClockTai.TaiTrimTakesEffect` | tm4c/lib/clock/tai.cpp:167-176 | after a trim at t the TAI clock gains on the compensated one the new rate times what that one shows to have gone by, with its fraction carried, rounded down |
| `ClockTai.TaiClock.RunClkTai` | tm4c/lib/clock/tai.cpp:58-66 | the wrapped words follow the exact update at the compensated clock's reading |
| `ClockTai.TaiClock.SetTrim` | tm4c/lib/clock/tai.cpp:167-176 | the wrapped words follow the exact trim, which sets the rate as `TaiTrimTakesEffect` says |
| `ClockTai.TaiClock.Adjust` | tm4c/lib/clock/tai.cpp:182-184 | every reading moves by exactly the given step |
| `ClockTai.TaiClock.Now` | tm4c/lib/clock/tai.cpp:144-155 | the wrapped result is the exact two-stage reading modulo 2^64 |
| `ClockTai.TaiClock.FromMono` | tm4c/lib/clock/tai.cpp:157-165 | for times on either side of either update, each stage is rounded by itself towards its update |
| `ClockTai.FromMonoDistance` | tm4c/lib/clock/tai.cpp:157-165 | how far that is from now(): one unit below to three above, with the range for each side of the two updates |
| `ClockTai.FromMonoFarthest` | tm4c/lib/clock/tai.cpp:157-165 | both ends of that range are met |
| `Capture.EdgeTickExact` | tm4c/lib/clock/capture.cpp:76-79 | the 24 captured bits and a late counter reading give the edge's tick, across wraps |
| `Capture.EthernetCapture.ServiceEdge` | tm4c/lib/clock/capture.cpp:73-83 | the offset stored is that of the Ethernet clock's second zero, modulo 2^32 |
| `Capture.EthernetCapture.RawToFull` | tm4c/lib/clock/capture.cpp:121-135 | the three stamps are what the three clocks show at the tick, before the last updates as well as after them |
| `Capture.PacketTick` | tm4c/lib/net.cpp:533-543 | a packet's seconds and nanoseconds land on the tick that far from the captured edge, across every wrap |
| `Capture.PacketTimes` | tm4c/lib/net.cpp:537-551 | a packet gets the three clocks' times of the tick it really was at, though the clocks may have been updated since |
| `Ptp.SwapIs` | tm4c/lib/net/util.hpp:72-76 | the lowest byte of a word becomes the highest, and so on |
| `Ptp.ToPtpIs` | tm4c/lib/ptp/common.cpp:22-31 | a proper time stamp, its nanoseconds the fraction rounded down |
| `Ptp.PtpRoundTrip` | tm4c/lib/ptp/common.cpp:22-38 | to fixed point and back keeps the seconds and loses no or one nanosecond |
| `Ptp.FixedRoundTrip` | tm4c/lib/ptp/common.cpp:22-38 | to a time stamp and back keeps the seconds and lands nought to five units low |
| `Ubx.PrintIsAccepted` | tm4c/lib/gps.cpp:348-363 | a printed message passes the checksum test, and class, identifier, length and payload are found where the handler looks |
| `Ubx.OneByteErrorRejected` | tm4c/lib/gps.cpp:348-359 | a message that passes fails with any one byte after the preamble changed |
| `Ubx.SecondSum` | tm4c/lib/gps.cpp:351-355 | the second sum is that of all bytes, each as often as there are bytes from it on, modulo 256 |
| `Ubx.ExchangeRejected` | tm4c/lib/gps.cpp:348-359 | a message that passes fails with any two different neighbours between preamble and checksum exchanged |
| `Ubx.DispatchExactly` | tm4c/lib/gps.cpp:361-382 | a printed message reaches the position, GPS time or clock handler if and only if it is of class 1 with identifier 0x07 and 92 bytes, 0x20 and 16, or 0x22 and 20, with its payload in front; any other reaches none |
| `Ubx.WrongChecksumIgnored` | tm4c/lib/gps.cpp:356-359 | a frame that fails the checksum test reaches no handler |
| `Ubx.ProcessUbx` | tm4c/lib/gps.cpp:348-382 | the checksum loop and the dispatch hand a frame to the handler that `DispatchExactly` and `WrongChecksumIgnored` are about |
| `Nmea.ProcessNema` | tm4c/lib/gps.cpp:320-346 | the loop finds the first star and accepts the line unless the two digits behind it are not the exclusive or of the bytes before it |
| `Nmea.OneNmeaErrorRejected` | tm4c/lib/gps.cpp:320-346 | a line accepted by its checksum is refused with any one byte before the star changed, other than into a star |
| `Nmea.HexDigits` | tm4c/lib/gps.cpp:312-318 | the digits 0 to 9 and the letters A to F of either case have the values 0 to 15 |
| `Nmea.HexPairIs` | tm4c/lib/gps.cpp:336-339 | two digits make sixteen times the first and the second |
| `Nmea.XorBitIs` | tm4c/lib/gps.cpp:323-334 | a bit of the line's checksum changes exactly with that bit of one of the two operands |
| `Ubx.FeedsInChunks` | tm4c/lib/gps.cpp:209-278 | how the bytes are divided among calls of the parser does not matter |
| `Ubx.RoundTrip` | tm4c/lib/gps.cpp:209-435 | a printed message, fed to a parser that is in no UBX message, is handed over once, whole, and leaves it idle |
| `Ubx.RoundTripExactly` | tm4c/lib/gps.cpp:209-435 | that holds if and only if the payload has at most 248 bytes |
| `Ubx.StreamRoundTrip` | tm4c/lib/gps.cpp:209-435 | any number of messages one after the other are handed over in order |
| `Ubx.FramesFit` | tm4c/lib/gps.cpp:216-230 | for any input no frame handed over is longer than the message buffer, and none handed over before is lost |
| `Ubx.FramesStand` | tm4c/lib/gps.cpp:209-278 | whatever is received, each frame handed over stands in the stream byte for byte, with the preamble in front and of the size that it states |
| `Ubx.BehindIs` | tm4c/lib/gps.cpp:248-259 | over any bytes the byte behind the message buffer is overwritten, with zero, if and only if some byte overruns the buffer |
| `Ubx.SpillsExactly` | tm4c/lib/gps.cpp:248-275 | some byte of any stream does if and only if 254 bytes or more stand between a dollar, taken outside any UBX message, and the line end behind it |
| `Ubx.OverlongExactly` | tm4c/lib/gps.cpp:248-265 | one line fed to any parser that is in no UBX message: its end overruns the buffer if and only if 254 bytes or more stand behind the dollar |
| `Ubx.OverlongLine` | tm4c/lib/gps.cpp:248-265 | a dollar, 254 letters and a line end: the byte behind the buffer is zero afterwards |
| `GpsRing.KeptExactly` | tm4c/lib/gps.cpp:68-70 | a ring keeps all that was put into it if and only if that is less than its size |
| `GpsRing.NothingLost` | tm4c/lib/gps.cpp:209-278 | with room for each burst when it comes, the parser takes all bytes in order up to the burst at which it found the ring empty |
| `GpsRing.KeepsUp` | tm4c/lib/gps.cpp:163-278 | from fewer than 255 bytes on there is room as long as no more than one byte comes per turn of the loop |
| `UbxPort.GpsPort.Receive` | tm4c/lib/gps.cpp:163-176 | the bytes received are appended to what the parser has not read; of n bytes in all the ring keeps the last n modulo 256, which is all of them while there is room |
| `UbxPort.GpsPort.SendUBX` | tm4c/lib/gps.cpp:384-435 | with the transmit interrupt at any point, the message printed, and nothing else, goes behind what is still to be sent, as far as the ring keeps it, and what the interrupt takes meanwhile are the ring's bytes in turn; with room nothing is lost or out of order; a payload of more than 512 bytes sends nothing |
| `UbxPort.GpsPort.StartTx` | tm4c/lib/gps.cpp:194-207 | bytes move from the ring to the UART in order; none is lost or repeated |
| `UbxPort.GpsPort.ParseByte` | tm4c/lib/gps.cpp:216-276 | buffer, the byte behind it, counters and the mark of an NMEA line follow the parser on values, byte by byte |
| `UbxPort.GpsPort.HandOver` | tm4c/lib/gps.cpp:223-230 | each frame handed over, of the size that it states, goes through the checksum test and to its handler once; offset and epoch are what the frames so far make of them |
| `UbxPort.TellsPayload` | tm4c/lib/gps.cpp:361-382 | a printed message tells the calendar its own payload if it is a position or GPS time message, and nothing otherwise |
| `UbxPort.GpsPort.RunParse` | tm4c/lib/gps.cpp:209-278 | with bytes arriving before each turn, exactly the bytes that the ring keeps go through the parser in order, and the ring is empty; the byte behind the message buffer is lost exactly if some turn overruns the buffer |
| `UbxPort.GpsPort.ParseAll` | tm4c/lib/gps.cpp:163-278 | with room for all of them, all bytes are parsed in order, however they come and however often the task runs |
| `UbxPort.Link` | tm4c/lib/gps.cpp:163-435 | from sendUBX of one port to runParse of another: with room in both rings the message is handed over once and whole, passes the checksum test and leaves the parser idle, behind whatever was under way, in any bursts; a GPS time message sets the TAI offset to the announced leap seconds plus 19, and a position message the epoch, the true one by the leap seconds heard before it if and only if the date is in range |
| `Calendar.DaysCount` | tm4c/lib/gps.cpp:559-577 | the reference count of days goes up by one each Gregorian day |
| `Calendar.SecondsCount` | tm4c/lib/gps.cpp:578-585 | the count of seconds of a day goes up by one each second, from zero at 0:00:00 to 86399 at 23:59:59 |
| `Calendar.PvtFields` | tm4c/lib/gps.cpp:545-585 | the date and time of a position message are its bytes 4 to 10: year low byte first, month, day, hour, minute, second |
| `Calendar.YearClosedForm` | tm4c/lib/gps.cpp:559-572 | the closed form counts the days before a year, but for the leap days of years divisible by 400 |
| `Calendar.CodeDaysOff` | tm4c/lib/gps.cpp:559-577 | from 1900 on the code's count is one high for the one-based day and one low for each such leap day |
| `Calendar.CodeDaysFarOff` | tm4c/lib/gps.cpp:559-577 | before 1900, where the year wraps, the count is off by 365 times 2^32 and 1030792152 days, but for at most 20 |
| `Calendar.EpochExactly` | tm4c/lib/gps.cpp:559-591 | the epoch is seconds since 1970 plus the TAI offset modulo 2^32 if and only if the date lies from 1 March 2000 to 29 February 2400, for every date of the years 0 to 65535 |
| `Calendar.NextSecond` | tm4c/lib/gps.cpp:578-591 | within a day the epoch goes on by one each second |
| `Calendar.LeapSecondsAreSeamless` | tm4c/lib/gps.cpp:559-591 | at midnight it does so too, with or without a leap second, once the new number is announced |
| `Calendar.GpsTime.ProcessUbxPVT` | tm4c/lib/gps.cpp:545-595 | the wrapped arithmetic of the handler gives the epoch of the closed form for any date bytes with a month below 16, the true one exactly in the range if the date exists; invalid time data change nothing |
| `Calendar.GpsTime.ProcessUbxGpsTime` | tm4c/lib/gps.cpp:525-535 | the TAI offset is 19 seconds more than the leap seconds that the message announces, and stays if it announces none |
| `Calendar.OneIsAnnounced` | tm4c/lib/gps.cpp:525-535 | a message with valid data announces exactly one number, its byte 10 read with a sign, and any other none |
| `Calendar.GpsTime.Follow` | tm4c/lib/gps.cpp:525-595 | over any messages the epoch is the last date told, by the leap seconds last announced before it, if and only if that date lies from 1 March 2000 to 29 February 2400 |
| `Ber.LengthSizeIs` | tm4c/lib/snmp/util.cpp:17-27 | the size foretold is that of the definite form in the fewest octets |
| `Ber.LengthForms` | tm4c/lib/snmp/util.cpp:143-174 | the octets of the definite form for each size of length, written out |
| `Ber.WriteLength` | tm4c/lib/snmp/util.cpp:143-174 | writes the definite form of section 8.1.3 of X.690 in the fewest octets and nothing else |
| `Ber.WriteInteger` | tm4c/lib/snmp/util.cpp:186-195 | writes tag, length and the value's octets most significant first, and nothing else |
| `Ber.WriteBytes` | tm4c/lib/snmp/util.cpp:176-184 | writes an octet string element and nothing else |
| `Ber.BodyItems` | tm4c/lib/snmp/util.cpp:259-265 | the length of the PDU computed ahead is that of its content |
| `Ber.MessageItems` | tm4c/lib/snmp/util.cpp:259-267 | the length of the message computed ahead is that of its content |
| `Ber.WrapVars` | tm4c/lib/snmp/util.cpp:259-289 | writes exactly the nested elements of a version 1 "status" response with the request's identifier and the bindings |
| `Ber.ReadsBackLengthExactly` | tm4c/lib/snmp/util.cpp:37-66 | a written length is read back if and only if it takes at most two octets and, in the long form, something follows it |
| `Ber.ReadInt32` | tm4c/lib/snmp/util.cpp:88-121 | the two's-complement value modulo 2^32 of the octets that the code takes: the content, or the two octets behind the element if that is empty; another tag, an unreadable length or content beyond the data is refused |
| `Ber.ReadBytes` | tm4c/lib/snmp/util.cpp:68-86 | as much of the string as there is room for; the rest of the buffer stays, all of it on an error |
| `Ber.SignLost` | tm4c/lib/snmp/util.cpp:104-119 | from four octets on the sign does not show modulo 2^32, so no sign extension is needed |
| `Ber.ElementDecidesExactly` | tm4c/lib/snmp/util.cpp:88-121 | the value is a matter of the element itself, whatever follows it, if and only if the element has content |
| `Ber.OpensExactly` | tm4c/lib/snmp/snmp.cpp:72-81 | an element that ends where the data end is opened, its length being that of the bytes left, if and only if that takes at most two octets |
| `Ber.ReadMessage` | tm4c/lib/snmp/snmp.cpp:67-115 | the reading order of the agent with its own offsets, negative ones included: the message is taken with its three numbers or refused, as `BerMessages.TakenAsksForStatus` and `BerMessages.TakenExactly` say by the bytes |
| `Ber.UnreadableTakenExactly` | tm4c/lib/snmp/snmp.cpp:95-112 | with a number that cannot be read, the message is taken if and only if it is 49 bytes long and the byte before it is that of a sequence |
| `Ber.UnreadableTaken` | tm4c/lib/snmp/snmp.cpp:67-115 | one such message, taken with the numbers of the message before it |
| `Ber.ReadsBackExactly` | tm4c/lib/snmp/util.cpp:37-121 | the readers recover version, community, request identifier and bindings from what wrapVars wrote, whatever stands around it, if and only if the message takes a two-octet length |
| `Ber.EmptyIntegerReadsAhead` | tm4c/lib/snmp/util.cpp:109-113 | four octets that show it: an INTEGER without content is read as the two octets behind it |
| `BerMessages.IntegerValueIs` | tm4c/lib/snmp/util.cpp:88-121 | the value of k octets is the one number from -2^(8k-1) to 2^(8k-1) - 1 that differs from their unsigned value by nothing or by 2^(8k) |
| `BerMessages.TakenAsksForStatus` | tm4c/lib/snmp/snmp.cpp:67-99 | a message that is taken has behind its sequence header an INTEGER of value zero, an octet string that is exactly "status" and the tag of the PDU asked for |
| `BerMessages.TakenExactly` | tm4c/lib/snmp/snmp.cpp:67-109 | any message put together from a version, a community of up to 127 octets and a PDU of three numbers and a list is taken if and only if its length takes two octets at most, the version is zero, the community is "status" and the PDU is of the kind asked for; its numbers and list are then found |
| `Checksum.FoldIsResidue` | tm4c/lib/net/ip.cpp:103-104 | the folding loop ends with the residue modulo 2^16 - 1, never zero for a sum that is not zero |
| `Checksum.FoldPart` | tm4c/lib/net/udp.cpp:69-95 | a part of the sum may be folded before the rest is added |
| `Checksum.FoldComplement` | tm4c/lib/net/ip.cpp:103-105 | any sum with its own complement added folds to all ones |
| `Checksum.ByteOrder` | tm4c/lib/net/ip.cpp:94-106 | little-endian and big-endian summing store the same two bytes, odd lengths included |
| `Checksum.Rfc1071` | tm4c/lib/net/ip.cpp:94-106 | the complement of the folded sum of the words while the sum fits 32 bits, which it does up to 131072 bytes |
| `Checksum.TwoStagesSuffice` | tm4c/lib/net/udp.cpp:58-96 | the two stages give the one-pass checksum of pseudo header and segment, and the receiver's sum folds to all ones |
| `Checksum.UdpFinalize` | tm4c/lib/net/udp.cpp:58-96 | the finished frame has the right length and checksum by either byte order, only four bytes change, and "no checksum" is announced if and only if the sum is a multiple of 2^16 - 1 |
| `Checksum.FinishedZeroExactly` | tm4c/lib/net/udp.cpp:58-96 | of any finished frame: the stored checksum is zero if and only if the sum is a multiple of 2^16 - 1 |
| `Checksum.UnprotectedFrame` | tm4c/lib/net/udp.cpp:58-96 | one 42-byte frame that is finished and has the checksum zero |
| `Checksum.SomeDataStoreZero` | tm4c/lib/net/udp.cpp:58-96 | whatever the headers and the rest of the data, some value of the first word of the data makes the sum such a multiple |
| `Checksum.Ipv4Finalize` | tm4c/lib/net/ip.cpp:59-73 | type, length and header checksum are right, and nothing else changes |
| `Checksum.ZeroChecksumExactly` | tm4c/lib/net/udp.cpp:95 | the stored checksum is zero if and only if the sum is a multiple of 2^16 - 1 other than zero |
| `Interleave.NtpTimeIsUtc` | tm4c/lib/ntp/ntp.cpp:108-187 | for every date, time of day and TAI offset, the TAI time of a clock that is right becomes seconds of UTC since 1 January 1900 modulo 2^32, with the fraction as it was |
| `Interleave.CellIsLatest` | tm4c/lib/ntp/ntp.cpp:56-67 | a cell is what the latest completion for any address of its hash value left, or zero |
| `Interleave.AnswerIsGenuine` | tm4c/lib/ntp/ntp.cpp:142-186 | read off the packets: a reply that does not echo the request's transmit time carries the hardware send time of an earlier reply whose receive time is the request's origin |
| `Interleave.InterleavedExactly` | tm4c/lib/ntp/ntp.cpp:142-186 | the reply is interleaved if and only if the request asks for it and its origin is the receive time of the latest reply sent to an address of its cell; it then carries that one's send time, and otherwise the present time |
| `Interleave.GenuineIsUnique` | tm4c/lib/ntp/ntp.cpp:108-120 | with receive times all different it is the send time of the very reply that the client refers to |
| `Interleave.EveryRunIsSafe` | tm4c/lib/ntp/ntp.cpp:108-201 | that holds of every exchange of every run, whatever the hash maps together |
| `Interleave.Server.NtpTxCallback` | tm4c/lib/ntp/ntp.cpp:108-120 | the table stays the abbreviation of the history with the new completion, its send time in the NTP domain of `NtpTimeIsUtc` |
| `Interleave.Server.NtpRequest` | tm4c/lib/ntp/ntp.cpp:123-201 | answered if and only if at least 90 bytes long, for this server, not from it and from a client; then sent back at the same length as a server's reply with the version and poll of the request, the state of the clock and the receive time in the NTP domain of `NtpTimeIsUtc`, origin and transmit time as `InterleavedExactly` says |
| `Interleave.Server.Serve` | tm4c/lib/ntp/ntp.cpp:108-201 | over any requests and completions the table-driven server gives the run of the history-driven one |
| `Sources.RoomMeansFreeSlot` | tm4c/lib/ntp/ntp.cpp:296-308 | with room in the list some slot is not listed |
| `Sources.AddKeeps` | tm4c/lib/ntp/ntp.cpp:296-308 | taking a free slot for an address not in use keeps the table right if and only if the address is not zero |
| `Sources.RemoveKeeps` | tm4c/lib/ntp/ntp.cpp:310-330 | closing a peer's place and freeing its slot keeps the table right |
| `Sources.Source.IsSelectable` | tm4c/lib/ntp/Source.cpp:199-220 | true exactly for sources that are reached, not lost, have enough samples and are not jittery; the state reported is what the source lacks first |
| `Sources.Table.Init` | tm4c/lib/ntp/ntp.cpp:86-102 | the reference alone is listed and every peer slot is free |
| `Sources.Table.NewPeer` | tm4c/lib/ntp/ntp.cpp:296-308 | the first free slot is taken and appended; never null while there is room |
| `Sources.Table.DeletePeer` | tm4c/lib/ntp/ntp.cpp:310-330 | exactly the peer leaves the list, its slot is free, and it is no longer selected |
| `Sources.Table.DnsCallback` | tm4c/lib/ntp/ntp.cpp:332-346 | refused addresses change nothing, others go into the first free slot and are appended; the table stays right if and only if refused or not zero |
| `Sources.ResolvedExactly` | tm4c/lib/ntp/ntp.cpp:332-346 | after an answer its address is a peer's if and only if it was one before or there was room and it is not the server's own; the list grows by that peer alone |
| `Sources.NeverItself` | tm4c/lib/ntp/ntp.cpp:243-346 | over any run the server is never listed as its own peer, no slot is listed twice and the reference stays first |
| `Sources.Table.Recipient` | tm4c/lib/ntp/ntp.cpp:225-240 | the one listed peer with this address, if there is one |
| `Sources.Table.Prune` | tm4c/lib/ntp/ntp.cpp:244-250 | the first prunable source leaves the list, never the reference; without one nothing changes |
| `Sources.Table.SelectBest` | tm4c/lib/ntp/ntp.cpp:252-265 | the first of the fit sources with the least score, none if none is fit |
| `Sources.Table.RunSelect` | tm4c/lib/ntp/ntp.cpp:243-265 | the first prunable source goes, the best of those left is selected, and every source reports its state |
| `Sources.Table.Handle` | tm4c/lib/ntp/ntp.cpp:243-346 | each event does to the table what it does to its values: which slot is taken or freed, and which source is selected |
| `Sources.Table.Serve` | tm4c/lib/ntp/ntp.cpp:243-346 | over any mix of answers, selections and changes the table is a run of those steps on its values, and keeps at most nine distinct sources, the reference first, slots allocated exactly when listed and addresses distinct, never the server's own |
| `LinearFit.FormSign` | tm4c/lib/ntp/Source.cpp:306-318 | the weighted square of a line is never negative, and zero just when the line is zero at every sample with weight |
| `LinearFit.DefinedExactly` | tm4c/lib/ntp/Source.cpp:316-320 | the divisions are defined if and only if two samples with weight differ in their abscissas |
| `LinearFit.NormalIsLeast` | tm4c/lib/ntp/Source.cpp:292-330 | a line that meets the normal equations has the least weighted squared error, alone if the samples are spread |
| `LinearFit.FitLinear` | tm4c/lib/ntp/Source.cpp:292-330 | every other line has a larger weighted squared error; the variances are that error over the right denominators |
| `QuadraticFit.EliminationKeeps` | tm4c/lib/ntp/tcmp.cpp:506-527 | elimination keeps the solutions: the normal equations hold if and only if the triangular ones do |
| `QuadraticFit.OneSolution` | tm4c/lib/ntp/tcmp.cpp:506-532 | with pivots that are not zero there is one solution |
| `QuadraticFit.DefinedExactly` | tm4c/lib/ntp/tcmp.cpp:506-532 | the divisions are defined if and only if three nodes with weight differ in their abscissas |
| `QuadraticFit.NormalIsLeast` | tm4c/lib/ntp/tcmp.cpp:469-533 | a parabola that meets the normal equations has the least weighted squared error, alone if three nodes differ |
| `QuadraticFit.Fill` | tm4c/lib/ntp/tcmp.cpp:469-504 | the matrix holds the weighted moments and is symmetric |
| `QuadraticFit.Reduce` | tm4c/lib/ntp/tcmp.cpp:506-527 | the in-place reductions leave the rows of the elimination on and above the diagonal |
| `QuadraticFit.FitQuadratic` | tm4c/lib/ntp/tcmp.cpp:469-533 | the coefficients solve the weighted normal equations, and every other parabola has a larger weighted squared error |

## Left out

- Scheduler.TaskQueue.Create: the halt in `faultBlink` when the pool is exhausted is a null result here.
- Scheduler.TaskQueue.RunCancel: cancels in one step with respect to interrupt handlers.
- Scheduler.TaskQueue.Turn: what follows the call of the null callback.
- Scheduler.TaskQueue.Link: the pointer writes of one insertion or unlink are one step; handlers write only `schedule` and `taskUpdate`, which these do not read.
- Scheduler.TaskQueue.RunScheduler: a finite number of turns of the endless loop. That a woken task runs in the end is not claimed: repeated wakes can keep moving a task back.
- A wait task starts as a sleeping one, so until its first wake it runs every 2^30 ticks (`SchedulerTiming.PauseIsWhole`); nothing to the contrary is claimed.
- Lateness beyond 2^30 ticks, at which wrapped deadlines lose their meaning.
- TxRing.TxRing.Traffic: what requests do behind an empty frame on a full ring; a callback offers no such frame.
- TxRing.TxRing.DmaStep: the engine is modelled as a cursor that takes owned descriptors in order; its interrupts, errors and polling are not. The hardware header emac.h is not part of this model.
- The receive ring and its dispatch.
- UbxPort.GpsPort.ParseByte: what else lives in the byte behind the message buffer, if anything, and so what its loss does elsewhere.
- UbxPort.GpsPort.RunParse: an interrupt between the test of the loop and the reading of the byte counts as coming before the test, which differs only when the ring overflows.
- Calendar.GpsTime.ProcessUbxPVT: for month numbers from 16 on, which index past the table, any value may be read; positions and the time of the update.
- ClockUtil.CorrValueExact: the least 64-bit delta, whose negation overflows.
- ClockTai.TaiClock.Now: no interrupt handler writes the clocks' words, so one read is one step; the PPS output task is not modelled.
- Ber.ReadMessage: ends at the list of bindings; object identifiers and the sensors' values are not modelled. Of what lies before the data it knows one byte, which is all that the code reads there.
- Ber.WrapVars: fewer than 2^28 bytes of bindings, far above the size of a frame.
- Ber writers of name and value pairs (`writeValueBytes` and its kin): they reserve the header from a shorter length.
- Checksum.Rfc1071: sums of 2^32 and more, which a frame cannot reach.
- Interleave.Server.NtpRequest: byte order of the fields, and bytes of a request behind the NTP packet, which are sent back.
- Interleave.Server.Serve: the transmit ring is a queue here; that it is one is proved of `TxRing`.
- Sources.Table.RunSelect: what the clock loop does with the selected source.
- Sources.Table.DnsCallback: the name server lookup itself, whose request slots are reused too early.
- QuadraticFit.FitQuadratic: any number of nodes, given relative to the means, which `computeMean` provides.
- LinearFit.FitLinear: floating-point rounding, here and in the other regression.
- The PLL and the rest of the temperature compensation, whose point is floating-point behaviour.
- The NTP client's exchange of packets (Peer.cpp): flags that are not cleared let a late reply into the next poll, so no such claim holds.
- The ICMP checksum, which is patched in place and drops a carry.
- Registers, PHY, EEPROM, LEDs, status text and sensors; the startup code, which is not part of this model and decides how the task pool begins.
