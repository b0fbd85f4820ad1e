# Verification models of libusb's engine, its descriptor parser, and two protocols around it

Each module models one component of the repository and proves what its callers rely on.  A component
whose C code updates shared state has two layers: functions over a `State` value, which say what each
locked region does and carry the theorems about whole runs, and a class whose methods have the fields
and the loops of the C code and are proved to do exactly what those functions say.

* `EventLocking` — the hand-off between threads that handle events, wait, and close devices:
  `events_lock`, `event_waiters_lock` with its condition variable, `device_close`, and the `completed`
  flags of synchronous transfers.  A step machine with one step per access to shared state.
* `EventCalls` — what one call of the event handling functions does on its way through that machine.
* `EventFlags` — the event word of a context, the wake-up event, and the two queues behind it.
* `IntrusiveList` — the circular doubly linked lists, on heap nodes.
* `Deadlines`, `FlyingTransfers`, `TransferLedger`, `TransferContext` — deadlines, the list sorted by them, time-outs,
  cancellation, completion, disconnection, and the OS timer.
* `DeviceReferences`, `DeviceRegistry` — reference counts of devices, their destruction, device lists,
  opening and closing.
* `HotplugSweep` — hotplug callbacks that register and deregister each other during a sweep.
* `Descriptors`, `DescriptorParsers`, `DescriptorRoundTrip`, `BosDescriptors` — the descriptor parsers
  (sections 9.6.3, 9.6.5 and 9.6.6 of the USB 2.0 specification, section 9.6.2 of the USB 3.0
  specification) on arbitrary bytes, and printers that they undo.
* `Crc8`, `Framing`, `Stm32Fifo`, `RegisterProtocol`, `RegisterDevices` — the register protocol between
  a master and a slave, from the checksum to the refinement of a plain register array.
* `HexImage`, `HexLoader` — merging Intel HEX records into segments, and loading them in one or two
  passes.

`dafny verify dfyconfig.toml` checks everything.

## Where the code and its documentation differ

The models follow the code.

* The comments on the protocol's commands give `proto_CMD_ERR_CRC` two arguments and
  `proto_CMD_ERR_ARG` an optional second one; the table of `proto_getArgsSize` gives them one and two.
  So only the received checksum travels, never the computed one, and an error reply to a read carries
  whatever the slave's frame held before (`RegisterProtocol.Served`).
* `proto_pushToFrame` is documented to return -1 without a valid frame; a piece that ends in the header
  is reported as a success (`Framing.ResultTellsCompleteness`, `Framing.HalfAHeaderIsSuccess`).
* A refused frame stays in the slave's decoder: the slave is ready for another one iff the complete
  frame carried its checksum (`RegisterProtocol.ReadyIffAccepted`, `RegisterProtocol.RefusedFrameStays`).
  After a refused write request all later gets and sets time out
  (`RegisterProtocol.CorruptedSetEndsTheSession`); after a refused read request the slave swallows a byte
  and answers once too often (`RegisterProtocol.CorruptedGetIsAnsweredTwice`); after a refused frame of an
  unknown command it does so iff the next byte happens to be the checksum that it reported
  (`RegisterProtocol.RefusedUnknownTakesOneMore`).
* The master's read loop is documented to last up to its deadline; its exit test looks at a constant, so
  it always ends after one read (`RegisterDevices.Master.ReadFrame`).
* The ring buffer of the STM32 device forgets everything when a 40th byte is pending
  (`Stm32Fifo.QueueIffNotFull`).
* `ram_poke` promises to try again after a time-out; `ezusb_write` turns every failure into `-EIO`, so
  the loop never goes round a second time (`HexLoader.Loader.RamPoke`).
* The master asserts that a reply cannot be incomplete; one that arrives cut within or right behind its
  header fails that assertion (`RegisterProtocol.PartOfAReply`).
* A HEX record without data can move the data that follows it to its own address
  (`HexImage.MergingIsFaithfulIffAligned`, `HexImage.EmptyRecordMovesData`).
* The comments on the `*_is_external` predicates speak of closed address ranges; the code tests
  half-open ones (`HexImage.ExternalMeansNotAllOnChip`).
* Nobody clears the flag of a deregistered hotplug callback, so the event stays signalled from the first
  deregistration on (`EventFlags.DeregistrationKeepsSignalling`).  Otherwise a call of `handle_events`
  leaves it quiet, unless a device is being closed, the event sources could not be refreshed, or the
  backend failed before the last completed transfer (`EventFlags.QuietUnless`).
* `libusb_handle_events` from within a callback is meant to be refused with `LIBUSB_ERROR_BUSY`, but on
  POSIX that test is not reached: `events_lock` is a default mutex, the attempt to take it fails, and the
  thread waits for an event handler that is itself, until its own time-out
  (`EventLocking.NoLostWakeUp`, `EventLocking.OwnSleepEndsByTimeout`, `EventLocking.CallbackCanSleepAlone`).
* The timer is kept for the first flying transfer, not for the earliest pending deadline, and closing a
  handle does not set it anew (`FlyingTransfers.SubmitCoversAllUnless`,
  `FlyingTransfers.HiddenDeadlineIsReached`, `FlyingTransfers.CloseCanUncover`,
  `FlyingTransfers.CloseKeepsTimerUnless`).
* Closing a handle with a transfer in flight leaves the transfer busy for ever and its device
  undestroyed, and nothing else does (`FlyingTransfers.ClosedInFlightStaysBusy`,
  `FlyingTransfers.DetachedIffClosedUnder`, `DeviceReferences.StrandedDevicesStay`,
  `DeviceReferences.StrandedIffClosedUnder`).
* The time left until a deadline is cut to microseconds before it is rounded up to milliseconds, so a
  poll can end before the deadline, by less than a microsecond (`Deadlines.PollMeetsDeadline`).  The
  milliseconds are computed in an `int`: a limit of 25 days becomes a negative time-out, which makes the
  wait endless (`Deadlines.PollArgumentIsExactIff`).
* An interface whose class descriptors are truncated keeps its announced number of endpoints without
  having any (`DescriptorRoundTrip.OnlyTheLastAltIsOutOfStep`).

## Model

| member | source | states |
|---|---|---|
| EventLocking.NoLostWakeUp | libusb-android/libusb/io.c:1996-2015 | In every interleaving of any number of threads, while a thread sleeps in libusb_wait_for_event, or has made its last check before that, another thread is bound to broadcast iff the sleeper does not own events_lock itself or an earlier broadcast is still under way; it owns the lock iff it called from a callback |
| EventLocking.OwnSleepEndsByTimeout | libusb-android/libusb/io.c:2337-2373 | A thread that sleeps in a call from its own callback stays asleep, with nobody about to broadcast, until it steps itself |
| EventLocking.CallbackCanSleepAlone | libusb-android/libusb/os/threads_posix.h:40-43 | A run of a single thread reaches such a sleep |
| EventLocking.BodiesExclude | libusb-android/libusb/core.c:1478-1508 | do_close and handle_events bodies of different threads never overlap |
| EventLocking.NeverHandlesAfterCompletion | libusb-android/libusb/io.c:2337-2344 | No thread enters handle_events after the completion flag it passed has been set |
| EventLocking.SleepersAreNotStranded | libusb-android/libusb/io.c:1766-1836 | Behind a sleeping thread, some other thread inside the library can always take a step, be it the time-out of a sleeping callback |
| EventLocking.OwedBroadcastComesNearer | libusb-android/libusb/io.c:1824-1836 | Each step of a thread that owes a broadcast brings it nearer, unless the application's own code runs, and the last one leaves nobody waiting |
| EventLocking.RunKeepsInv | libusb-android/libusb/io.c:1888-1905 | Every reachable state agrees on lock owners, on event_handler_active, on device_close as the number of closing threads, and on fresh completion flags |
| EventLocking.StepKeepsInv | libusb-android/libusb/sync.c:35-64 | Each single access to shared state, including callbacks that complete synchronous transfers, keeps that agreement |
| EventCalls.FlagIsNoticed | libusb-android/libusb/io.c:2337-2352 | Once the flag of a thread is set before its next test of it, as handler or as waiter, the thread neither handles events nor sleeps until its call has returned, and the flag stays set |
| EventCalls.CallsAreServed | libusb-android/libusb/io.c:2337-2373 | No call returns without having handled events, slept, or had its flag set |
| EventCalls.ServedCallsReturn | libusb-android/libusb/io.c:2346-2373 | After handling events or sleeping once, a call returns without trying again |
| EventCalls.NobodySpins | libusb-android/libusb/io.c:2351-2363 | While an event handler is active, a thread that has tried in vain does not try again |
| EventCalls.ClosersComeFirst | libusb-android/libusb/io.c:1771-1785 | While a device is being closed, no thread that has not yet passed its look at device_close begins to handle events or to retry |
| EventCalls.ClosesAreDone | libusb-android/libusb/core.c:1478-1508 | No call of libusb_close returns before do_close has run |
| EventCalls.LocksAreHeld | libusb-android/libusb/io.c:1810-1836 | No application unlocks the events before it has had them locked |
| EventFlags.FlagsAlwaysAgree | libusb-android/libusb/io.c:2073-2155 | In every reachable state the event is signalled iff a flag is set, DEVICE_CLOSE iff a close is under way, HOTPLUG_MSG_PENDING iff messages are queued, and completed transfers imply TRANSFER_COMPLETED |
| EventFlags.AssertionsHold | libusb-android/libusb/io.c:2097-2111 | The two assertions on non-empty queues never fail |
| EventFlags.DeliveryIsFifo | libusb-android/libusb/io.c:2106-2131 | Completions and hotplug messages are handed on in the order they were queued, none lost or repeated, even when the backend fails in the middle of a batch |
| EventFlags.DeregistrationKeepsSignalling | libusb-android/libusb/hotplug.c:344-353 | After a deregistration the event is signalled in every later state |
| EventFlags.DeregistrationIsRemembered | libusb-android/libusb/hotplug.c:344-353 | The flag of a deregistered callback is set after exactly the runs in which one was deregistered |
| EventFlags.InterruptIsRemembered | libusb-android/libusb/io.c:1917-1932 | USER_INTERRUPT is set iff there was an interrupt after the last event handler began its trigger |
| EventFlags.ModificationIsRemembered | libusb-android/libusb/io.c:2191-2212 | EVENT_SOURCES_MODIFIED is set iff the sources changed after the last refresh that succeeded |
| EventFlags.ClosersAreCounted | libusb-android/libusb/core.c:1478-1504 | device_close is the number of closes that have begun and not ended |
| EventFlags.SignalsAreNeeded | libusb-android/libusb/io.c:1737-1743 | The event is signalled at most once per section, and only while it is quiet |
| EventFlags.QuietUnless | libusb-android/libusb/io.c:2191-2232 | One undisturbed call of handle_events leaves the event signalled iff a callback was ever deregistered, a close is under way, the sources could not be refreshed, or the backend failed before the last transfer of the batch |
| EventFlags.SectionsKeepInv | libusb-android/libusb/io.c:1729-1745 | Any sequence of critical sections of any threads keeps flags, event, counters, queues and history in agreement |
| EventFlags.EventData.SignalTransferCompletion | libusb-android/libusb/io.c:1729-1745 | Queues the transfer at the back and signals the event only if no flag was set, as specified |
| EventFlags.EventData.InterruptEventHandler | libusb-android/libusb/io.c:1917-1932 | The new state is that of the Interrupt section |
| EventFlags.EventData.EventSourceNotification | libusb-android/libusb/io.c:2637-2647 | The new state is that of the ModifySources section |
| EventFlags.EventData.HotplugNotification | libusb-android/libusb/hotplug.c:206-229 | Queues the message at the back, as specified |
| EventFlags.EventData.AnnounceClose | libusb-android/libusb/core.c:1478-1487 | Counts the closing thread and raises DEVICE_CLOSE only for the first one |
| EventFlags.EventData.WithdrawClose | libusb-android/libusb/core.c:1495-1504 | Lowers DEVICE_CLOSE only for the last closing thread and clears the event only if no flag is left |
| EventFlags.EventData.RefreshEventSources | libusb-android/libusb/io.c:2191-2212 | Lowers the modification flag unless memory runs out |
| EventFlags.EventData.HandleEventTrigger | libusb-android/libusb/io.c:2073-2155 | With other threads acting whenever the lock is released, the change of state is a run of sections, those of the handler being the specified ones; a batch is delivered up to the first failure, the rest goes back in front, and every message is matched |
| IntrusiveList.Add | libusb-android/libusb/libusbi.h:172-179 | Inserts at the front of the ring and changes no other links |
| IntrusiveList.AddTail | libusb-android/libusb/libusbi.h:181-189 | Appends to the ring |
| IntrusiveList.InsertBefore | libusb-android/libusb/io.c:1426-1428 | Adding to the tail of a member inserts in front of that member |
| IntrusiveList.Del | libusb-android/libusb/libusbi.h:191-196 | Removes exactly the entry and clears its links |
| IntrusiveList.Cut | libusb-android/libusb/libusbi.h:198-211 | Moves the whole list to another head and leaves the old one empty |
| IntrusiveList.SpliceFront | libusb-android/libusb/libusbi.h:213-219 | Puts a list in front of another, which needs the first one not to be empty |
| IntrusiveList.CutProcessSplice | libusb-android/libusb/io.c:2106-2131 | However arrivals interleave with the completion loop, entries are handed on from the front in order, each at most once, and what is left is spliced back in front of the newcomers |
| IntrusiveList.Rotate | libusb-android/libusb/libusbi.h:181-189 | Any member of a circle can serve as its head, which is what inserting before a member relies on |
| IntrusiveList.Neighbours | libusb-android/libusb/libusbi.h:150-165 | The neighbours of the head are the ends of the list, and it is empty iff it is its own successor |
| Deadlines.Deadline | libusb-android/libusb/io.c:1242-1260 | A deadline is normalised, lies exactly the time-out after now, and is never the value that means none |
| Deadlines.ComparisonIsNumeric | libusb-android/libusb/libusbi.h:242-247 | The comparison macros order normalised times by their nanoseconds |
| Deadlines.TimeLeftIsCut | libusb-android/libusb/io.c:2575-2592 | The reported time is zero for a deadline that has passed and otherwise the time left, cut to microseconds |
| Deadlines.PollRoundsUp | libusb-android/libusb/io.c:2214-2218 | The poll time is rounded up by less than a millisecond |
| Deadlines.PollArgumentIsExactIff | libusb-android/libusb/io.c:2214-2218 | The int passed to the wait is the number of milliseconds iff that fits, and negative for every other range of 2^31 of them |
| Deadlines.PollMeetsDeadline | libusb-android/libusb/io.c:2214-2218 | A poll overshoots the deadline by less than a millisecond, and falls short of it, by less than a microsecond, iff the time left is a whole number of milliseconds plus a part of a microsecond |
| Deadlines.NextWaitIsSmaller | libusb-android/libusb/io.c:2270-2289 | Without a pending deadline the wait is the caller's limit; with one it is the smaller of the limit and the time left, or reported as expired iff less than a microsecond is left |
| FlyingTransfers.InsertPosition | libusb-android/libusb/io.c:1398-1435 | A transfer goes in front of the first later deadline and behind its equals, those without deadline last |
| FlyingTransfers.InsertKeepsOrder | libusb-android/libusb/io.c:1398-1453 | Insertion keeps the list sorted by deadline |
| FlyingTransfers.InsertKeepsTimer | libusb-android/libusb/io.c:1437-1450 | Insertion keeps the timer armed at or before the deadline of a pending first transfer |
| FlyingTransfers.RemoveKeepsOrder | libusb-android/libusb/io.c:1459-1474 | Removal keeps the list sorted and takes out exactly one transfer |
| FlyingTransfers.RemoveKeepsTimer | libusb-android/libusb/io.c:1459-1474 | Removal keeps the timer armed for a pending first transfer |
| FlyingTransfers.NextTimerIsEarliest | libusb-android/libusb/io.c:1362-1386 | The timer is armed for the earliest pending deadline of the whole list, and off if there is none |
| FlyingTransfers.SweepIsExact | libusb-android/libusb/io.c:2032-2063 | Despite its early returns a sweep times out every due transfer and changes no other record |
| FlyingTransfers.SweepLeavesNothingDue | libusb-android/libusb/io.c:2032-2063 | After a sweep no pending deadline at or before now is left |
| FlyingTransfers.StepKeepsInv | libusb-android/libusb/io.c:1495-1566 | Submission, refusal, cancellation, sweep, timer trigger, completion and closing keep the list distinct, sorted and attributed, and all but closing and a removal with a failing timer keep the first transfer covered |
| FlyingTransfers.TimerAlwaysCovers | libusb-android/libusb/io.c:2158-2173 | Over every run without a close in which the OS sets the timer when asked, the timer is armed at or before the deadline of a pending first transfer |
| FlyingTransfers.RemoveKeepsTimerUnless | libusb-android/libusb/io.c:1459-1474 | A removal breaks the cover iff the OS refuses to set the timer, the removed transfer is the first and not pending, and the next one is pending and earlier than the timer |
| FlyingTransfers.CancellationAttribution | libusb-android/libusb/io.c:1707-1724 | Per submission the backend's cancel is called at most once, and the report is TIMED_OUT iff that call came from the time-out handler and was accepted |
| TransferLedger.NotInFlightNotCancelled | libusb-android/libusb/io.c:1589-1592 | A transfer that is not in flight is not cancelled by anybody until it is submitted again |
| TransferLedger.EveryRecord | libusb-android/libusb/io.c:1581-1674 | What each step does to each field of each record: who is cancelled, by whom and with what answer, who is timed out, completed or detached |
| TransferLedger.SubmittedRecord | libusb-android/libusb/io.c:1533-1562 | The record of an accepted or refused submission; it is on the list unless the timer must be set and is not, and the timer is set iff the new deadline is the foremost one |
| TransferLedger.EveryMember | libusb-android/libusb/io.c:1459-1474 | A step takes off the list only the transfer that it completes or drops, or those of the handle that it closes |
| TransferLedger.EveryTimer | libusb-android/libusb/io.c:1362-1386 | A step sets the timer, to the earliest awaited deadline, iff it is a timer trigger or removes the first transfer and that has a deadline; otherwise, or if the OS refuses, it stays |
| TransferLedger.InFlightInOrder | libusb-android/libusb/io.c:2784-2833 | The transfers to notify of a disconnection are in list order, none twice |
| FlyingTransfers.ClosedInFlightStaysBusy | libusb-android/libusb/core.c:1402-1434 | After closing the handle of a flying transfer and whatever follows, that transfer is in flight and off the list, and every submission of it is refused without effect |
| FlyingTransfers.OnlyCloseDetaches | libusb-android/libusb/core.c:1402-1434 | A step leaves a transfer in flight but off the list iff it was so before or the step closes the handle of that flying transfer |
| FlyingTransfers.DetachedIffClosedUnder | libusb-android/libusb/core.c:1402-1434 | After any run that holds iff it held before or some step of the run did that |
| FlyingTransfers.SubmitCoversAllUnless | libusb-android/libusb/io.c:1421-1443 | A timer that covers every pending deadline still does after a submission iff the new transfer has no deadline for libusb to act on, goes to the front, or is not earlier than the timer |
| FlyingTransfers.HiddenDeadline | libusb-android/libusb/io.c:1421-1443 | With the timer off behind a first transfer that is already handled, a new pending deadline that is not earlier leaves it off |
| FlyingTransfers.HiddenDeadlineIsReached | libusb-android/libusb/io.c:1421-1443 | Three calls lead from an empty context to a pending deadline behind a handled first transfer with the timer off |
| FlyingTransfers.CloseCanUncover | libusb-android/libusb/core.c:1424-1425 | Closing the first handle after those three calls leaves a pending first transfer without a timer |
| FlyingTransfers.CloseKeepsTimerUnless | libusb-android/libusb/core.c:1402-1434 | The exact condition for that: the first transfer belongs to the handle and is not pending, and the first one that stays is pending and earlier than the timer |
| FlyingTransfers.CompleteFirst | libusb-android/libusb/io.c:2784-2833 | Completing the first in-flight transfer of a handle takes exactly that one out of flight |
| TransferContext.Context.AddToFlyingList | libusb-android/libusb/io.c:1398-1453 | The loop inserts as specified; if the timer cannot be armed the transfer stays off the list and the error is returned |
| TransferContext.Context.ArmTimerForNextTimeout | libusb-android/libusb/io.c:1362-1386 | The loop arms or disarms the timer as specified, or leaves it as it is and returns the error of the OS |
| TransferContext.Context.RemoveFromFlyingList | libusb-android/libusb/io.c:1459-1474 | Always removes the transfer; rearms only if it was the first and had a deadline, and then returns what the OS answered |
| TransferContext.Context.SubmitTransfer | libusb-android/libusb/io.c:1495-1566 | A busy transfer is refused without effect, an accepted one is in flight, and every failure, of the timer or of the backend, leaves the list as it was |
| TransferContext.Context.CancelTransfer | libusb-android/libusb/io.c:1581-1612 | A transfer that is not in flight or already being cancelled is reported as not found and left as it is; any other is handed to the backend once and marked |
| TransferContext.Context.HandleTimeout | libusb-android/libusb/io.c:2017-2030 | Marks the transfer handled, and timed out only if the cancellation was accepted |
| TransferContext.Context.HandleTimeoutsLocked | libusb-android/libusb/io.c:2032-2063 | The loop handles every due transfer and no other |
| TransferContext.Context.HandleTimerTrigger | libusb-android/libusb/io.c:2158-2173 | Sweeps and rearms; the timer covers the first transfer afterwards if it was set or did so before |
| TransferContext.Context.HandleTransferCompletion | libusb-android/libusb/io.c:1659-1674 | Takes the transfer off the list and out of flight, whatever the timer answers |
| TransferContext.Context.HandleTransferCancellation | libusb-android/libusb/io.c:1707-1724 | Reports TIMED_OUT iff the one cancel call came from the time-out handler and was accepted |
| TransferContext.Context.HandleDisconnect | libusb-android/libusb/io.c:2784-2833 | Terminates; each in-flight transfer of the handle gets exactly one callback, in list order, and none stays in flight; unless the callbacks touch them, other handles keep their transfers and their order |
| TransferContext.Context.GetNextTimeout | libusb-android/libusb/io.c:2543-2592 | Returns the time left until the minimum over all pending deadlines, or that there is none |
| TransferContext.Context.GetNextWait | libusb-android/libusb/io.c:2270-2289 | The wait follows from the caller's limit and the earliest pending deadline, if there is one |
| TransferContext.Context.DoClose | libusb-android/libusb/core.c:1392-1434 | The safe iteration detaches exactly the transfers of the handle |
| DeviceReferences.Release | libusb-android/libusb/core.c:1187-1214 | Giving up a reference, up the chain of parents, keeps every count equal to the number of holders and every device held |
| DeviceReferences.ReleaseDestroysTheChain | libusb-android/libusb/core.c:1187-1214 | It destroys exactly the devices up the chain that hang on a single reference, ancestors first, lowers the next count by one, and leaves all other devices alone |
| DeviceReferences.RunKeepsInv | libusb-android/libusb/core.c:1174-1214 | Allocation, parents, references, opening, submission, completion and closing in any order keep counts, holders and destruction in agreement |
| DeviceReferences.HoldersMove | libusb-android/libusb/core.c:1174-1214 | A step adds, removes or hands on exactly the reference that it is about, with the device it is about |
| DeviceReferences.Conservation | libusb-android/libusb/io.c:1553-1562 | In every reachable state a count is the sum of callers, enumeration, children, open handles, transfers in flight and completions in progress; a device is destroyed, once, iff that sum is zero |
| DeviceReferences.NothingLeaks | libusb-android/libusb/core.c:1187-1214 | When only children hold references, no device is left |
| DeviceReferences.StrandedDevicesStay | libusb-android/libusb/core.c:1402-1434 | A device whose handle was closed with a transfer in flight, before the run or in it, is not destroyed at its end |
| DeviceReferences.OnlyCloseStrands | libusb-android/libusb/core.c:1424-1440 | A step strands a transfer iff it was stranded before or the step closes the handle it is in flight on |
| DeviceReferences.StrandedIffClosedUnder | libusb-android/libusb/core.c:1424-1440 | After any run a transfer is stranded iff it was before or its handle was closed under it |
| DeviceReferences.ReleaseUndoesAcquire | libusb-android/libusb/core.c:1174-1214 | Giving up a reference just taken restores the state |
| DeviceReferences.ListIsNeutral | libusb-android/libusb/core.c:895-909 | Taking references for a whole list and giving them up front to back restores the state |
| DeviceReferences.TablesCommute | libusb-android/libusb/core.c:872-882 | Two tables of references may be filled in either order |
| DeviceRegistry.Registry.RefDevice | libusb-android/libusb/core.c:1174-1180 | Adds one reference, of one holder |
| DeviceRegistry.Registry.UnrefDevice | libusb-android/libusb/core.c:1187-1214 | The recursion does what Release says |
| DeviceRegistry.Registry.Append | libusb-android/libusb/core.c:662-694 | Appends with a reference, growing by eight entries when full; if memory runs out all references of the table are given up and the state is as before discovery |
| DeviceRegistry.Registry.GetDeviceList | libusb-android/libusb/core.c:825-884 | Exactly when there is memory for every table and the list, all attached devices are listed with one new reference each; otherwise nothing has changed |
| DeviceRegistry.Registry.FreeDeviceList | libusb-android/libusb/core.c:895-909 | Gives up the references of the list in order, or none |
| DeviceRegistry.Registry.OpenFirst | libusb-android/libusb/core.c:1357-1390 | Of all references taken on the way exactly that of the new handle is left, on the first matching device, or none |
| DeviceRegistry.Registry.Open | libusb-android/libusb/core.c:1302-1338 | Success leaves one reference held by the handle, every failure leaves the state as it was |
| DeviceRegistry.Registry.KeepDevice | libusb-android/libusb/io.c:1553-1562 | An accepted submission holds the device of its handle |
| DeviceRegistry.Registry.EndCompletion | libusb-android/libusb/io.c:1687-1697 | The device that a completion gives up is the one that the submission took, whatever the callback did short of closing the handle |
| DeviceRegistry.Registry.CloseHandle | libusb-android/libusb/core.c:1436-1444 | Closing gives up the reference of the handle |
| HotplugSweep.InvokedExactly | libusb-android/libusb/hotplug.c:179-204 | A callback that was in the list runs iff it matches the event and was marked neither at the start nor during the callbacks before it; it is removed iff it runs and returns non-zero |
| HotplugSweep.InvokedIffFits | libusb-android/libusb/hotplug.c:153-177 | A callback of the list runs iff it registered for the event, each value of its filter equals the vendor, product or class of the device, it was not marked, and nobody deregistered it while those before it ran |
| HotplugSweep.InvokedInOrderOnce | libusb-android/libusb/hotplug.c:179-204 | Callbacks run in list order and none runs twice; those that stay keep their order |
| HotplugSweep.PerformAllSplits | libusb-android/libusb/hotplug.c:277-288 | Whatever is registered and deregistered meanwhile, newcomers stay in front and old entries stay behind them, marked |
| HotplugSweep.HandlesInTurn | libusb-android/libusb/hotplug.c:275-290 | Handles are given out in turn from 1 to 2^31 - 1 and round again |
| HotplugSweep.HandlesDiffer | libusb-android/libusb/hotplug.c:275-290 | So callbacks that are less than a full turn apart have different handles |
| HotplugSweep.UnmarkedExactly | libusb-android/libusb/hotplug.c:383-398 | What is kept is nothing if forced, and otherwise exactly the callbacks without the mark, in order |
| HotplugSweep.HotplugContext.RegisterCallback | libusb-android/libusb/hotplug.c:275-290 | Puts the callback in front under the next handle, which wraps to 1 |
| HotplugSweep.HotplugContext.DeregisterCallback | libusb-android/libusb/hotplug.c:319-353 | Marks exactly the callbacks with that handle |
| HotplugSweep.HotplugContext.MatchCallback | libusb-android/libusb/hotplug.c:153-177 | Runs the callback iff it registered for the event and each value of its filter equals that of the device |
| HotplugSweep.HotplugContext.HotplugMatch | libusb-android/libusb/hotplug.c:179-204 | The safe iteration with re-entrant callbacks runs exactly the callbacks that are due and leaves exactly the specified list |
| HotplugSweep.HotplugContext.FreeDeregistered | libusb-android/libusb/hotplug.c:383-398 | Frees exactly the marked callbacks, or all |
| Descriptors.BlocksAreSkipped | libusb-android/libusb/descriptor.c:121-147 | Behind any list of whole descriptors of types other than 1, 2, 4 and 5, skipping stops in front of one of those types or a rest without a header, fails at a length below two, and is cut at a length beyond the buffer |
| Descriptors.SkippedAreBlocks | libusb-android/libusb/descriptor.c:121-147 | Every buffer is such a list followed by such a rest |
| DescriptorParsers.SkipClassDescriptors | libusb-android/libusb/descriptor.c:120-148 | The shared loop over class descriptors stops, fails or is truncated as specified |
| DescriptorParsers.ParseEndpoint | libusb-android/libusb/descriptor.c:83-164 | Result and bytes used are those of the specification, on every buffer |
| DescriptorParsers.ParseAlt | libusb-android/libusb/descriptor.c:202-318 | One alternate setting with its extra bytes and endpoints, as specified |
| DescriptorParsers.ParseInterface | libusb-android/libusb/descriptor.c:191-332 | The loop over alternate settings agrees with the specification |
| DescriptorParsers.ParseConfiguration | libusb-android/libusb/descriptor.c:347-456 | The tree and the bytes left over are those of the specification |
| DescriptorRoundTrip.ConfigRoundTrip | libusb-android/libusb/descriptor.c:347-456 | Parsing a printed well-formed configuration, with descriptors of any length, gives back the same tree, every extra block at its own parent, and leaves what followed |
| DescriptorRoundTrip.NothingLeftOver | libusb-android/libusb/descriptor.c:347-456 | Alone, it is used up to the last byte |
| DescriptorRoundTrip.ConfigAnnouncing | libusb-android/libusb/descriptor.c:387-451 | A printed configuration that announces more interfaces than it prints: the rest of the buffer is parsed for the others, and their result or error is that of the whole |
| DescriptorRoundTrip.ConfigAnnouncingTooMany | libusb-android/libusb/descriptor.c:441-445 | In front of no further interface, announcing too many changes nothing |
| DescriptorRoundTrip.NoInterfaceHere | libusb-android/libusb/descriptor.c:393-445 | Where no interface follows: class descriptors are kept, a bad length is an error, and a cut off one loses them |
| DescriptorRoundTrip.InterfaceError | libusb-android/libusb/descriptor.c:439-441 | An error in an interface is an error of the configuration |
| DescriptorRoundTrip.NoConfigHere | libusb-android/libusb/descriptor.c:355-376 | What has no whole configuration header is an error |
| DescriptorRoundTrip.InterfaceRoundTrip | libusb-android/libusb/descriptor.c:191-332 | The settings of one interface are kept together and apart from a neighbour with another number |
| DescriptorRoundTrip.InterfaceInFront | libusb-android/libusb/descriptor.c:191-332 | Settings in front of others of the same number are read first, and the result or error of the rest does not depend on them |
| DescriptorRoundTrip.AltAnnouncing | libusb-android/libusb/descriptor.c:294-318 | A printed setting that announces more endpoints than it prints: the parser looks for the others and corrects the number |
| DescriptorRoundTrip.AltAnnouncingTooMany | libusb-android/libusb/descriptor.c:305-312 | In front of another kind of descriptor the number is corrected; at the end of the buffer it is an error |
| DescriptorRoundTrip.AltWithBadExtras | libusb-android/libusb/descriptor.c:250-264 | A bad length behind a setting is an error; a cut off class descriptor costs it its extra bytes and endpoints |
| DescriptorRoundTrip.NoAltHere | libusb-android/libusb/descriptor.c:214-233 | Where no setting follows the interface ends; a short or overfull one is an error |
| DescriptorRoundTrip.EndpointsInFront | libusb-android/libusb/descriptor.c:305-317 | Endpoints in front of others are read first, and the result or error of the rest does not depend on them |
| DescriptorRoundTrip.EndpointRoundTrip | libusb-android/libusb/descriptor.c:83-164 | Endpoints of seven and more bytes with their extra bytes survive |
| DescriptorRoundTrip.EndpointWithBadExtras | libusb-android/libusb/descriptor.c:124-134 | A bad length behind an endpoint is an error; a cut off class descriptor costs it its extra bytes |
| DescriptorRoundTrip.NoEndpointHere | libusb-android/libusb/descriptor.c:92-110 | Where no endpoint follows: another type or a cut off one uses nothing, a short one or no header is an error |
| DescriptorRoundTrip.ConfigAccounts | libusb-android/libusb/descriptor.c:347-456 | On every buffer that parses, each byte is left over, in the tree, or in front of a truncated class descriptor |
| DescriptorRoundTrip.AltInStep | libusb-android/libusb/descriptor.c:255-264 | Announced and present endpoints differ iff class descriptors were truncated and endpoints were announced |
| DescriptorRoundTrip.OnlyTheLastAltIsOutOfStep | libusb-android/libusb/descriptor.c:255-264 | Only the last setting of an interface can be in that state, and it has then lost its extra bytes |
| BosDescriptors.ParseBosDescriptor | libusb-android/libusb/descriptor.c:760-833 | The loop over capabilities agrees with the specification on every buffer |
| BosDescriptors.BosAccounts | libusb-android/libusb/descriptor.c:760-833 | The buffer is the header, the capabilities and what is left over, byte for byte |
| BosDescriptors.BosRoundTrip | libusb-android/libusb/descriptor.c:760-833 | Parsing a printed store gives it back, whatever follows |
| BosDescriptors.BosAnnouncing | libusb-android/libusb/descriptor.c:790-833 | A printed store that announces more capabilities than it prints is read as printed, unless the next one is too short, which is an error |
| BosDescriptors.CapsInFront | libusb-android/libusb/descriptor.c:796-830 | Capabilities in front of others are read first, and the result or error of the rest does not depend on them |
| BosDescriptors.NoBosHere | libusb-android/libusb/descriptor.c:768-783 | What has no whole store header is an error |
| BosDescriptors.GetCompanion | libusb-android/libusb/descriptor.c:705-743 | On any list of class descriptors the search finds the first companion (type 0x30), and fails only if that one has fewer than six bytes |
| BosDescriptors.EndpointExtraIsARun | libusb-android/libusb/descriptor.c:117-163 | The extra bytes that the endpoint parser keeps are whole class descriptors, as the search expects |
| Crc8.GetCrc | dllCom/libcomm/protocomm_ll.c:187-199 | The unmasked wide accumulator computes the remainder of the string, as a polynomial times x^8, by x^8 + x^5 + x^4 + 1 |
| Crc8.CrcIsTheRemainder | dllCom/libcomm/protocomm_ll.c:187-199 | The checksum, and no other byte, is that remainder, coefficient by coefficient |
| Crc8.CrcIsLinear | dllCom/libcomm/protocomm_ll.c:187-199 | The checksum is linear on strings of equal length |
| Crc8.OneByteChangesCrc | dllCom/libcomm/protocomm_ll.c:187-199 | Changing any one byte changes the checksum |
| Crc8.ChecksumCloses | dllCom/libcomm/protocomm_ll.c:187-199 | A string followed by its checksum has the checksum zero, and by no other byte |
| Framing.ChunksDoNotMatter | dllCom/libcomm/protocomm_ll.c:118-152 | The decoder's state does not depend on how the bytes are cut into pieces |
| Framing.MessageRoundTrip | dllCom/libcomm/protocomm_ll.c:73-84 | A message after noise without a start byte, in any pieces, decodes to its command and significant arguments |
| Framing.CorruptionIsRefused | dllCom/libcomm/protocomm_ll.c:155-177 | A single wrong checksum, argument, or same-size command byte is refused |
| Framing.ResultTellsCompleteness | dllCom/libcomm/protocomm_ll.c:136-151 | The result of a push is non-negative iff a frame is complete or the piece ends in the header |
| Framing.ResultCountsBytes | dllCom/libcomm/protocomm_ll.c:136-151 | A non-negative result is the length of a piece that ends in the header, or the number of bytes up to the one that completes the frame |
| Framing.HalfAHeaderIsSuccess | dllCom/libcomm/protocomm_ll.c:141-142 | A lone start byte is reported as success |
| Framing.WireFormat | dllCom/libcomm/protocomm_ll.c:73-84 | A message is 0x12, the checksum of all that follows it, the command, and the two, one or no arguments of that command |
| Framing.Handle.MakeFrame | dllCom/libcomm/protocomm_ll.c:73-84 | The frame is built in place, unused arguments zero, with its checksum |
| Framing.Handle.PushToFrame | dllCom/libcomm/protocomm_ll.c:118-152 | The three loops leave the frame that the byte-at-a-time decoder would, and return the specified count |
| Framing.Handle.DecodeFrame | dllCom/libcomm/protocomm_ll.c:155-185 | Waits, accepts and empties, or refuses and keeps, as specified |
| Stm32Fifo.QueueIffNotFull | dllCom/libcomm/devices/device_stm32.c:26-31 | The ring is a queue iff fewer than 40 bytes are pending; the number pending is taken modulo 40 |
| Stm32Fifo.Fifo.PushByte | dllCom/libcomm/devices/device_stm32.c:26-31 | Appends to the ring, which the 40th byte empties |
| Stm32Fifo.Fifo.PopByte | dllCom/libcomm/devices/device_stm32.c:32-38 | Takes the oldest byte |
| Stm32Fifo.Fifo.Read | dllCom/libcomm/devices/device_stm32.c:75-91 | Takes the oldest bytes, as many as there are and fit |
| RegisterProtocol.RequestIsServedOnce | dllCom/libcomm/protocomm_slave.c:38-90 | However a request is cut up and the slave is polled, it is executed and answered once, as soon as the slave runs after the last byte |
| RegisterProtocol.TransactionIsAnArrayStep | dllCom/libcomm/protocomm_master.c:119-150 | One get or set returns and does what a bounds-checked register array would |
| RegisterProtocol.SessionIsAnArray | TestUSBTerminal/tst/tst_protocomm.c:56-81 | So does every sequence of them, each request being executed exactly once and in order, with both cursors back at zero |
| RegisterProtocol.MasterReads | dllCom/libcomm/protocomm_master.c:67-117 | A whole reply is classified by its command - 2 success, 3 and 4 errors of the slave, anything else a protocol error - and leaves the cursor of the master at zero |
| RegisterProtocol.PartOfAReply | dllCom/libcomm/protocomm_master.c:83-115 | A part of a reply: a time-out if nothing or more than the header is there, and a failed assertion otherwise |
| RegisterProtocol.CorruptedRequestIsReported | dllCom/libcomm/protocomm_ll.c:170-175 | A request with a wrong byte is not executed and the master learns of it, but the report stays in the slave's frame with the cursor behind the request |
| RegisterProtocol.CorruptedReplyIsRefused | dllCom/libcomm/protocomm_master.c:107-109 | The master refuses a reply with a wrong byte |
| RegisterProtocol.ReadyIffAccepted | dllCom/libcomm/protocomm_ll.c:155-185 | After an iteration the slave is ready for another frame iff it has not begun one, or the one now complete carries the checksum of its bytes |
| RegisterProtocol.RefusedFrameStays | dllCom/libcomm/protocomm_slave.c:68-72 | A complete frame with another checksum, of three, four or five bytes, is replaced by the report and the cursor stays behind it |
| RegisterProtocol.AnswersAreReported | dllCom/libcomm/protocomm_slave.c:38-90 | An iteration returns 1 iff it sent something, and 0 otherwise |
| RegisterProtocol.RefusedSetIsForever | dllCom/libcomm/protocomm_ll.c:86-93 | With five bytes in the frame nothing is ever executed or answered |
| RegisterProtocol.CorruptedSetEndsTheSession | dllCom/libcomm/protocomm_ll.c:86-93 | After one wrong byte in a write request every later get and set times out and the table stays as it is |
| RegisterProtocol.RefusedGetAnswersTwice | dllCom/libcomm/protocomm_ll.c:66-71 | With a report of four bytes in the frame the next byte is lost and the slave answers its own report |
| RegisterProtocol.CorruptedGetIsAnsweredTwice | dllCom/libcomm/protocomm_ll.c:155-185 | That is what one wrong byte in a read request leads to, whatever comes next |
| RegisterProtocol.RefusedUnknownTakesOneMore | dllCom/libcomm/protocomm_ll.c:144-151 | With a report of three bytes in the frame the next byte completes it and a second one is lost; it is accepted iff that byte is the reported checksum, and otherwise refused again with four bytes |
| RegisterDevices.SlaveDevice.Callback | TestUSBTerminal/tst/tst_protocomm.c:56-81 | The table and the reply are those of the bounds-checked array |
| RegisterDevices.SlaveDevice.Iterate | dllCom/libcomm/protocomm_slave.c:38-90 | One iteration on the ring, the frame and the table does what the specification says |
| RegisterDevices.Master.ReadFrame | dllCom/libcomm/protocomm_master.c:67-117 | However often it could poll before the deadline, the loop polls once, and the reply is classified as specified |
| RegisterDevices.Exchange | dllCom/libcomm/protocomm_master.c:119-150 | A whole get or set between the two objects is the specified transaction |
| HexImage.MergingIsFaithfulIffAligned | libusb-android/examples/ezusb.c:341-361 | Merging writes exactly the records' bytes, at their addresses and in order, iff no record with data follows one without that is out of line and starts elsewhere |
| HexImage.RecordsWithDataAreAligned | libusb-android/examples/ezusb.c:341-361 | Records that all have data are always merged faithfully |
| HexImage.EmptyRecordMovesData | libusb-android/examples/ezusb.c:306-309 | A leading record without data moves the next one |
| HexImage.SegmentsWriteTheRecords | libusb-android/examples/ezusb.c:254-373 | Segments are not empty, have at most 1023 bytes, and flatten to the records; after an error to a part of them |
| HexImage.LinesInFront | libusb-android/examples/ezusb.c:264-332 | Data lines with comments between them are read as their records, whatever follows |
| HexImage.ReadingEnds | libusb-android/examples/ezusb.c:270-332 | Reading ends without an error at the end of the file or an end record, and with one at a line without a colon, another record type, or too few bytes |
| HexImage.SegmentsAreMerged | libusb-android/examples/ezusb.c:338-361 | No two segments in a row could have been one |
| HexImage.LastRecordIsLost | libusb-android/examples/ezusb.c:324-332 | After an error at least the last record that was read is not written |
| HexImage.ExternalMeansNotAllOnChip | libusb-android/examples/ezusb.c:54-107 | A segment counts as external iff one of its bytes is not on the chip |
| HexImage.PartsMakeTheWhole | libusb-android/examples/ezusb.c:515-535 | The two passes together have every segment exactly once |
| HexImage.TwoPassesStoreTheImage | libusb-android/examples/ezusb.c:785-817 | Two passes leave the same memory as the records in order, unless records contradict each other |
| HexLoader.LoadStoresTheImage | libusb-android/examples/ezusb.c:740-817 | A successful load writes every segment once and leaves the bytes of the records in memory |
| HexLoader.OnChipWritesAreSafe | libusb-android/examples/ezusb.c:768-805 | On-chip memory is written only while the processor is stopped |
| HexLoader.LoaderRunsMeanwhile | libusb-android/examples/ezusb.c:768-817 | External memory is written before the processor is ever stopped, and the load ends with the one start of the processor |
| HexLoader.PassWritesOnePart | libusb-android/examples/ezusb.c:505-545 | One pass writes the segments of one kind in order, or a front part of them |
| HexLoader.Loader.RamPoke | libusb-android/examples/ezusb.c:505-555 | Refuses, skips or writes as the mode says; the retry loop makes at most one transfer |
| HexLoader.Loader.ParseIhex | libusb-android/examples/ezusb.c:230-373 | The loop over lines pokes exactly the merged segments, up to the first failure, and returns how it ended |
| HexLoader.Loader.LoadRam | libusb-android/examples/ezusb.c:740-830 | Whatever fails, the device has seen a front part of the expected events; success means all of them, and only a failed transfer or a bad image prevents it |

## Left out

- Operating-system backends: their functions appear as answers (`result`, `armResult`, `script`, `env`); a cancel function of a backend is taken not to complete a transfer by itself.
- Time, clocks and scheduling: the current time is a parameter, and no fairness is claimed.
- EventLocking: of what a callback may call, libusb_handle_events on a default (not recursive) mutex is a step, and synchronous transfers and libusb_handle_events_locked are refused at once by the code; libusb_close from a callback skips the locks and is a part of the body of handle_events; libusb_lock_events from a callback, platforms with recursive mutexes, thread start and exit, and waiting on file descriptors are not modelled.
- FlyingTransfers: transfers are records behind identifiers and lists are sequences; that the pointer code of the lists implements sequences is proved in IntrusiveList.
- FlyingTransfers.StepKeepsInv: an accepted submission and a completion are one step each, although the code passes through two locked regions; what another thread sees between taking a transfer off the list and clearing its flag, or while the backend is being called, is not modelled.
- TransferContext.Context.HandleDisconnect: callbacks may do anything that does not change which transfers of the lost handle are in flight; one that resubmits on that handle can keep the loop going.
- Deadlines.PollRoundsUp: is about the number of milliseconds before it is cast to an int, which is the subject of Deadlines.PollArgumentIsExactIff; time_t is taken to be wide enough for that number.
- DeviceReferences: device memory itself, session identifiers, and the removal from the list of attached devices are not modelled; a handle is not closed from the callback of one of its own transfers, which the code does not survive.
- DeviceRegistry.Registry.GetDeviceList: the variant for backends without hotplug support asks the backend for the list.
- HotplugSweep.HotplugContext.RegisterCallback: parameter checks and the enumeration of existing devices at registration are not part of it.
- Descriptors: out-of-memory results, the retrieval of descriptors from a device, and the public accessors for single capabilities.
- RegisterProtocol.SessionIsAnArray: replies reach the master whole and before its one read; RegisterProtocol.PartOfAReply says what happens otherwise.
- RegisterProtocol: devices other than the STM32 ring buffer, and input/output errors of a device.
- Stm32Fifo.Fifo.PushBytes: the length of a USB packet is taken to fit eight bits, as it does.
- HexImage: the text of a HEX line is represented by its decoded fields; checksums of lines are not checked by the code either.
- HexLoader: transfer statistics, short transfers (which the code counts as success), the FX3 loader and the other image formats.
- Logging, error strings, options, isochronous and bulk helper functions, the generated STM32 code, and the desktop and mobile applications.
