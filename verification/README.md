# Verified models of Mammut's stateful cores

Mammut manages the processors of a machine: their topology, frequencies, energy
meters, clock modulation and throttled processes, locally or over a connection to a
remote server. It carries its own copies of libusb 1.0.9 and hidapi for external power
meters. This project models the parts of that code whose correctness rests on more than
one function: protocols between threads, pointer structures, nested parsers, wrapping
arithmetic, and programs whose runs keep an invariant.

Verify everything with `dafny verify dfyconfig.toml` (Dafny 4.11).

## What is modelled

| file | what it models |
|---|---|
| `EventProtocol.dfy` | libusb's event handling by several threads: the recursive events lock, `event_handler_active`, `pollfd_modify`, the control pipe, the event waiters' condition variable, completion flags, open and close. N threads, one shared access or lock operation per step. |
| `EventHandling.dfy` | what each thread does with its operations in that protocol: when it handles events, waits, returns, announces completions, polls again, closes and opens, and which flags and answers it sees |
| `FailedWrites.dfy` | what a failed write to the control pipe costs in that protocol: which threads it can leave asleep with nobody to wake them, and when |
| `ModifierProgress.dfy` | how a thread that opens or closes a device gets the events lock from the others |
| `Deadlines.dfy` | the arithmetic of timeouts: deadlines, time left, the wait given to `poll` |
| `TransferQueue.dfy` | the queue of in-flight transfers as a value: a stable sort of the submissions |
| `FlyingTransfers.dfy` | the same queue on the heap: the intrusive circular list, submission, a second submission in flight, completion, cancellation, timeout scans, disconnect, close |
| `Descriptors.dfy` | the USB descriptor parsers (sections 9.6.3, 9.6.5 and 9.6.6 of the USB 2.0 specification) and a serializer for them |
| `DescriptorBytes.dfy` | those parsers on the bytes that a device sends, in numbers |
| `Throttler.dfy` | the thread that stops and continues processes to hold them to a share of the processor |
| `Topology.dfy` | renumbering of cores, construction of the tree, its reconstruction by a remote client, lookups |
| `Domains.dfy` | selection of the frequency domains that lie within a set of cores |
| `EnergyCounters.dfy` | energy meters over registers and files that wrap, and their refresher |
| `MsrBits.dfy` | bit fields of model specific registers, and clock modulation |
| `Framing.dfy` | length-prefixed messages over a stream that is read in pieces |
| `Servant.dfy` | the server's thread for a connection: dispatch to modules, results and exceptions, and everything that can fail in between |
| `RemoteCall.dfy` | remote calls of several client threads on one connection to such a servant, with reads on their side that can fail |
| `OutOfStep.dfy` | runs of such calls that get the wrong reply or wait forever |
| `HidQueue.dfy` | the queue of HID input reports, the waits of its readers and their waking |
| `Options.dfy`, `Arithmetic.dfy` | an option type, and facts about remainders |

Methods follow the source's control flow and are proved against specification functions
or against properties of the old and the new state; the lemmas are about those functions.
Shared state that several threads change is a state machine with a theorem over all its
runs. In `FlyingTransfers`, `HidQueue`, `Throttler`, `EnergyCounters`, `MsrBits`,
`Topology`, `Framing` and `Servant` the state is that of objects on the heap.

## What is assumed

- The clock can be read where a result depends on it (a failing clock is a case of
  `CalculateTimeout`, `SubmitTransfer`, `Resubmit`, `HandleTimeoutsLocked`,
  `GetNextTimeout` and of the submissions of callbacks).
- `malloc` and `realloc` succeed. Mutexes and condition variables behave as POSIX says,
  spurious wakeups included.
- Reads of a socket deliver whatever arrives, in pieces of any size. Reads and writes that
  fail, or are short, are cases of `Servant`, and reads of clients that fail are cases of
  `RemoteCall`; in `Framing` and when clients send they succeed. Only finitely many of them
  fail on one connection.
- The energy that a processor takes never exceeds its thermal power over any stretch of
  time (`EnergyCounters.RefresherKeepsClose`, `EnergyCounters.RefresherKeepsEnergy`); the
  counter is the number of whole units of it.
- Joules, percentages and modulation values are real numbers.

## Where the code does not do what it says

These are theorems of the project; the code was kept as it is.

- A transfer with timeout 0 is "unlimited", but it keeps the deadline of the last of its
  submissions that set one (`Deadlines.UnlimitedExactly`).
- A deadline can have 1000000 microseconds, since the carry test is `>` and not `>=`
  (`Deadlines.DeadlineNormalExactly`); the order of deadlines is that of time all the same.
- A wait of more milliseconds than an `int` holds can turn into an endless one
  (`Deadlines.LongWaitBlocksForever`; `Deadlines.PollMillisRoundsUpExactly` says when not).
- When a write to the control pipe fails, a waiting thread can be left asleep with nobody
  to wake it before its wait times out. With failed writes of opening threads only, and
  likewise with those of closing threads only, such a run exists if and only if there are
  two threads (`FailedWrites.LostWakeupExactly`). It happens exactly when, with no other
  broadcast to come, an opener's write fails while a thread sleeps, or a thread goes to
  sleep because `pollfd_modify` is set although only threads keep it up that have a failed
  write, and their broadcast if any, behind them (`FailedWrites.StrandedStepExactly`,
  `FailedWrites.StrandedSleepers`). A close whose write failed also closes the device
  without the events lock (`EventProtocol.CloseExcludesHandlers`).
- A second submission of a transfer in flight, which the API answers with
  `LIBUSB_ERROR_BUSY`, links it in twice and leaves no circular list behind
  (`FlyingTransfers.Context.Resubmit`).
- A throttled process can be raised so that the shares exceed 100%
  (`Throttler.UpwardBreaks`; `Throttler.AddSafeExactly` says exactly when a landing request
  keeps them safe). A request can be accepted and then dropped
  (`Throttler.AcceptedAndDropped`); all requests of a queue take effect exactly when the
  counter has room for the first requests of all its new processes together
  (`Throttler.AllLandExactly`).
- The budget of a throttled process that dies is lost, and so is what an update takes off a
  share, until an update adds to one again (`Throttler.LostAccount`). In a run in which no
  landing request raises a process nothing lost comes back, and nothing is lost exactly if no
  throttled process dies and no landing update changes a share (`Throttler.LostExactly`,
  `Throttler.LostForever`). One death can end all throttling
  (`Throttler.DeathEndsThrottling`).
- A request that the end of the stream cuts off is answered with an exception like one that
  was received (`Servant.UndisturbedExactly`).
- After a reply that could not be sent as a whole the exception is sent behind what did get
  out of it. The client receives that exception, and only that, exactly if nothing did
  (`Servant.CutExactly`, `Servant.OneCutReply`); it can receive a message that was never sent
  (`Servant.NeverSent`). Over whole runs it receives exactly what got out as a whole if and
  only if behind no part of a reply there is a whole exception, or as much of one as
  completes a frame (`Servant.ReceivedExactly`).
- A client whose read fails releases the lock and leaves what it has not read to the next
  call. Calls read from where their own replies begin up to and including the first that
  gets no message, and the next one never does (`RemoteCall.InStepExactly`): it can get the
  reply to another request (`OutOfStep.WrongReply`) or wait with the lock for bytes that
  never come (`OutOfStep.WaitsForever`).
- The refresher has no time to spare: if it is late by one unit of energy at full power more
  than its pause, a whole range is lost (`EnergyCounters.LaterIsTooLate`).
- A wait for a HID report whose time runs out returns nothing even if a report is there by
  then (`HidQueue.TimedOutBesideReport`).
- A clock modulation that cannot be written is set without an error
  (`MsrBits.VirtualCore.SetClockModulation`).
- An energy register that happens to show 0 is reported as missing
  (`EnergyCounters.CounterCpusLinuxMsr.ReadEnergyCounter`).
- `getDomainsComplete` is right for all domains only on lists without repetitions
  (`Domains.CompleteExactly`).
- The comment in `hid.c` speaks of 30 queued reports; the code keeps 32
  (`HidQueue.HidDevice.Arrive`). Its condition is signalled only for the first report in
  the queue, which is enough for exactly one reader (`HidQueue.ForgottenExactly`).
- Lengths of 2^32 and more are cut on the wire (`Framing.RoundTripExactly`).

## Model

| member | source | states |
|---|---|---|
| `EventProtocol.NoLostWakeup` | src/external/libusb-1.0.9/libusb/io.c:2006-2050 | In every run of any number of threads whose control-pipe writes succeed, a thread that sleeps waiting for events has another thread that still owes it a broadcast; if its completion flag is already set, that thread is the one about to announce it |
| `EventProtocol.DutyEndsInBroadcast` | src/external/libusb-1.0.9/libusb/io.c:1588-1600 | A thread stops owing a broadcast only by making one, after which nobody sleeps, unless its control-pipe write failed; closing threads whose write failed still owe the one of `do_close` |
| `EventProtocol.SleeperCanBeWoken` | src/external/libusb-1.0.9/libusb/io.c:1730-1757 | From every reachable state the other threads can go on, without any new operation and without outside help but polls returning, until a given sleeper has been woken; that a dedicated handler gives up the lock after a round of events counts as a move of its own |
| `EventProtocol.InvAlways` | src/external/libusb-1.0.9/libusb/io.c:1532-1600 | Lock ownership and depth, the waiters' lock, both counters and the completion flags stay consistent with all program counters in every run, failed writes included |
| `EventProtocol.BehaviourInv` | src/external/libusb-1.0.9/libusb/io.c:2019-2049 | The same for every state of every run as a sequence of states; and without failed writes, while a thread sleeps or has decided to, some thread owes a broadcast |
| `EventProtocol.ModifierProtocol` | src/external/libusb-1.0.9/libusb/core.c:882-920 | `pollfd_modify` is the number of threads inside open and close sections and the pipe holds one byte for each thread between its write and its read, so while a thread waits for the events lock after its write the pipe is readable |
| `EventProtocol.BlockedModifierEndsPoll` | src/external/libusb-1.0.9/libusb/core.c:882-920 | While a thread waits for the events lock after its write, a polling thread can go on |
| `EventProtocol.CloseExcludesHandlers` | src/external/libusb-1.0.9/libusb/core.c:1110-1162 | The backend closes a device with the events lock held if and only if the control-pipe write succeeded, and then no thread is handling events |
| `EventProtocol.HandlersExclusive` | src/external/libusb-1.0.9/libusb/io.c:1851-1957 | No two threads are inside `handle_events` |
| `EventProtocol.NoDeadlock` | src/external/libusb-1.0.9/libusb/io.c:1532-1600 | In every reachable state in which some thread is awake in an operation, a thread can make a step by itself or one is polling |
| `EventHandling.HandlesBeforeReleasing` | src/external/libusb-1.0.9/libusb/io.c:2019-2027 | In every run, a thread in `libusb_handle_events` that has got the events lock gives it up only after it was inside `handle_events`, or after its completion flag was set while it held the lock |
| `EventHandling.SetFlagDoesNotPoll` | src/external/libusb-1.0.9/libusb/io.c:2021-2025 | In every run, no thread whose completion flag is set goes into `handle_events` |
| `EventHandling.PollsBeforeReleasing` | src/external/libusb-1.0.9/libusb/io.c:1571-1578 | A thread that got the lock with `libusb_lock_events` is inside `handle_events` before it gives it up |
| `EventHandling.ReturnsForAReason` | src/external/libusb-1.0.9/libusb/io.c:2019-2050 | `libusb_handle_events` returns only after it handled events, its flag was set, or a wait of it ended |
| `EventHandling.WaitCanEnd` | src/external/libusb-1.0.9/libusb/io.c:1730-1757 | Every run in which a thread sleeps can go on with a move that ends its wait, as when its time runs out, and wakes nobody else |
| `EventHandling.WokenReturns` | src/external/libusb-1.0.9/libusb/io.c:2045-2050 | Once a wait ends, for whatever reason, the thread takes the waiters lock again and returns, and does nothing else in between |
| `EventHandling.PollsAgainExactly` | src/external/libusb-1.0.9/libusb/io.c:1623-1640 | A thread that asks `libusb_event_handling_ok` polls again if and only if no thread is in a section that changes the poll set |
| `EventHandling.CallbackWakesAll` | src/external/libusb-1.0.9/libusb/io.c:1489-1491 | After every completion callback, whether it sets a flag or not, the thread that ran it goes on only after a broadcast of its own that leaves nobody asleep |
| `EventHandling.FlagExactly` | src/external/libusb-1.0.9/libusb/io.c:2019-2033 | In every run the completion flag of a thread is set if and only if a callback for it has run since the thread last cleared it |
| `EventHandling.WatchExactly` | src/external/libusb-1.0.9/libusb/io.c:2021-2033 | A thread looks at a flag if and only if it passed one to the call that it began last |
| `EventHandling.ActiveAnswer` | src/external/libusb-1.0.9/libusb/io.c:1651-1667 | In every run `libusb_event_handler_active` says yes while a thread handles events or changes the poll set, and no when nobody holds the events lock or changes the poll set |
| `EventHandling.ClosesBeforeReturning` | src/external/libusb-1.0.9/libusb/core.c:1110-1162 | In every run, failed writes included, `libusb_close` returns only after it has removed the transfers of the handle and then closed it |
| `EventHandling.LocksBeforeReturning` | src/external/libusb-1.0.9/libusb/core.c:882-920 | `libusb_open` returns only after it held the events lock, unless its write to the control pipe failed |
| `EventHandling.PollingRun` | src/external/libusb-1.0.9/libusb/io.c:2019-2025 | For every number of threads a run in which one polls |
| `EventHandling.DedicatedRun` | src/external/libusb-1.0.9/libusb/io.c:1571-1578 | And one in which a thread polls with the lock from `libusb_lock_events` |
| `EventHandling.HandlingRun` | src/external/libusb-1.0.9/libusb/io.c:2019-2027 | And one in which it has handled events and everything is as at the start |
| `EventHandling.WaitingRun` | src/external/libusb-1.0.9/libusb/io.c:2029-2046 | And, for two threads and more, one in which a thread polls while another sleeps |
| `ModifierProgress.ModifierGetsTheLock` | src/external/libusb-1.0.9/libusb/core.c:882-920 | From every state of every run, failed writes included, in which a thread waits for the events lock after its write, moves of other threads that need nothing from outside, not even the end of a poll or the decision of a dedicated handler, free the lock for it |
| `FailedWrites.SpentExactly` | src/external/libusb-1.0.9/libusb/core.c:896-903 | The threads that keep `pollfd_modify` up and owe no broadcast are exactly those with a failed write, and the broadcast of `do_close` if any, behind them |
| `FailedWrites.StrandedStepExactly` | src/external/libusb-1.0.9/libusb/core.c:896-903 | The steps that leave a sleeper nobody owes a broadcast: with nobody else in debt, the failed write of an opener while a thread sleeps, or a thread that finds `pollfd_modify` set and decides to sleep |
| `FailedWrites.RescuedStepExactly` | src/external/libusb-1.0.9/libusb/io.c:1532-1600 | The steps that end it: a thread gets the events lock to handle events or begins to open or close a device, or the only sleeper wakes for another reason |
| `FailedWrites.StrandedExactly` | src/external/libusb-1.0.9/libusb/core.c:1110-1136 | In any state of any run a thread is so left exactly if an earlier move met the first condition and none since then the second |
| `FailedWrites.StrandedSleepers` | src/external/libusb-1.0.9/libusb/io.c:2019-2049 | Such a sleeper slept when the write of an opener failed, or went to sleep at a moment when all that kept `pollfd_modify` up were threads with a failed write behind them |
| `FailedWrites.FailedOpen` | src/external/libusb-1.0.9/libusb/core.c:882-903 | A run in which a thread goes to sleep before the write of an opener fails, and ends asleep with all others idle |
| `FailedWrites.FailedOpenBefore` | src/external/libusb-1.0.9/libusb/core.c:882-903 | A run in which it goes to sleep after that write has failed |
| `FailedWrites.FailedClose` | src/external/libusb-1.0.9/libusb/core.c:1126-1136 | A run in which it goes to sleep after the broadcast of a close whose write failed |
| `FailedWrites.LostWakeupRun` | src/external/libusb-1.0.9/libusb/core.c:1126-1136 | Runs in which the failed writes are all those of openers, or all those of closers, and which end with one thread asleep and all others idle |
| `FailedWrites.LostWakeupExactly` | src/external/libusb-1.0.9/libusb/core.c:896-903 | For openers and for closers: a run whose failed writes are all theirs and that ends in a sleeper nobody owes a broadcast exists if and only if there are at least two threads |
| `FailedWrites.NoFailureNobodyStranded` | src/external/libusb-1.0.9/libusb/io.c:2019-2049 | Without failed writes no run has such a sleeper |
| `Deadlines.DeadlineIsTimeoutAfterNow` | src/external/libusb-1.0.9/libusb/io.c:1124-1153 | A positive timeout gives a deadline that many milliseconds after the clock reading, to the microsecond, with at most 1000000 microseconds |
| `Deadlines.DeadlineNormalExactly` | src/external/libusb-1.0.9/libusb/io.c:1141-1147 | When the deadline is a normalised time value, and when the carry is missed |
| `Deadlines.UnlimitedExactly` | src/external/libusb-1.0.9/libusb/io.c:1131-1132 | After any history of submissions a transfer has no deadline exactly if none of them set one; otherwise it has that of the last which did, whatever came since |
| `Deadlines.OrderRespectsTime` | src/external/libusb-1.0.9/libusb/io.c:1185-1187 | The comparison of seconds and microseconds agrees with real time even on deadlines that are not normalised |
| `Deadlines.TimeLeftExact` | src/external/libusb-1.0.9/libusb/io.c:2266-2284 | The time left is the deadline minus now, 0 if it has passed, and normalised |
| `Deadlines.PollTimeoutIsMin` | src/external/libusb-1.0.9/libusb/io.c:1959-1978 | The wait is the smaller of the caller's timeout and the time left, none when a deadline has passed, and the caller's timeout when no deadline is pending |
| `Deadlines.PollMillisRoundsUpExactly` | src/external/libusb-1.0.9/libusb/io.c:1881-1892 | The milliseconds given to `poll` are the wait rounded up by less than one, exactly when they fit into an `int` |
| `Deadlines.LongWaitBlocksForever` | src/external/libusb-1.0.9/libusb/io.c:1881-1892 | A wait whose milliseconds do not fit that becomes negative, which `poll` takes as endless |
| `Deadlines.FullPollReachesDeadline` | src/external/libusb-1.0.9/libusb/io.c:1881-1892 | A poll that sleeps its whole timeout, when the milliseconds of the wait fit into an `int`, wakes no earlier than the deadline it was computed from |
| `TransferQueue.InsertAt` | src/external/libusb-1.0.9/libusb/io.c:1174-1196 | Inserting in front of the first later entry is insertion into the sorted queue behind its equals |
| `TransferQueue.SortOfSorted` | src/external/libusb-1.0.9/libusb/io.c:1156-1200 | The queue is sorted by deadline with unlimited transfers last |
| `TransferQueue.SortOfStable` | src/external/libusb-1.0.9/libusb/io.c:1156-1200 | Transfers with the same deadline stay in the order of their submission |
| `TransferQueue.SortOfRemove` | src/external/libusb-1.0.9/libusb/io.c:1454-1457 | Taking a transfer out of the sorted queue gives the sorted queue of the others |
| `FlyingTransfers.ListInit` | src/external/libusb-1.0.9/libusb/libusbi.h:83-86 | The head alone is an empty circular list |
| `FlyingTransfers.ListAdd` | src/external/libusb-1.0.9/libusb/libusbi.h:88-95 | Pointer updates that make the circular list of s the one of the entry followed by s |
| `FlyingTransfers.ListAddTail` | src/external/libusb-1.0.9/libusb/libusbi.h:97-105 | Pointer updates that put an entry before any node of a circular list |
| `FlyingTransfers.ListDel` | src/external/libusb-1.0.9/libusb/libusbi.h:107-111 | Pointer updates that take any node out; its own pointers stay, as the iteration macros need |
| `FlyingTransfers.Context.Ordered` | src/external/libusb-1.0.9/libusb/io.c:1156-1200 | The linked transfers of a valid context are in the order of their deadlines |
| `FlyingTransfers.Context.FindLater` | src/external/libusb-1.0.9/libusb/io.c:1181-1193 | The walk stops at the first node with a later deadline or none |
| `FlyingTransfers.Context.AddToFlyingList` | src/external/libusb-1.0.9/libusb/io.c:1156-1200 | The list stays circular, without repetitions and sorted with ties in order of arrival; the result is 1 exactly when the transfer has a deadline and is now the first |
| `FlyingTransfers.Context.CalculateTimeout` | src/external/libusb-1.0.9/libusb/io.c:1124-1153 | The stored deadline, and that a clock that cannot be read leaves it alone and fails |
| `FlyingTransfers.Context.SubmitTransfer` | src/external/libusb-1.0.9/libusb/io.c:1288-1330 | For a transfer that is not in flight: the new deadline, flags and list on success, and a list as it was on every failure |
| `FlyingTransfers.Context.Resubmit` | src/external/libusb-1.0.9/libusb/io.c:1288-1330 | For a transfer in flight, which the backend refuses: a circular list of any transfers is left exactly if the timeout is positive and the clock cannot be read; else the walk from the head up to the transfer is as before, and then goes on at the place where it was linked in again |
| `FlyingTransfers.LinkTwiceAndDelete` | src/external/libusb-1.0.9/libusb/libusbi.h:97-111 | Linking an entry in twice and deleting it once: every pointer that a forward walk uses afterwards, and that no sequence of entries is a circular list |
| `FlyingTransfers.Context.HandleTransferCompletion` | src/external/libusb-1.0.9/libusb/io.c:1440-1493 | The transfer leaves the list, the others keep their order, and the callback sees the transferred length; a completed transfer that must not be short is reported as an error if and only if the length is not the requested one, which for control transfers is 8 less than that of the buffer; every other status is reported as given |
| `FlyingTransfers.Context.HandleTransferCancellation` | src/external/libusb-1.0.9/libusb/io.c:1501-1511 | A cancellation that a timeout caused is reported as a timeout, any other as cancelled |
| `FlyingTransfers.Context.CancelTransfer` | src/external/libusb-1.0.9/libusb/io.c:1346-1370 | The flags after a cancellation, for every answer of the backend |
| `FlyingTransfers.Context.HandleTimeoutsLocked` | src/external/libusb-1.0.9/libusb/io.c:1772-1812 | Although the scan stops early it marks exactly the transfers with a finite deadline that has passed, not timed out before and not timed by the system, and changes no other flag |
| `FlyingTransfers.DueExactly` | src/external/libusb-1.0.9/libusb/io.c:1777-1809 | The transfers that a scan takes for due are those whose deadline is not zero and not later than now, which have not timed out before and are not timed by the system |
| `FlyingTransfers.Context.GetNextTimeout` | src/external/libusb-1.0.9/libusb/io.c:2226-2284 | The first pending transfer that the scan finds has the minimum of all pending deadlines; 0 exactly when nothing is pending |
| `FlyingTransfers.Context.HandleEventsIdle` | src/external/libusb-1.0.9/libusb/io.c:2143-2157 | End to end, for any timeout of the caller, when nothing becomes ready: how long it sleeps, which is the caller's timeout when nothing is pending, not at all when a deadline has passed, and else the smaller of the two, rounded up to milliseconds if an `int` holds them; and if the earliest pending deadline is within that timeout and its milliseconds fit, its transfer has been timed out on return |
| `FlyingTransfers.Context.HandleDisconnect` | src/external/libusb-1.0.9/libusb/io.c:2416-2454 | With callbacks that make any number of submissions of transfers that are not in flight, the completed ones included, each with its own clock reading and any outcome but failure on the handle that is gone, the loop ends; each transfer of the handle is completed once, in list order, with NO_DEVICE, and all others keep their order |
| `FlyingTransfers.Context.DoClose` | src/external/libusb-1.0.9/libusb/core.c:1041-1086 | The transfers of the closed handle leave the list and lose their handle; the others keep theirs and their order |
| `Descriptors.ParseDescriptor` | src/external/libusb-1.0.9/libusb/descriptor.c:42-70 | The loop reads the fields of any format string, in either byte order, and returns how far it came |
| `Descriptors.DecodeInvertsEncode` | src/external/libusb-1.0.9/libusb/descriptor.c:42-70 | Fields written in a format are read back from it, for every format and both byte orders |
| `Descriptors.SkipExtra` | src/external/libusb-1.0.9/libusb/descriptor.c:108-134 | The skipping loop ends, fails exactly on a descriptor of a bad length, and moves the buffer by what the size loses |
| `Descriptors.SkipsForeign` | src/external/libusb-1.0.9/libusb/descriptor.c:108-134 | A run of descriptors of other types is skipped as a whole, up to the next proper one or the end |
| `Descriptors.AltTakesBytes` | src/external/libusb-1.0.9/libusb/descriptor.c:198-226 | No interface descriptor of length 0 gets through, which is why the outer loop ends |
| `Descriptors.ParseEndpoint` | src/external/libusb-1.0.9/libusb/descriptor.c:78-156 | The parsed endpoint or the error, on any bytes; a non-negative result is the distance that the buffer advanced and the size went down |
| `Descriptors.ParseInterface` | src/external/libusb-1.0.9/libusb/descriptor.c:183-317 | The same for all alternate settings of an interface, with termination on any bytes |
| `Descriptors.ParseConfiguration` | src/external/libusb-1.0.9/libusb/descriptor.c:332-424 | The same for a configuration; what has been parsed and what is left add up to the announced total length |
| `Descriptors.EndpointsParsed` | src/external/libusb-1.0.9/libusb/descriptor.c:281-304 | Well-formed endpoints held in memory are rebuilt one after the other |
| `Descriptors.AltsParsed` | src/external/libusb-1.0.9/libusb/descriptor.c:198-312 | The alternate settings of one interface are rebuilt, and parsing stops where the next interface begins |
| `Descriptors.HeldIsParsed` | src/external/libusb-1.0.9/libusb/descriptor.c:332-424 | Whatever padding descriptors carry, a well-formed configuration held in memory is rebuilt with no byte left |
| `Descriptors.ParserInvertsSerializer` | src/external/libusb-1.0.9/libusb/descriptor.c:332-424 | Parsing the serialized bytes of any well-formed configuration rebuilds exactly that configuration and leaves 0 bytes, wherever the bytes are and whatever follows them |
| `Descriptors.ParseSerialized` | src/external/libusb-1.0.9/libusb/descriptor.c:332-424 | The code end to end: run on the bytes of any well-formed configuration with anything behind them it returns that configuration and 0 bytes left |
| `Descriptors.WellFormedExample` | src/external/libusb-1.0.9/libusb/descriptor.c:332-424 | A configuration with alternate settings, extra bytes and padding that is well-formed |
| `Descriptors.SerializeInjective` | src/external/libusb-1.0.9/libusb/descriptor.c:332-424 | No two well-formed configurations have the same bytes |
| `DescriptorBytes.SkipExactly` | src/external/libusb-1.0.9/libusb/descriptor.c:112-131 | Skipping takes exactly the descriptors up to the end of the buffer or the next one of type 1, 2, 4 or 5, and fails if one of a bad length comes first |
| `DescriptorBytes.SkipFails` | src/external/libusb-1.0.9/libusb/descriptor.c:112-119 | It fails only then |
| `DescriptorBytes.EndpointFromBytes` | src/external/libusb-1.0.9/libusb/descriptor.c:78-156 | Memory that begins with the bytes 7, 5, address, attributes, two bytes of packet size and interval is parsed as that endpoint, whatever the bytes are, with what is skipped behind it |
| `DescriptorBytes.AudioEndpointFromBytes` | src/external/libusb-1.0.9/libusb/descriptor.c:103-106 | One of 9 bytes has two more fields |
| `DescriptorBytes.EndpointOtherwise` | src/external/libusb-1.0.9/libusb/descriptor.c:91-106 | A length beyond the buffer is the error -1, another type than 5 an empty endpoint of no bytes, and of an endpoint shorter than 7 bytes no field is read |
| `DescriptorBytes.InterfaceFromBytes` | src/external/libusb-1.0.9/libusb/descriptor.c:210-257 | The same for the bytes 9, 4 and the fields of an interface |
| `DescriptorBytes.AfterHead` | src/external/libusb-1.0.9/libusb/descriptor.c:259-310 | What follows the head of a setting: more than 32 endpoints are an error; where the endpoints end; when another setting follows |
| `DescriptorBytes.ConfigurationFromBytes` | src/external/libusb-1.0.9/libusb/descriptor.c:332-424 | The same for the bytes 9, 2 and the fields of a configuration; more than 32 interfaces are an error |
| `DescriptorBytes.FirstExtraTaken` | src/external/libusb-1.0.9/libusb/descriptor.c:396-410 | The extra bytes in front of the first interface are kept, and not replaced by later ones |
| `DescriptorBytes.ExampleParsed` | src/external/libusb-1.0.9/libusb/descriptor.c:332-424 | The bytes of a device with a class specific descriptor, two alternate settings and a padded endpoint, and what they are parsed as |
| `Throttler.ThrottlerThread.AddProcess` | src/task/task-linux.cpp:490-500 | The table after a request lands: updated, inserted with its budget, or dropped |
| `Throttler.ThrottlerThread.RemoveProcess` | src/task/task-linux.cpp:502-508 | The table and the counter after a removal |
| `Throttler.ThrottlerThread.Throttle` | src/task/task-linux.cpp:444-460 | Which requests are out of range, refused for the budget or queued |
| `Throttler.ThrottlerThread.Drain` | src/task/task-linux.cpp:512-521 | All queued additions land in order, then all removals, and the queues are empty |
| `Throttler.ThrottlerThread.Slices` | src/task/task-linux.cpp:523-540 | The time slept is the sum of the slices of the processes that could be resumed; exactly the processes that missed a signal are reported, each once |
| `Throttler.ThrottlerThread.Round` | src/task/task-linux.cpp:510-548 | A round with any requests of other threads between its two locked sections: its state is that of the run drain, requests, reap; exactly the dead processes are erased, each of them present; slices and final sleep fill the interval, and from a safe table the table stays safe and neither is negative |
| `Throttler.AddSafeExactly` | src/task/task-linux.cpp:490-500 | A landing request keeps the table safe if and only if it does not raise a process above its share plus the unused budget |
| `Throttler.SafeAlways` | src/task/task-linux.cpp:510-566 | Over every run in which no landing request raises a process, whatever is queued when and whatever dies: the shares sum to at most the counter and the counter to at most 100 |
| `Throttler.SlicesFit` | src/task/task-linux.cpp:529-534 | The slices of a safe table fit into the interval |
| `Throttler.LostAccount` | src/task/task-linux.cpp:490-548 | Over any run the lost budget grows by the shares of throttled processes that are reaped and by what landing updates take off, shrinks by what they add, and nothing else changes it |
| `Throttler.LandingLosesExactly` | src/task/task-linux.cpp:490-500 | A landing request changes the lost budget exactly if it changes the share of a throttled process |
| `Throttler.ReapingLosesExactly` | src/task/task-linux.cpp:541-545 | A reaping loses budget exactly if it takes a throttled process |
| `Throttler.LostExactly` | src/task/task-linux.cpp:510-548 | In a run in which no landing request raises a process the lost budget never shrinks, and stays the same exactly if no throttled process is reaped and no landing update changes a share |
| `Throttler.LostForever` | src/task/task-linux.cpp:541-545 | In such a run the shares in force never exceed 100 minus the budget lost before |
| `Throttler.LostComesBack` | src/task/task-linux.cpp:493-495 | Without that restriction it can: a share that was lowered and is raised again |
| `Throttler.DeathEndsThrottling` | src/task/task-linux.cpp:541-545 | A run in which the death of one process leaves every later request refused with nothing throttled, whatever happens after it |
| `Throttler.AcceptedAndDropped` | src/task/task-linux.cpp:555-566 | A run in which two requests are accepted and only the first takes effect |
| `Throttler.UpwardBreaks` | src/task/task-linux.cpp:493-495 | A run that raises a process ends with shares of 150% and slices longer than the interval |
| `Throttler.AllLandExactly` | src/task/task-linux.cpp:555-566 | Whatever a queue of admitted requests holds, every one of them takes effect when it lands exactly when the counter has room for the first requests of all processes that are new |
| `Throttler.DrainRemoves` | src/task/task-linux.cpp:512-521 | After a drain no process whose removal was asked for is in the table, every other has the value that the additions left it with, and the counter has fallen by the values of the removed ones |
| `Throttler.RemovalFrees` | src/task/task-linux.cpp:502-521 | From any state, a process is out of the table after its removal was asked for and a drain, and a request is then admitted if and only if it fits into the budget with that share free again |
| `Throttler.RefusedThenAccepted` | src/task/task-linux.cpp:502-508 | A run in which a request is refused, a process removed, and the same request then accepted and put into force |
| `Throttler.SliceExactly` | src/task/task-linux.cpp:529-534 | The slice of a process is its percentage of the interval |
| `Topology.Renumber` | src/topology/topology.cpp:43-69 | Every core_id is replaced by the position at which its pair with the package first occurred |
| `Topology.RenumberedInjective` | src/topology/topology.cpp:51-66 | New identifiers are equal exactly when the pairs are |
| `Topology.RenumberedOnto` | src/topology/topology.cpp:51-66 | Every identifier below the number of pairs is given, in the order of first occurrence |
| `Topology.RenumberedUnique` | src/topology/topology.cpp:51-74 | In a tree built from renumbered coordinates physical core identifiers are unique across processors |
| `Topology.GroupConcat` | src/topology/topology.cpp:188-274 | Grouping the concatenation of grouped blocks gives the blocks back |
| `Topology.BuildPartitions` | src/topology/topology.cpp:188-274 | Building neither loses nor invents nor duplicates a coordinate |
| `Topology.BuildIsTree` | src/topology/topology.cpp:188-274 | The result has no processor and no core of a processor twice, none empty, and every core where its coordinates say |
| `Topology.Rebuild` | src/topology/topology.cpp:86-102 | Every tree is rebuilt from its own virtual cores: same order, same nesting |
| `Topology.RebuildIsIdempotent` | src/topology/topology.cpp:645-658 | Flattening a built tree and building again changes nothing |
| `Topology.Topology.constructor` | src/topology/topology.cpp:188-274 | The three vectors agree with each other and with the coordinates |
| `Topology.Topology.BuildVirtualCoresVector` | src/topology/topology.cpp:249-274 | The virtual cores of one physical core, in order, appended to the common vector |
| `Topology.Topology.BuildPhysicalCoresVector` | src/topology/topology.cpp:219-247 | One physical core for each identifier of a processor in order of first occurrence |
| `Topology.Topology.BuildCpuVector` | src/topology/topology.cpp:188-217 | One processor for each identifier, and the two common vectors in tree order |
| `Topology.Topology.Remote` | src/topology/topology.cpp:86-102 | A client that builds from the coordinates sent has the same three vectors as the server |
| `Topology.GetPhysicalCore` | src/topology/topology.cpp:168-176 | The first core with an identifier, the only one when they are unique, none exactly when there is none |
| `Topology.GetOneVirtualPerPhysical` | src/topology/topology.cpp:565-584 | The selected cores follow the physical identifiers in order of first occurrence, and each is the first of its physical core |
| `Topology.VirtualToPhysical` | src/topology/topology.cpp:139-156 | The physical cores follow the same identifiers, so they agree with that selection one by one; each is the first in the tree with its identifier |
| `Domains.Contains` | src/cpufreq/cpufreq.cpp:45-52 | True exactly for the cores of the domain |
| `Domains.GetDomainsComplete` | src/cpufreq/cpufreq.cpp:160-176 | The domains with as many entries in the list as they have cores |
| `Domains.CountIsIntersection` | src/cpufreq/cpufreq.cpp:164-169 | Without repetitions the count is the size of the intersection |
| `Domains.CountedIsComplete` | src/cpufreq/cpufreq.cpp:160-176 | For a list without repetitions exactly the domains all of whose cores are in it are returned, in order |
| `Domains.CompleteExactly` | src/cpufreq/cpufreq.cpp:160-176 | A list gets the right answer for every domain if and only if it has no repetitions |
| `Domains.RepetitionSelectsIncomplete` | src/cpufreq/cpufreq.cpp:164-173 | A repeated core makes the code return a domain of which a core is missing |
| `EnergyCounters.DeltaDiffIsSubtraction` | src/energy/energy-linux.cpp:530-536 | The 32-bit computation is subtraction modulo 2^32, and 0 for equal readings |
| `EnergyCounters.DeltaLosslessExactly` | src/energy/energy-linux.cpp:530-536 | The difference of two readings is the true increase exactly when that is less than 2^32 |
| `EnergyCounters.SysFsDiffIsSubtraction` | src/energy/energy-linux.cpp:677-682 | The computation on files is subtraction modulo the range they announce, exactly unless a file goes from 0 to the range itself; for a file that counts up to the range it loses one microjoule per wrap |
| `EnergyCounters.SysFsRead` | src/energy/energy-linux.cpp:669-686 | A read of a file is a read step of a meter with that range, exactly unless the file went from 0 to the range itself |
| `EnergyCounters.LosslessExactly` | src/energy/energy-linux.cpp:538-542 | For every interleaving of reads, refreshes and resets the meter shows the true energy since the last reset if and only if no two consecutive looks since then were a range apart, and never more |
| `EnergyCounters.ReadsDoNotMatter` | src/energy/energy-linux.cpp:544-552 | How often a meter was read in between does not change what it shows |
| `EnergyCounters.RefresherKeepsClose` | src/energy/energy-linux.cpp:301-306 | In every timed run of users and refresher, with a counter of whole units of an energy that grows by no more than the thermal power, in which the refresher, which pauses half the wrapping interval, is late by no more than that, no two consecutive looks are a range apart |
| `EnergyCounters.RefresherKeepsEnergy` | src/energy/energy-linux.cpp:301-306 | In such a run the meter shows the energy taken from its last reset to its last look, to less than one unit |
| `EnergyCounters.OnTimeShowsAll` | src/energy/energy-linux.cpp:526-528 | A processor at full power from the start, and a refresher exactly one wrapping interval later: all the energy is shown |
| `EnergyCounters.LaterIsTooLate` | src/energy/energy-linux.cpp:526-528 | One unit later a whole range has been taken and 0 is shown |
| `EnergyCounters.CounterCpusLinuxMsr.ReadEnergyCounter` | src/energy/energy-linux.cpp:506-524 | An error exactly for a register that cannot be read or shows 0; else its lower 32 bits |
| `EnergyCounters.CounterCpusLinuxMsr.UpdateCounter` | src/energy/energy-linux.cpp:538-542 | A read step of the meter, or an error that changes nothing |
| `EnergyCounters.CounterCpusLinuxMsr.GetJoules` | src/energy/energy-linux.cpp:544-588 | One meter makes a read step and all others of all processors stay |
| `EnergyCounters.CounterCpusLinuxMsr.ResetAll` | src/energy/energy-linux.cpp:590-612 | Every meter of every processor shows 0 and counts from the lower 32 bits of its register; it fails exactly when a register in use cannot be read or shows 0 |
| `MsrBits.Msr.ReadBits` | src/utils.cpp:479-502 | The bits of the field in the lowest places, and their number |
| `MsrBits.Msr.WriteBits` | src/utils.cpp:504-520 | The 64-step loop replaces exactly the field; a failed write changes nothing |
| `MsrBits.ReadAfterWrite` | src/utils.cpp:479-520 | A number written to a field is read back modulo 2 to its width |
| `MsrBits.OtherFieldsKept` | src/utils.cpp:504-520 | Disjoint fields keep their bits |
| `MsrBits.FieldInNumbers` | src/utils.cpp:504-520 | The register after a write as a number: what was above, the field, what was below |
| `MsrBits.VirtualCore.constructor` | src/topology/topology-linux.cpp:221-240 | The values offered in both modes, and 100 |
| `MsrBits.OfferedExactly` | src/topology/topology-linux.cpp:221-240 | In numbers: 100 and the multiples of 6.25 up to 15 of them in extended mode, of 12.5 up to 7 otherwise, and nothing else |
| `MsrBits.VirtualCore.SetClockModulation` | src/topology/topology-linux.cpp:392-404 | Exactly the offered values are accepted and any other leaves the register as it was; what an accepted one makes of a register, also of one that cannot be read or written |
| `MsrBits.GetAfterSet` | src/topology/topology-linux.cpp:392-414 | Getting the modulation after setting it gives back every offered value in both modes |
| `MsrBits.ModulatedBits` | src/topology/topology-linux.cpp:392-404 | Bit 4 is set exactly for values other than 100, and the bits below it then count the steps |
| `MsrBits.SetThenGet` | src/topology/topology-linux.cpp:392-414 | The code end to end on a register with any contents, in numbers: exactly 100 and the documented multiples are accepted; they are read back, bit 4 and the bits below it say which, and all other bits stay, if the register can be read and written; what is read otherwise |
| `MsrBits.SetKeepsOtherBits` | src/topology/topology-linux.cpp:392-404 | Setting a modulation touches no bit outside its own |
| `Framing.ReceiveBytes` | src/communicator-tcp.cpp:50-62 | However the stream is cut into pieces, the buffer is filled with its next bytes, or the stream was too short |
| `Framing.SendHeader` | src/communicator.cpp:78-88 | The bytes of a header |
| `Framing.Send` | src/communicator.cpp:32-36 | The bytes of a frame |
| `Framing.WireBytes` | src/communicator.cpp:78-88 | Byte by byte: the length of the identifier with its most significant byte first, the identifier, the length of the body likewise, the body |
| `Framing.ReceiveHeader` | src/communicator.cpp:90-113 | Identifier and length, or end of stream, or truncation, for every stream |
| `Framing.Receive` | src/communicator.cpp:38-50 | The outcome on every stream and what it leaves of it |
| `Framing.RoundTripExactly` | src/communicator.cpp:32-50 | A frame is received as it was sent if and only if its lengths fit into 32 bits and an empty identifier is received into an empty one |
| `Framing.SequenceRoundTrip` | src/communicator.cpp:32-50 | Any sequence of messages is received as it was sent, followed by the end of the stream |
| `Framing.TruncationExactly` | src/communicator.cpp:90-111 | A stream that ends inside a frame reads as closed in its first four bytes and is an error anywhere later |
| `Framing.ClosedExactly` | src/communicator.cpp:38-50 | On any stream, the end is reported exactly when fewer than four bytes are left |
| `Framing.TransferAll` | src/communicator.cpp:32-50 | The code end to end: whatever sequence of messages one side sends before it closes, the other receives, and then the end of the stream, however the stream is cut into pieces |
| `Servant.ModuleNameExactly` | src/utils.cpp:207-213 | A module is named by an identifier exactly if it reads `mammut.name.type`, perhaps with a dot behind it, or with two dots behind the name |
| `Servant.Split` | src/utils.cpp:353-367 | The loop over `getline` gives the parts between the dots |
| `Servant.Process` | src/mammut-server.cpp:113-124 | What stands between receiving and sending: the module that is found, and which exception is thrown otherwise |
| `Servant.TryRound` | src/mammut-server.cpp:106-125 | A round up to the catch clauses: what is sent, what is left of the stream and how it goes on, for every request, module and failure |
| `Servant.Run` | src/mammut-server.cpp:95-139 | What the loop writes on any connection, whatever fails, and how it ends |
| `Servant.UndisturbedExactly` | src/mammut-server.cpp:95-139 | One whole frame for each frame received, in order, one exception more exactly if the stream ends inside a request, and then the end of the connection: if and only if nothing fails that a request needs and none raises an error other than `runtime_error` |
| `Servant.RepliesInOrder` | src/mammut-server.cpp:113-125 | Up to the first disturbance the i-th frame is the result of the module for the i-th request, or the exception for an unknown module, a wrong identifier, a refusal or an error |
| `Servant.ModuleOutcomes` | src/mammut-server.cpp:113-137 | What becomes of each outcome of a module, with nothing failing: its result is sent as it is; a `runtime_error`, a refusal and a missing module are sent as exceptions with their texts, up to the first 0; after these the servant goes on, and only another error ends it, with nothing sent |
| `Servant.WrongIdOutcome` | src/mammut-server.cpp:113-133 | A request whose identifier names no module is answered with an exception, and the servant goes on |
| `Servant.ReadFailureOutcome` | src/mammut-server.cpp:106-133 | A failing read is answered with an exception, and the servant goes on from where that read stopped |
| `Servant.TruncationOutcome` | src/mammut-server.cpp:106-133 | A stream that ends inside a request is answered with an exception, and then the servant ends |
| `Servant.MammutInBytes` | src/utils.cpp:207-213 | In bytes, `mammut.x.y` names the module x |
| `Servant.EmptyIdExactly` | src/mammut-server.cpp:126-133 | In every run, whatever fails, an empty identifier is on exactly the frames that stand for an exception |
| `Servant.EndsExactly` | src/mammut-server.cpp:126-137 | When no read fails the servant goes on to the end of the stream if and only if no request raises an error other than `runtime_error` and no exception fails to be sent |
| `Servant.Exchange` | src/mammut-server.cpp:95-139 | End to end: any bytes of a client through the servant and back: one reply for each request, in order, one exception more for a truncated one, then the end of the stream |
| `Servant.CutExactly` | src/mammut-server.cpp:125-129 | For every cut of a reply, in its header, in its body or behind it: the exception that follows is received as it was sent, and nothing else, if and only if no byte of the reply got out |
| `Servant.CutFrameIsFilled` | src/mammut-server.cpp:125-129 | After a reply that was cut behind its header the client receives a message of that kind whose end is the beginning of what follows |
| `Servant.OneCutReply` | src/mammut-server.cpp:125-129 | The run of one request whose reply is cut anywhere: the frames sent, and that the client receives the exception alone exactly if the cut is at 0 |
| `Servant.NeverSent` | src/mammut-server.cpp:125-129 | A run in which the client receives a message that was never sent |
| `Servant.ReceivedExactly` | src/mammut-server.cpp:95-139 | Over every run, whatever fails: the client receives exactly the messages that got out as a whole, in order, if and only if behind no reply that got out in part there is a whole exception, or as much of one as completes a frame |
| `RemoteCall.EachCallGetsItsReply` | src/communicator.cpp:52-76 | In every interleaving of clients and servant, with replies read as bytes and reads that fail: a call before which all others got messages gets none or the servant's answer to its own request, the result of its module or its exception |
| `RemoteCall.InStepExactly` | src/communicator.cpp:56-62 | As long as calls get messages each reads from where its own reply begins; the next one after a call does so if and only if that call got a message, and so never after a failed read |
| `OutOfStep.WrongReply` | src/communicator.cpp:56-62 | A run in which a read fails and the next call gets the reply to the request before it |
| `OutOfStep.WaitsForever` | src/communicator.cpp:56-62 | A run in which a read fails inside a reply and the next call waits, with the lock, while nothing else can move |
| `RemoteCall.LoopSendsTheReplies` | src/mammut-server.cpp:95-139 | The servant of the interleavings is that of the code: on the frames of the requests that it has answered the loop writes the frames of the replies that were sent |
| `RemoteCall.NothingLeftOver` | src/communicator.cpp:52-62 | After calls that all got messages, when none is under way, the channels are empty |
| `RemoteCall.NeverStuck` | src/communicator.cpp:52-62 | As long as calls get messages, while a client holds the lock it or the servant can go on |
| `RemoteCall.EndIsFinal` | src/mammut-server.cpp:95-139 | Once the connection has ended the servant takes no request and sends nothing, whatever happens then |
| `OutOfStep.WithoutTheLock` | src/communicator.cpp:56-62 | With two requests under way a client receives the answer to the other's |
| `HidQueue.HidDevice.ReturnData` | src/external/odroid-smartpower-linux/hid.c:968-980 | The first report leaves the list, and what fits of it is copied and nothing else |
| `HidQueue.HidDevice.Arrive` | src/external/odroid-smartpower-linux/hid.c:649-684 | The report is appended; with 32 queued the oldest goes, and only then; when the condition is signalled |
| `HidQueue.HidDevice.ReadCallback` | src/external/odroid-smartpower-linux/hid.c:645-709 | The new queue for every status: only a completed transfer brings a report; when the condition is signalled; the shutdown flag as over the whole history |
| `HidQueue.HidDevice.Read` | src/external/odroid-smartpower-linux/hid.c:989-1061 | With any waits and whatever happens during them: the call returns at the first moment with a report or a shutdown, or when a timed wait does not end with a signal; which of the results it gives, and the copied bytes |
| `HidQueue.OldestFirst` | src/external/odroid-smartpower-linux/hid.c:658-683 | Over any sequence of callbacks and reads, what has left the queue and what is in it are, in this order, all that has arrived, and no more than 32 are queued |
| `HidQueue.ShutdownExactly` | src/external/odroid-smartpower-linux/hid.c:690-704 | After any sequence of callbacks and reads reading is shut down if and only if some transfer was cancelled, found no device or could not be submitted again |
| `HidQueue.ArrivalsExactly` | src/external/odroid-smartpower-linux/hid.c:649-654 | Exactly the transfers that were completed bring a report |
| `HidQueue.DroppedExactly` | src/external/odroid-smartpower-linux/hid.c:675-680 | The i-th report that leaves is dropped, and not delivered, exactly if it is still the first when the one 32 places behind it arrives |
| `HidQueue.TimedOutBesideReport` | src/external/odroid-smartpower-linux/hid.c:1044-1048 | The code end to end: a report arrives while a read waits, its time runs out, and it returns nothing |
| `HidQueue.SingleReader` | src/external/odroid-smartpower-linux/hid.c:1018-1025 | A single reader sleeps only while the queue is empty |
| `HidQueue.QueuedExactly` | src/external/odroid-smartpower-linux/hid.c:1010-1016 | In every run of readers as many reports are queued as the arrivals and reads of the run leave in the queue |
| `HidQueue.WakesExactly` | src/external/odroid-smartpower-linux/hid.c:658-666 | An arrival wakes a sleeper if and only if there is one and the queue was empty; a reader that looks leaves if and only if it was not |
| `HidQueue.ForgottenExactly` | src/external/odroid-smartpower-linux/hid.c:661-665 | A run that leaves a reader asleep beside a report with nobody woken exists if and only if there are at least two readers |

## Left out

- Callbacks that call `libusb_close` or `libusb_handle_events` themselves, so that the events lock is taken again by its holder while it dispatches.
- The return of `libusb_handle_events_timeout_completed` before the protocol when a timeout has already expired, and a dedicated handler that asks `libusb_event_handling_ok` at any other point than before it polls again.
- The build of libusb with timerfd, in which completion arms the timer and then disarms it; the lists are those of the build without it.
- HandleDisconnect: callbacks may submit transfers of a given pool and completed ones, any number of times; that the backend accepts one on the handle that is gone, with which the loop need not end, is not modelled.
- Transfers and contexts of several threads on the heap at once: the list operations run under `flying_transfers_lock` and are modelled one at a time.
- Freeing of memory and the behaviour after a failed `malloc`; positions inside the C structures that the descriptor parser fills.
- Bytes behind the buffer of the descriptor parser are those of a longer memory, and 0 where that ends.
- Signals of the throttler that fail for a process that is still there, which the code raises as an exception; the running state of a process after its removal, to which the code sends no SIGCONT.
- The rounding of percentages, joules and sleeping times.
- Reading sysfs, procfs and `cpuid`; hotplugging, idle levels, rollback points, frequencies and governors of the processors.
- The lock around the resets of the file-based meters, which the code does not take: a read that falls between the read and the assignment of 0 is an event of the model.
- Protobuf encoding and what the modules compute; a module is any function of the request and of the number of the request. Writes of clients that fail, and replies of 2^32 bytes and more in the theorems about calls.
- How long the waits of `hid_read_timeout` with a time limit are; they may end in any of the three ways.
- PAPI, raplcap, voltage and plug sensors, the Darwin and Windows backends, wrappers and demonstrations.
