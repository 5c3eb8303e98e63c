# libusb 1.0.9 and its keyboard/mouse SDK: a verified model

This project models the parts of libusb 1.0.9 that hold state and arithmetic, and the small
keyboard and mouse SDK (`msdk`) on top of it, and proves what they are meant to do. The kernel,
the device, the clock and the random numbers are the environment: their answers are parameters
or arbitrary values. The whole project is checked by `dafny verify dfyconfig.toml`.

| file | what it models |
|---|---|
| `BulkTransfer.dfy`, `BulkVerdict.dfy`, `BulkCode.dfy`, `Discarding.dfy` | one bulk or interrupt transfer of the Linux backend: cut into URBs, submitted, cancelled, reaped, its data moved together in place, and what its callback is told |
| `IsoTransfer.dfy`, `IsoCompletion.dfy` | one isochronous transfer: the two passes that pack packets into URBs, and the results that come back |
| `EventProtocol.dfy`, `EventLiveness.dfy`, `EventProgress.dfy` | the locks, the flag, the counter, the control pipe and the condition variable that event handlers, waiting threads, `libusb_open` and `libusb_close` share, for any number of threads: what is never violated, how every sleeper can be woken, and that the threads get done what they are there for |
| `Timeouts.dfy`, `FlyingList.dfy` | deadlines, and the intrusive circular list of transfers in flight that is sorted by them |
| `Primes.dfy`, `ExactPrimes.dfy`, `HashTable.dfy` | the session-id hash table of the Windows backend, and the number theory that it rests on |
| `Descriptor.dfy`, `DescriptorCode.dfy`, `DescriptorRoundTrip.dfy`, `DescriptorFailures.dfy` | the configuration descriptor parser: as functions, as the loops of the source, against the layout of USB 2.0 sections 9.6.3, 9.6.5 and 9.6.6, and when it gives up |
| `Keyboard.dfy` | the packed six-key report |
| `MouseMove.dfy`, `MouseCurve.dfy`, `MouseRuns.dfy` | relative moves with a tracked position, the curved absolute move, and runs that mix them |
| `HidComm.dfy` | the 60-byte block framing |
| `Bytes.dfy`, `Sets.dfy`, `Wrappers.dfy` | bytes, words, the sizes of sets, and `Option`, which several files share |

Code that works by changing things in place is modelled by classes and methods with loops
(`BulkCode`, `IsoCompletion`, `FlyingList`, `HashTable`, `DescriptorCode`, the SDK). Each method is
proved against a function or a relation on values, and the theorems are about those. The event
protocol is a step relation, one access to shared state per step.

## What the code does not keep, and exactly when it does

- Overflow reported before the last URB frees the URB array while the kernel still holds it:
  `BulkTransfer.FreedTooEarlyIff`, for instance `EarlyOverflowFrees` (the comment at
  linux_usbfs.c:2053 says that this cannot happen).
- After a stall or a removal, which leave the transfer in NORMAL mode, data behind a hole is counted
  but not moved. Whatever the hole holds, the data stays contiguous exactly when none arrives there:
  `BulkTransfer.AlwaysContiguousIff`, with a run of two URBs in `DataBehindHoleIsLost`.
- A packet of more than 32 KB is never placed in any URB: `IsoTransfer.AllPlacedIff`, for instance
  `TooLongIsNeverPlaced`.
- A transfer that is submitted without a timeout has no deadline exactly when no earlier submission
  got one (io.c:1131 returns before clearing it): `Timeouts.NoTimeoutMeansUnsetIff`, with a run of
  two submissions in `StaleDeadline`. The next pass flags it exactly when the deadline that is
  left over has come: `FlyingList.Context.ResubmitWithoutTimeout`.
- `isprime` computes the divider's square in 32 bits. Of all odd 32-bit numbers its answer is wrong
  for exactly three: it takes 1 for a prime, and neither 3 nor the prime 2^32 - 5 for one
  (`ExactPrimes.AnswerIsRightIff`, `TopIsPrime`).
- The keyboard report shows the keys last said to be down as long as no more than six are held,
  and only then: `Keyboard.TracksIffSix`, for instance `SeventhKeyCostsTheSixth`. A click with six
  other keys held costs the sixth one: `Keyboard.ClickRestoresIff`.
- `M_MoveTo` and `M_ResetMousePos` go to the origin by moving 3000 pixels. The recorded position
  is the real one exactly when that suffices and no edge is in the way: `MouseMove.StepSyncIff`,
  for instance `TooFarForHome`.
- The detour that is to keep `M_InternalMoveTo3` from sending (0, 0) never has an effect:
  `MouseCurve.NotBothZeroIff` says when (0, 0) is avoided, and `CornerIsZero` gives a screen where it
  is not.
- After a failed order, `M_MoveTo3` claims the position of that order. Its record is right exactly when
  the last order was refused and asked for where the pointer was anyway, or arrived and asked for a
  place on the display, which the curve may leave at the right and at the bottom:
  `MouseCurve.RecordRightIff`, with failing calls in `RefusedOrderIsClaimed` and `LostBelowTheEdge`.
  The record is shared with the relative moves: over runs that mix all commands a claimed position is
  right as long as every call fits (`MouseRuns.RunInSync`), and the first call that does not fit makes
  it wrong (`FirstMisfitIsWrong`); `RefusalMisleadsMoveTo` is such a run.
- A host can tell the pixels of a display apart by the words that the SDK sends for them exactly when
  neither side has more than 32767 pixels, and the quarter of a pixel's width that is added to both
  coordinates does not reach two rows at the lower edge: `MouseCurve.DisplayIff`.
- `htab_create` makes a table of a single slot where there is no prime to find from 5 up to 2^32 - 7,
  and for a size of 0 or 1: `Primes.SearchFindsPrimeIff`, for instance `OneIsTaken`.
- A command or an answer of more than 1920 bytes has a 33rd block, whose number spoils the control
  byte: `HidComm.AllSayWellIff` and `HidComm.RoundTripIff`, for instance `OneByteTooMany`.

## Assumptions

- URBs of one transfer come back in the order of submission, with at most as much data as was
  asked for. Theorems that need more than that about the kernel say so (`BulkTransfer.Trusted`).
- Writing to the control pipe succeeds; there is no timerfd.
- A submitted transfer is not in flight already; allocations succeed.
- The parser reads past `wTotalLength` where class-specific lengths lead it there. What it reads
  there is arbitrary.
- Integers of the source are unbounded, except where 8-bit, 16-bit and 32-bit arithmetic is part of
  what the code does: the reports, the words of a descriptor, the squares of `isprime`, the hash,
  the unsigned comparison of the isochronous counting pass, the products of an absolute position,
  the count of clicks. Signed 32-bit arithmetic that overflows is taken to wrap around.
- The host puts the pointer on a pixel of its display for any words, and on each pixel for the words
  that stand for it, where it can (`MouseCurve.Shows`); M_ResolutionUsed was told its size.
- A clock does not run backwards, and poll given so many milliseconds does not return earlier unless
  something happens.

## Model

| member | source | states |
|---|---|---|
| BulkTransfer.SplitIsPartition | libusb/os/linux_usbfs.c:1601-1636 | of the table that is handed to the kernel: every byte of the buffer lies in exactly one URB, none reaches beyond the buffer or over 16 KB, they follow each other in order, and no other number of URBs would do |
| BulkTransfer.OffsetIs | libusb/os/linux_usbfs.c:1628-1636 | consecutive pieces of such lengths start at multiples of 16 KB and stay inside the buffer |
| BulkTransfer.DeliverKeeps | libusb/os/linux_usbfs.c:1623-1646 | what the kernel writes for one outstanding URB disturbs neither reaped data nor other outstanding data |
| BulkTransfer.MoveKeeps | libusb/os/linux_usbfs.c:2007-2017 | moving surplus data down appends it to the earlier data and overwrites nothing that is still outstanding |
| BulkTransfer.StayKeeps | libusb/os/linux_usbfs.c:2029-2029 | in NORMAL mode without a hole the data is in place already |
| BulkTransfer.ReapAccounted | libusb/os/linux_usbfs.c:1985-2107 | every reap keeps the accounting: retired plus outstanding is all, the array lives while the kernel holds a URB, one report |
| BulkTransfer.CancelAccounted | libusb/os/linux_usbfs.c:1917-1943 | so does a cancellation at any time |
| BulkTransfer.StepInv | libusb/os/linux_usbfs.c:1974-2108 | every event the code relies on keeps accounting and data |
| BulkTransfer.SubmittedInv | libusb/os/linux_usbfs.c:1681-1695 | a submission that was refused half way starts out accounted for |
| BulkTransfer.RunInv | libusb/os/linux_usbfs.c:1974-2108 | over any run of deliveries, reaps, cancellations and timeouts both are kept |
| BulkTransfer.ReportedExactlyOnce | libusb/os/linux_usbfs.c:1985-2107 | an accepted transfer is reported once, exactly when the kernel has given everything back, which is when its array is freed |
| BulkTransfer.NothingLost | libusb/os/linux_usbfs.c:1985-2029 | the first `transferred` bytes are the concatenation of what each reaped URB delivered, within the buffer, and the report says how many |
| BulkVerdict.ToldTheVerdict | libusb/os/linux_usbfs.c:1985-2107 | over any run whose accepted URBs have all come back: the one report is the verdict read off the events up to the last of them - cancelled or timed out, removed, the first failure of an undisturbed transfer, refused, or completed - with the bytes that came, and SHORT_NOT_OK applied |
| BulkVerdict.CompletedOnlyIf | libusb/os/linux_usbfs.c:2034-2107 | completed is reported only if nobody cancelled the transfer, no URB failed before anything disturbed it, the kernel refused none for good, and, with SHORT_NOT_OK, it is whole |
| BulkVerdict.KnowsRun | libusb/os/linux_usbfs.c:2029-2092 | while URBs are out, action, status and the timed-out flag are what the events so far say |
| BulkVerdict.BusErrorIsTold | libusb/os/linux_usbfs.c:2059-2088 | 512 bytes, one URB, a low-level error: the callback is told of an error |
| BulkTransfer.FreedTooEarlyIff | libusb/os/linux_usbfs.c:2052-2057 | the array outlives the kernel's interest in it iff overflow comes with the last URB |
| BulkTransfer.EarlyOverflowFrees | libusb/os/linux_usbfs.c:2052-2057 | two URBs in flight, and overflow on the first: the array is freed with the second in the kernel |
| BulkTransfer.ContiguousIff | libusb/os/linux_usbfs.c:2029-2051 | a reap leaves the data contiguous iff no data lies behind a hole in NORMAL mode, or the hole happened to hold the same bytes |
| BulkTransfer.AlwaysContiguousIff | libusb/os/linux_usbfs.c:2007-2051 | a reap leaves the data contiguous, whatever the hole in front of it holds, iff no data arrives behind a hole in NORMAL mode |
| BulkTransfer.DataBehindHoleIsLost | libusb/os/linux_usbfs.c:2029-2051 | a stall after one byte, then one byte: the second byte reported is not the one received |
| BulkCode.UrbsNeeded | libusb/os/linux_usbfs.c:1601-1609 | the number of URBs is the one that covers the length; the flag says whether the last is partial |
| BulkCode.Transfer.Submit | libusb/os/linux_usbfs.c:1575-1700 | busy, unsupported and refused submissions change nothing or leave nothing; otherwise the state is that of `k` accepted requests, and the table, if the kernel took it all, partitions the buffer |
| BulkCode.Transfer.Allocate | libusb/os/linux_usbfs.c:1601-1621 | the fresh table and counters |
| BulkCode.Transfer.HandIn | libusb/os/linux_usbfs.c:1623-1699 | requests go to the kernel up to the first refusal, and what the refusal does |
| BulkCode.Transfer.FillUrb | libusb/os/linux_usbfs.c:1624-1636 | URB `i` starts at the i-th multiple of 16384 and has the length of that piece; the earlier ones stay |
| BulkCode.Transfer.Taken | libusb/os/linux_usbfs.c:1646-1647 | what the kernel holds is what stands in the table |
| BulkCode.Transfer.Refused | libusb/os/linux_usbfs.c:1647-1696 | a refused first URB frees the array; a later one marks the rest as retired and discards the earlier ones, unless it says "short" |
| BulkCode.Transfer.DiscardUrbs | libusb/os/linux_usbfs.c:1525-1559 | the URBs of the range that the kernel still holds are asked back; the code returned as in DiscardEach |
| Discarding.DiscardEach | libusb/os/linux_usbfs.c:1525-1559 | every request of the range is asked for; success, not found, no device: exactly when each is returned, of several failures |
| BulkCode.Transfer.HandleTransferCompletion | libusb/io.c:1468-1481 | the status and length the callback sees, with SHORT_NOT_OK |
| BulkCode.Transfer.Complete | libusb/os/linux_usbfs.c:2101-2107 | the array is freed and the right status reported |
| BulkCode.Transfer.CancelRest | libusb/os/linux_usbfs.c:2086-2095 | the rest is asked back, or reported if there is none |
| BulkCode.Transfer.MoveDown | libusb/os/linux_usbfs.c:2008-2015 | the memmove, in place |
| BulkCode.Transfer.ReapAbnormal | libusb/os/linux_usbfs.c:1985-2027 | a reap after NORMAL, on the real buffer |
| BulkCode.Transfer.ReapNormal | libusb/os/linux_usbfs.c:2029-2095 | a reap in NORMAL mode |
| BulkCode.Transfer.ReapFailed | libusb/os/linux_usbfs.c:2042-2070 | the failing statuses |
| BulkCode.Transfer.ReapWithoutError | libusb/os/linux_usbfs.c:2073-2084 | last, short and ordinary URBs |
| BulkCode.Transfer.HandleBulkCompletion | libusb/os/linux_usbfs.c:1974-2108 | the code's reap is the step of the model, buffer included |
| BulkCode.Transfer.CancelTransfer | libusb/os/linux_usbfs.c:1917-1943 | the code's cancellation is the step of the model; what it returns, from every answer of the kernel |
| BulkCode.Transfer.HandleTimeout | libusb/io.c:1759-1770 | setting the timed-out flag and cancelling is the Expire step |
| IsoTransfer.FitIsMaximal | libusb/os/linux_usbfs.c:1763-1775 | a URB takes as many packets as fit, and the next one would not |
| IsoTransfer.PassesAgree | libusb/os/linux_usbfs.c:1727-1775 | filling the counted number of URBs places every packet and leaves none of them empty |
| IsoTransfer.AllPlacedIff | libusb/os/linux_usbfs.c:1763-1775 | some number of URBs holds all packets iff no packet is over 32 KB |
| IsoTransfer.TooLongIsNeverPlaced | libusb/os/linux_usbfs.c:1763-1775 | a packet of 32769 bytes stays out of however many URBs |
| IsoTransfer.GreedyStaysAhead | libusb/os/linux_usbfs.c:1753-1775 | after k URBs the greedy split has placed at least as much as any other |
| IsoTransfer.SplitIsOptimal | libusb/os/linux_usbfs.c:1727-1738 | no order-preserving partition uses fewer URBs |
| IsoTransfer.CountUrbs | libusb/os/linux_usbfs.c:1727-1738 | the counting pass, with its unsigned comparison, computes that number when all packets fit |
| IsoTransfer.FillUrbs | libusb/os/linux_usbfs.c:1753-1801 | which packets, lengths and buffer start the filling pass gives each URB |
| IsoTransfer.EveryPacketOnce | libusb/os/linux_usbfs.c:1753-1801 | the URBs hold every packet once and in order |
| IsoTransfer.EachRequestIsRight | libusb/os/linux_usbfs.c:1753-1801 | none over 32 KB, none empty, each starts at its first packet's buffer |
| IsoTransfer.PacketBuffer | libusb/libusb.h:1253-1274 | the offset of a packet, none past the end |
| IsoTransfer.SimpleBufferAgrees | libusb/libusb.h:1295-1310 | the simple form agrees when all packets have the same length |
| IsoCompletion.SubmittedAccounted | libusb/os/linux_usbfs.c:1803-1845 | also a half-refused isochronous submission starts out accounted for |
| IsoCompletion.ReapedAccounted | libusb/os/linux_usbfs.c:2171-2222 | every reap keeps the accounting |
| IsoCompletion.CancelledAccounted | libusb/os/linux_usbfs.c:1917-1943 | so does a cancellation |
| IsoCompletion.ReportedExactlyOnce | libusb/os/linux_usbfs.c:2171-2222 | over any run: one report, exactly when the kernel holds nothing, which is when the table is freed |
| IsoCompletion.ToldTheVerdict | libusb/os/linux_usbfs.c:2181-2222 | over any run whose accepted URBs have all come back: timed out or cancelled if anybody did that before the last, an error if a URB was refused, otherwise what the last one says |
| IsoCompletion.ResultsStep | libusb/os/linux_usbfs.c:2135-2169 | the results of one more URB continue those of the earlier ones |
| IsoCompletion.ResultOfPacket | libusb/os/linux_usbfs.c:2135-2179 | the result of packet j of URB k is found at that packet's own place in the transfer: its own length, and what each of its statuses means |
| IsoCompletion.Transfer.Submit | libusb/os/linux_usbfs.c:1702-1850 | busy, refused and accepted submissions |
| IsoCompletion.Transfer.Allocate | libusb/os/linux_usbfs.c:1727-1801 | the table is the one of the two passes |
| IsoCompletion.Transfer.HandIn | libusb/os/linux_usbfs.c:1803-1849 | URBs go to the kernel up to the first refusal |
| IsoCompletion.Transfer.CopyResults | libusb/os/linux_usbfs.c:2137-2169 | the packets' results, written in place behind the earlier ones |
| IsoCompletion.Transfer.Retire | libusb/os/linux_usbfs.c:2171-2222 | the bookkeeping of one URB |
| IsoCompletion.Transfer.HandleIsoCompletion | libusb/os/linux_usbfs.c:2110-2229 | the whole completion keeps accounting, results and table, and each packet has its own length and status at its place; a URB of somebody else is refused |
| IsoCompletion.Transfer.CancelTransfer | libusb/os/linux_usbfs.c:1917-1943 | what a cancellation does and returns, also when nothing is in flight |
| EventProtocol.NextEffect | libusb/io.c:1532-1600 | what any step of any program does to the locks, the flag, the counters and pending broadcasts |
| EventProtocol.HandlerEffect | libusb/io.c:1851-1957 | the same for the thread that handles events |
| EventProtocol.LockEffect | libusb/io.c:1573-1600 | the same for taking and giving back the events lock |
| EventProtocol.ModifierEffect | libusb/core.c:882-920 | the same for the thread that changes the poll set |
| EventProtocol.WaiterEffect | libusb/io.c:2030-2056 | the same for a thread that waits for another one to handle events |
| EventProtocol.CallbackEffect | libusb/io.c:1482-1491 | the same for the broadcast after a callback |
| EventProtocol.StepLocks | libusb/io.c:1532-1600 | every step keeps both locks owned by the threads whose places say so |
| EventProtocol.StepCounts | libusb/core.c:890-919 | every step keeps counter and pipe exact |
| EventProtocol.StepSleepers | libusb/io.c:1651-1667 | every step leaves every sleeper somebody who will broadcast |
| EventProtocol.StepCompleted | libusb/io.c:2034-2046 | every step leaves every sleeper whose transfer is complete a callback whose broadcast is to come |
| EventProtocol.RunInv | libusb/io.c:2006-2057 | all of it over any interleaving of any number of threads |
| EventProtocol.NoLostWakeup | libusb/io.c:2019-2049 | in every reachable state, whoever sleeps has a broadcast to come, and one from a callback if its transfer is complete |
| EventProtocol.ReachableShape | libusb/core.c:1041-1162 | pollfd_modify and the pipe count the threads in their regions, one owner per lock, and the active flag means that its owner handles events |
| EventProtocol.ModifierIsNotStuckBehindPoll | libusb/core.c:895-911 | a modifier's read never blocks, and an event handler in its way can leave poll |
| EventProtocol.OwnerGoesOn | libusb/io.c:1573-1600 | the owner of the events lock can go on, unless it polls an empty pipe |
| EventLiveness.DriveToCast | libusb/io.c:1573-1600 | a thread that owes a broadcast reaches it by its own steps, when nobody else holds a lock; in poll with an empty pipe, one completed transfer helps |
| EventLiveness.WakeWithFreeLock | libusb/io.c:1651-1667 | with the waiters lock free, the owner of the events lock, or else any thread that owes a broadcast, wakes the sleeper within 10 steps |
| EventLiveness.WakeWithHeldLock | libusb/io.c:2034-2055 | the holder of the waiters lock broadcasts itself or first gives the lock back |
| EventLiveness.SleeperCanBeWoken | libusb/io.c:2019-2057 | from every reachable state, a run of at most 14 steps wakes any given sleeper: own steps of threads, and at most one completed transfer, in a handler blocked in poll with an empty pipe |
| EventProgress.HandlesEvents | libusb/io.c:1532-1568 | with nobody changing the poll set and the events lock free, a thread that waits for its transfer is in poll, with lock and flag, after four steps of its own |
| EventProgress.CompletionIsSeen | libusb/io.c:1480-1491 | the handler that reaps a thread's transfer sets that thread's flag and owes the broadcast |
| EventProgress.StaysCompletedInRun | libusb/io.c:2006-2057 | the flag stays set over any run in which the thread starts no new transfer |
| EventProgress.RunPollsForSomething | libusb/io.c:2020-2027 | over any run nobody polls for a transfer that is complete already |
| EventProgress.LeavesTheLoop | libusb/io.c:2006-2057 | from every reachable state some run brings a thread whose transfer is complete out of its waiting loop, which then does not begin again |
| EventProgress.ModifierGetsDone | libusb/core.c:882-920 | with nobody else at the locks, opening a device is done within 11 steps of its own, and closing one within 18 |
| Timeouts.DeadlineIsClockPlusTimeout | libusb/io.c:1124-1151 | the deadline is clock plus timeout, in microseconds of at most a million, a million only on the dot |
| Timeouts.StoredDeadline | libusb/io.c:1124-1151 | after any submissions of one transfer the deadline is normalised, and set iff one of them had a timeout and a clock |
| Timeouts.NoTimeoutMeansUnsetIff | libusb/io.c:1131-1132 | after a submission without a timeout the deadline is unset iff no earlier submission of the transfer got one |
| Timeouts.LeftOver | libusb/io.c:1131-1150 | the deadline that is left over is the clock plus the timeout of the last submission that got one |
| Timeouts.StaleDeadline | libusb/io.c:1131-1132 | a transfer used again a hundred seconds later, without a timeout, has a deadline in the past |
| Timeouts.AfterIsLater | libusb/io.c:1802-1806 | the code's comparison is the order of time on such deadlines |
| Timeouts.TimeLeftIsDifference | libusb/io.c:2273-2281 | the time left is the difference, unset iff the deadline is not in the future |
| Timeouts.PollOutlastsDeadline | libusb/io.c:1881-1888 | when poll runs out of the time left, rounded up, the deadline has passed, by less than a millisecond too late |
| Timeouts.PollGetsTheLess | libusb/io.c:1959-1978 | poll is given the time to the deadline, or the time that the user allows if that is less, rounded up to milliseconds |
| FlyingList.ListAddTail | libusb/libusbi.h:98-106 | inserting in front of any node keeps the ring and adds one item there |
| FlyingList.ListAdd | libusb/libusbi.h:89-96 | the same right behind the head |
| FlyingList.ListDel | libusb/libusbi.h:108-112 | deleting any item keeps the ring without it |
| FlyingList.InsertSorted | libusb/io.c:1180-1196 | inserting at the place found keeps the order |
| FlyingList.BelongsUnique | libusb/io.c:1180-1196 | there is only one such place |
| FlyingList.LaterNotDue | libusb/io.c:1802-1806 | behind a deadline that is not due, none is |
| FlyingList.Transfer.CalculateTimeout | libusb/io.c:1124-1151 | the deadline is that of the submissions so far; a clock that cannot be read, and a timeout of 0, leave it |
| FlyingList.Context.constructor | libusb/libusbi.h:84-87 | an empty ring |
| FlyingList.Context.AddToFlyingList | libusb/io.c:1156-1200 | the transfer enters behind all that are not later; the result says whether it has a deadline and is first |
| FlyingList.Context.Prepare | libusb/io.c:1296-1303 | flags and deadline at submission, and a clock that cannot be read; the list is not touched |
| FlyingList.Context.Enter | libusb/io.c:1305-1311 | a failed submission leaves the list as it was |
| FlyingList.Context.Submit | libusb/io.c:1288-1330 | the whole submission, success or not |
| FlyingList.Context.HandleTimeouts | libusb/io.c:1772-1812 | one pass flags and cancels exactly the unflagged transfers whose deadline, in microseconds, has come and that are not handled by the OS; an empty list needs no clock, and an unreadable one fails the pass |
| FlyingList.Context.Pass | libusb/io.c:1791-1811 | stopping at the first deadline that is not due misses nothing |
| FlyingList.Context.PassOver | libusb/io.c:1791-1810 | the loop, and the place where it stops |
| FlyingList.Context.Visit | libusb/io.c:1792-1809 | one round of it |
| FlyingList.PassTreats | libusb/io.c:1792-1809 | what one round means for a transfer, by the clock in microseconds |
| FlyingList.Context.HandleTimeout | libusb/io.c:1759-1770 | a timeout flags the transfer and cancels it |
| FlyingList.Context.GetNextTimeout | libusb/io.c:2226-2285 | nothing to wait for iff no deadline is to be handled here; otherwise the time left of one that is least in microseconds, or the error of the clock |
| FlyingList.Context.FirstPending | libusb/io.c:2247-2257 | the loop stops at the first transfer that is not flagged, not handled by the OS, and has a deadline |
| FlyingList.Context.ChooseWait | libusb/io.c:1959-1978 | the milliseconds for poll, from the list, the clock and the user |
| FlyingList.Context.PollRunsOut | libusb/io.c:2142-2157 | get_next_timeout, poll that runs out, and the pass after it, together: exactly the transfers that are due are flagged, and that of the earliest deadline is one of them if the time chosen was its own; what either reading of the clock does when it fails |
| FlyingList.Context.ResubmitWithoutTimeout | libusb/io.c:1288-1311 | a transfer submitted again without a timeout is flagged by the next pass iff a deadline is left over and has come |
| FlyingList.Context.Remove | libusb/io.c:1454-1458 | a completed transfer leaves the list, the others stay |
| Primes.IsPrimeOdd | libusb/os/windows_usb.c:362-371 | what isprime answers for every odd 32-bit number |
| Primes.AcceptsIsPrime | libusb/os/windows_usb.c:362-371 | from 5 up to 2^32 - 7, that is primality |
| Primes.NothingAcceptedAtTheTop | libusb/os/windows_usb.c:367-368 | above 2^32 - 7 it accepts nothing |
| ExactPrimes.AnswerIsRightIff | libusb/os/windows_usb.c:362-371 | for every odd 32-bit number the answer is right iff the number is not 1, 3 or 2^32 - 5 |
| ExactPrimes.TopIsPrime | libusb/os/windows_usb.c:367-370 | 2^32 - 5, which the trial division refuses, is a prime |
| Primes.NoDivisorUpTo | libusb/os/windows_usb.c:367-370 | stopping at the root is late enough |
| Primes.HtabSize | libusb/os/windows_usb.c:386-391 | the search ends at the first accepted number, or at 1 after wrapping around |
| Primes.SearchFindsPrimeIff | libusb/os/windows_usb.c:386-391 | the search ends at a prime iff there is one to find, from 5 up to 2^32 - 7, and the size asked for is at least 2; then it is the smallest one, otherwise the size is 1 |
| Primes.OneIsTaken | libusb/os/windows_usb.c:386-388 | asked for one slot, the search ends at 1, which is no prime |
| Primes.HtabSizeIsPrime | libusb/os/windows_usb.h:90 | 1021 is a prime |
| Primes.EuclidLemma | libusb/os/windows_usb.c:358-361 | why the size has to be a prime: it divides a product only if it divides a factor |
| HashTable.ProbeDistinct | libusb/os/windows_usb.c:463-469 | within one round the probe never looks at a slot twice |
| HashTable.ProbeReturns | libusb/os/windows_usb.c:471-474 | it is back at its start after size steps, and not before |
| HashTable.ProbeVisitsAll | libusb/os/windows_usb.c:464-464 | one round visits every slot |
| HashTable.FullAfterRound | libusb/os/windows_usb.c:471-474 | a full round over used slots means that the table is full |
| HashTable.NotStored | libusb/os/windows_usb.c:476-482 | a path that ends at an unused slot or after a round proves that the string is not stored |
| HashTable.SearchStep | libusb/os/windows_usb.c:463-482 | what each round of the search may conclude |
| HashTable.Table.SearchRound | libusb/os/windows_usb.c:471-482 | the same of the table in memory, for each of the ways out of the loop |
| HashTable.StoreKeeps | libusb/os/windows_usb.c:485-511 | storing a string keeps every other string's path |
| HashTable.StoredIsUsed | libusb/os/windows_usb.c:498-508 | the number of stored strings is the number of used slots |
| HashTable.Table.FilledIsUsed | libusb/os/windows_usb.c:487-508 | htab_filled is the number of used slots and never above the size |
| HashTable.Table.constructor | libusb/os/windows_usb.c:391-396 | an empty table |
| HashTable.HtabCreate | libusb/os/windows_usb.c:386-401 | for any size: a table results iff there is a prime to find, and has the smallest one, from 5 on, that is not below the size asked for; otherwise the size is 1 |
| HashTable.CreateSessionTable | libusb/os/windows_usb.c:783-783 | asked for 1021 slots, it gets 1021 |
| HashTable.Table.MainHash | libusb/os/windows_usb.c:438-442 | the 32-bit hash of a string of signed characters, never 0 |
| HashTable.DjbIsPolynomial | libusb/os/windows_usb.c:434-440 | step by step in 32 bits the hash is 5381 and the characters weighted by powers of 33, modulo 2^32 |
| HashTable.Table.Search | libusb/os/windows_usb.c:444-483 | the search terminates; it finds a stored string, and gives up only when the table is full |
| HashTable.Table.SearchOn | libusb/os/windows_usb.c:460-482 | the same for its loop |
| HashTable.Table.HtabHash | libusb/os/windows_usb.c:430-512 | a known string gets its slot, a new one a slot of its own, and 0 when the table is full |
| HashTable.HistoryGrows | libusb/os/windows_usb.c:430-512 | over any run, stored strings stay where they are, in distinct slots |
| HashTable.SameStringSameId | libusb/os/windows_usb.c:430-512 | over any run, equal strings get equal answers and different ones different slots |
| HashTable.Answer | libusb/os/windows_usb.c:485-511 | every answer can be read off what is stored later on |
| Descriptor.FormatsAreTheCodes | libusb/descriptor.c:104-343 | the formats are the strings that the code uses |
| Descriptor.SkipExtras | libusb/descriptor.c:108-134 | the skipping loop moves forward, counts what it skips, and overruns the end by at most 253 bytes |
| Descriptor.SkipChecked | libusb/descriptor.c:364-391 | the checked one does not overrun |
| Descriptor.ParseEndpoint | libusb/descriptor.c:78-156 | position plus remainder is kept, for arbitrary bytes |
| Descriptor.ParseRounds | libusb/descriptor.c:183-317 | the same for an interface, which terminates |
| Descriptor.ParseInterfaces | libusb/descriptor.c:362-419 | the same for the loop over interfaces |
| DescriptorCode.ParseFields | libusb/descriptor.c:42-70 | the pass over the format string reads the fields of the format |
| DescriptorCode.Skip | libusb/descriptor.c:108-134 | the code's skipping loop is the function |
| DescriptorCode.SkipInConfig | libusb/descriptor.c:364-391 | so is the checked one |
| DescriptorCode.ParseOneEndpoint | libusb/descriptor.c:78-156 | what parse_endpoint returns is how far it came, on every path, and the endpoint is that of the function |
| DescriptorCode.ParseNextEndpoint | libusb/descriptor.c:289-309 | one round of the loop over endpoints, with its own check of the length |
| DescriptorCode.ParseEndpointList | libusb/descriptor.c:285-310 | the loop adds what parse_endpoint returns to buffer and parsed and takes it off size: it computes ParseMany, and parsed stays the distance moved |
| DescriptorCode.ParseOneSetting | libusb/descriptor.c:196-316 | one alternate setting; buffer, size and parsed, kept side by side, agree at every way out |
| DescriptorCode.ParseSettingOver | libusb/descriptor.c:196-316 | the same over any correct endpoint parser |
| DescriptorCode.ParseOneInterface | libusb/descriptor.c:183-317 | what parse_interface returns is how far it came, and the settings are those of the function |
| DescriptorCode.ParseNextInterface | libusb/descriptor.c:364-419 | one round of the configuration loop, which moves on by what parse_interface returns |
| DescriptorCode.ParseInterfaceList | libusb/descriptor.c:362-419 | that loop computes ParseInterfaces |
| DescriptorCode.ParseConfig | libusb/descriptor.c:332-424 | the whole parser terminates on arbitrary bytes and computes the function; where it ended, found by adding up what the inner parsers returned, plus what it returns is wTotalLength |
| DescriptorRoundTrip.FieldsRoundTrip | libusb/descriptor.c:42-70 | fields laid out in a format are read back |
| DescriptorRoundTrip.SkipRoundTrip | libusb/descriptor.c:108-134 | a run of class-specific descriptors is skipped, all of it and nothing else |
| DescriptorRoundTrip.EndpointRoundTrip | libusb/descriptor.c:78-156 | an endpoint is read back |
| DescriptorRoundTrip.ManyRoundTrip | libusb/descriptor.c:285-310 | a list is read back when its items are |
| DescriptorRoundTrip.SettingRoundTrip | libusb/descriptor.c:196-316 | an alternate setting is read back, and whether another one follows |
| DescriptorRoundTrip.RoundsRoundTrip | libusb/descriptor.c:183-317 | an interface is read back with exactly its own settings |
| DescriptorRoundTrip.InterfacesRoundTrip | libusb/descriptor.c:362-419 | all interfaces are read back |
| DescriptorRoundTrip.FirstRound | libusb/descriptor.c:393-411 | the first round keeps the configuration's own class-specific descriptors |
| DescriptorRoundTrip.ConfigRoundTrip | libusb/descriptor.c:332-424 | parsing the layout of any well-formed configuration returns that configuration with zero bytes left |
| DescriptorFailures.SkipFailsIff | libusb/descriptor.c:108-134 | the skipping loop fails iff some descriptor that it comes to says that it has fewer than two bytes |
| DescriptorFailures.CheckedFailsIff | libusb/descriptor.c:364-391 | the checked one also iff one says more than is left |
| DescriptorFailures.EndpointFailsIff | libusb/descriptor.c:86-134 | an endpoint is refused iff it is longer than what is left or has a short descriptor behind it; another descriptor in its place is left where it is |
| DescriptorFailures.SettingFailsIff | libusb/descriptor.c:196-310 | an alternate setting is refused iff a descriptor in it is too short, or it has more than 32 endpoints, or one of them is refused |
| DescriptorFailures.ConfigFailsIff | libusb/descriptor.c:332-424 | a configuration is refused iff it has more than 32 interfaces or the round for one of them fails |
| DescriptorFailures.RoundFailsIff | libusb/descriptor.c:364-419 | such a round fails iff a descriptor in front of the interface has a wrong length or parse_interface fails behind those |
| Keyboard.SetBitSetsOne | msdk/msdk.c:83-84 | setting a modifier's bit sets that bit only |
| Keyboard.ClearBitClearsOne | msdk/msdk.c:150-151 | clearing it clears that bit only |
| Keyboard.ReportIsUnambiguous | msdk/msdk.c:118-123 | a report of known length can be read in one way only |
| Keyboard.ReportIsRight | msdk/msdk.c:118-123 | the bytes sent, as many as the length nibble says, are the report for the keys that are down |
| Keyboard.DownEffect | msdk/msdk.c:82-117 | pressing a key makes it the one that is down; only a seventh key costs another, the sixth |
| Keyboard.UpEffect | msdk/msdk.c:148-199 | releasing a key releases that key and no other |
| Keyboard.ClickRestoresIff | msdk/msdk.c:41-61 | a click undoes itself iff the key was up and, unless it is a modifier, there was room |
| Keyboard.ClicksAreARun | msdk/msdk.c:46-59 | n clicks are the run of n times down and up |
| Keyboard.ModifiersAlwaysTrack | msdk/msdk.c:82-93 | over any run a modifier is down iff the last command about it pressed it |
| Keyboard.SixKeysFit | msdk/msdk.c:102-117 | a command after which at most six keys are held keeps the report right |
| Keyboard.TracksIffSix | msdk/msdk.c:64-211 | throughout a run the report shows the keys last said to be down iff never more than six are held |
| Keyboard.SeventhKeyCostsTheSixth | msdk/msdk.c:102-117 | seven keys pressed and held: the sixth is not shown |
| Keyboard.Keyboard.constructor | msdk/msdk.c:22-24 | a cleared report, no key down |
| Keyboard.Keyboard.KeyDown | msdk/msdk.c:64-129 | the array then represents the keys with this one down; the report says so; unknown keys are refused |
| Keyboard.Keyboard.Insert | msdk/msdk.c:102-116 | the search appends the key, finds it, or puts it in the sixth place |
| Keyboard.Keyboard.KeyUp | msdk/msdk.c:131-211 | the array then represents the keys without this one |
| Keyboard.Keyboard.Remove | msdk/msdk.c:166-198 | the search takes the key out |
| Keyboard.Keyboard.CloseGap | msdk/msdk.c:169-183 | the keys behind it move up in order, and the length follows |
| Keyboard.Keyboard.Settle | msdk/msdk.c:184-190 | with the last key gone the report is that of the modifiers, or cleared |
| Keyboard.Keyboard.KeyState | msdk/msdk.c:213-240 | 1 iff the key is down, 0 iff it is up, -1 for an unknown key |
| Keyboard.Keyboard.KeyPress | msdk/msdk.c:41-61 | n clicks, or the state in which a report was refused; a negative n counts through all 32-bit integers |
| Keyboard.Keyboard.ReleaseAllKey | msdk/msdk.c:289-306 | no key is down, and the report says so |
| MouseMove.RandDomNbr | msdk/msdk.c:1137-1147 | a number in the range asked for |
| MouseMove.AxisStep | msdk/msdk.c:700-721 | a step never passes the goal, never goes back, is the rest or at least 100, and fits the byte |
| MouseMove.StopInSteps | msdk/msdk.c:697-757 | steps in one direction end at the screen's edge where one long move does |
| MouseMove.TakenArrives | msdk/msdk.c:697-757 | reports that were all taken and never turn back bring the pointer where one long move would |
| MouseMove.Mouse.OneStep | msdk/msdk.c:697-757 | one report: both steps fit, it carries the buttons, and the pointer moves by it unless it is refused |
| MouseMove.Mouse.InternalMoveR | msdk/msdk.c:676-765 | it answers 0 iff every report was taken, and otherwise gave up at the first one that was not; the reports of a success add up to (x, y), none turns back or exceeds 126; record and pointer move by it; a failure forgets the position |
| MouseMove.Mouse.StepLoop | msdk/msdk.c:696-762 | the same of its loop, against the device's answers |
| MouseMove.ReachesIff | msdk/msdk.c:791-797 | 3000 to the left and x to the right ends at x iff 3000 suffices or x is the edge |
| MouseMove.StepSyncIff | msdk/msdk.c:769-830 | after a call that claims to know the position, record and pointer agree iff the call fitted |
| MouseMove.TooFarForHome | msdk/msdk.c:784-797 | from 3500 pixels to the right, a move to the origin ends 500 pixels short and claims the origin |
| MouseMove.Mouse.MoveR | msdk/msdk.c:769-781 | the relative move as a step of the model; 0 iff every report was taken |
| MouseMove.Mouse.MoveTo | msdk/msdk.c:784-818 | the absolute move by way of the origin or of the record; negative goals are refused without a report; otherwise 0 iff every report was taken |
| MouseMove.Mouse.ResetMousePos | msdk/msdk.c:821-830 | the way to the origin, which answers 0 whatever happens; the position is known afterwards iff every report was taken |
| MouseCurve.WordRange | msdk/msdk.c:898-913 | both words of an absolute report are at most 0x7FFF |
| MouseCurve.WordsAreScaled | msdk/msdk.c:894-911 | the first word is the column and the second the row, in proportion to 32767, rounded down, and a quarter of a pixel's width more, but not above 32767 |
| MouseCurve.NotBothZeroIff | msdk/msdk.c:894-907 | when a report is not (0, 0), which the detour was to ensure, with 32-bit products |
| MouseCurve.CornerIsZero | msdk/msdk.c:894-907 | on a screen of 8192 pixels a move to the corner is sent as (0, 0) |
| MouseCurve.PixelsStayApart | msdk/msdk.c:898-911 | different pixels get different words, in order, where the screen is not finer than the device |
| MouseCurve.DisplayIff | msdk/msdk.c:894-911 | some host tells all pixels apart by the words sent for them iff the resolution is fine enough for it (Resolves) |
| MouseCurve.Coordinate | msdk/msdk.c:898-902 | an unsigned long that is capped as the scaled coordinate is, even where the 32-bit product has wrapped |
| MouseCurve.AbsoluteReport | msdk/msdk.c:894-914 | the report's bytes are the two words of the position, least significant byte first |
| MouseCurve.StepSize | msdk/msdk.c:992-999 | 100 pixels or less are gone in one step, otherwise at least 50 and not all |
| MouseCurve.CurveStep | msdk/msdk.c:1005-1042 | whatever the curve yields, the step fits a signed byte, goes the right way by at least 50, and does not leave the screen at the left or at the top |
| MouseCurve.Round | msdk/msdk.c:992-1047 | what is left after a round is the distance, and it has shrunk by 50 or is gone |
| MouseCurve.AbsMouse.ResolutionUsed | msdk/msdk.c:873-885 | which resolutions are taken |
| MouseCurve.AbsMouse.InternalMoveTo3 | msdk/msdk.c:888-927 | one sound order; unless it was refused, the pointer goes where its words put it, and the record follows only if it was taken |
| MouseCurve.AbsMouse.CurveLoop | msdk/msdk.c:991-1057 | the loop ends at the goal, nearer with every order, with an order for at most every fiftieth pixel and one more |
| MouseCurve.AbsMouse.Curve | msdk/msdk.c:984-1128 | the same with the order for what is left along the minor axis |
| MouseCurve.AbsMouse.MoveTo3 | msdk/msdk.c:930-1134 | which goals are refused and how; otherwise all orders are sound and come nearer, the pointer goes where their words put it, and the record is that of the last one |
| MouseCurve.RecordRightIff | msdk/msdk.c:1005-1048 | after a move a claimed record is right iff the last order was refused where the pointer was anyway, or arrived and asked for a place on the display |
| MouseCurve.SuccessIsRight | msdk/msdk.c:930-1134 | a move that answers 0 has brought pointer and record to the goal |
| MouseCurve.RefusedOrderIsClaimed | msdk/msdk.c:1042-1048 | from (0, 0) to (10, 0), refused: the record says (10, 0) and the pointer has not moved |
| MouseCurve.LostBelowTheEdge | msdk/msdk.c:1005-1048 | a curve point below the lower edge, with its answer lost: no order was refused, and the record is wrong |
| MouseRuns.CallSyncIff | msdk/msdk.c:769-1134 | after any call, of a relative or an absolute move, that claims to know the position, record and pointer agree iff the call fitted |
| MouseRuns.PointerStaysOn | msdk/msdk.c:676-1134 | no call takes the pointer off the display |
| MouseRuns.RunInSync | msdk/msdk.c:676-1134 | over any run that mixes relative and absolute moves, failed ones included, a claimed position is right as long as every call fits |
| MouseRuns.FirstMisfitIsWrong | msdk/msdk.c:769-1134 | the first call of such a run that does not fit and claims a position claims a wrong one |
| MouseRuns.RefusalMisleadsMoveTo | msdk/msdk.c:784-810 | after a refused M_MoveTo3, an M_MoveTo to (20, 0) succeeds and ends at (10, 0) |
| MouseRuns.GetCurrMousePos | msdk/msdk.c:832-844 | the record, if there is one; after a run in which every call fitted, that is the real position |
| HidComm.PcbSaysWellIff | msdk/hidcomm.c:92-99 | a control byte tells parity, "more" and number, and is not the busy code, iff the number is below 32 |
| HidComm.AllSayWellIff | msdk/hidcomm.c:80-107 | all control bytes of a command do iff it has at most 1920 bytes |
| HidComm.LastFollowsNot | msdk/hidcomm.c:84-91 | there are max(1, ceil(n / 60)) blocks, and exactly the last does not announce another one |
| HidComm.BlockReceived | msdk/hidcomm.c:117-126 | a received block adds its data to what came before |
| HidComm.RoundTripIff | msdk/hidcomm.c:75-127 | the frames of a payload with any busy reports in between are put together to that payload iff it has at most 1920 bytes |
| HidComm.AnswerIff | msdk/hidcomm.c:112-127 | of whole reports there is an answer iff one of them ends it and no read before that fails |
| HidComm.OneByteTooMany | msdk/hidcomm.c:75-127 | 1921 zeros are framed and not put together again |
| HidComm.FillReport | msdk/hidcomm.c:81-102 | the bytes of a report |
| HidComm.Header | msdk/hidcomm.c:84-99 | length, control byte and the two counters |
| HidComm.NextBlock | msdk/hidcomm.c:81-102 | the output buffer for block i holds frame i |
| HidComm.SendBlocks | msdk/hidcomm.c:75-107 | the frames are sent in order, up to the first that is not accepted |
| HidComm.ReceiveBlocks | msdk/hidcomm.c:109-127 | what the receive loop makes of any replies, with whatever the buffer held before |
| HidComm.CtrlComm | msdk/hidcomm.c:55-135 | the status of every outcome: -1 if a frame is not accepted, a read fails or the answer is shorter than two bytes, otherwise the last two bytes, higher byte first, with the rest as the response; frames of 2 to 1920 bytes come back so |

## Left out

- HashTable.Table.HtabHash: does not model threads that store at the same time, nor a string that cannot be copied for want of memory.
- HashTable.HtabCreate: does not model what htab_hash does with a table of a single slot.
- HidComm.ReceiveBlocks: the caller's response buffer has no bound in the model, as the code checks none.
- IsoTransfer.CountUrbs: says how many URBs are counted only where every packet fits one; with a longer packet no number would do (`IsoTransfer.AllPlacedIff`).
- MouseCurve.CurveStep: the curve's shape (clockwise, bend, the floating-point formula) is an arbitrary position along the minor axis.
- EventProtocol.Next: a callback that handles events itself, event sources that are added from a callback, and errors of poll are not modelled.
- EventLiveness.SleeperCanBeWoken: gives a run that wakes the sleeper, not that a scheduler takes it; a mutex of the system need not be fair.
- DescriptorRoundTrip.ConfigRoundTrip: words are little endian as on the bus and on the host; fields that a short endpoint descriptor does not reach are absent instead of zero.
- URBs reaped out of order; the code decides by index and does not keep the accounting then.
- The control pipe's write failing: the code then goes on without a broadcast or without the lock.
- The timerfd: it is disarmed after being armed when a transfer completes, so there is no invariant to state.
- Control transfers, URB flags, and the data of OUT transfers, which the code only hands on.
- The transfers that closing a device takes off the list, and the rest of libusb_open.
- Locks inside the bulk, isochronous, list and table models, which run one call at a time.
- Handles that are NULL, the mouse buttons, the wheel, the LEDs, delays, and the table of Windows key codes.
- One SDK handle is three objects here: its keyboard, relative and absolute mouse. Runs that mix the mice are runs of the relations that their methods are proved against (`MouseRuns.Does`).
- ioctl, sysfs, WinUSB, SetupAPI and IOKit calls, the other backends, and polling on Windows.
- Logging, error names, version and capability queries, and the getters of core.c.
