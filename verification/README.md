# Verification model of the DAO shared-memory core

DAO passes frames between real-time processes through memory-mapped FIFO rings. One writer fills
slot `(fifo_last_written + 1) % N` and commits it with three stores; any number of readers follow
with private tails and no locks. This project models that ring, and the code around it that waits,
packetises, sums, polls and signals, and proves what readers may rely on.

Run `dafny verify dfyconfig.toml` to check everything.

## How it is laid out

- `Ring.dfy`: the ring as a value, what each C entry point computes on it, and how it relates to the
  history of committed frames. Slot arithmetic is recursive there, and proved equal to the `%` and
  `*` forms of the code.
- `RingProtocol.dfy`: the writer store by store, with the invariant of every reachable state and the
  reader calls as single steps at any point between two stores.
- `ReaderRuns.dfy`: whole runs in which every shared load of a reader's call is a step of its own.
- `SharedImage.dfy`: the C code itself as classes over arrays (`Shm` is the mapped file, `Image` a
  process's handle), each method proved to compute the function of `Ring.dfy` on its arrays.
- `Packets.dfy`, `Combine.dfy`, `History.dfy`, `Waiting.dfy`, `Poller.dfy`: code built on the ring.
- `Semaphores.dfy` (Linux) and `CountedSemaphores.dfy` (macOS): the wake-up semaphores.
- `ThreadLifecycle.dfy`: Start, Stop and Exit against the worker loop, flag access by flag access;
  `ThreadCalls.dfy`: what Start and Stop achieve.
- `SignalTable.dfy`, `DottedDecimal.dfy`, `Layout.dfy`: signal counts, address text, file layout. `Wrappers.dfy`
  holds the optional result they share.

In the names below W is the number of committed frames, N the depth of the ring, and a reader's lag
is W minus its tail's counter.

## What turned out not to hold

The model follows the code. Where the code does less than its documentation says, the exact
condition is proved instead.

- `docs/source/fifo.rst:73-79` promises OVERWRITE only to a lapped reader and NOTREADY only to one
  that is caught up. Between moving `fifo_last_written` (`src/c/dao.c:1040`) and storing the counter
  (`src/c/dao.c:2872`) that fails for lags 0, N - 1 and above N when N > 1
  (`RingProtocol.NextSegmentClassifiesIff`): a caught-up reader is told OVERWRITE and its tail goes
  back to the oldest frame (`RingProtocol.WindowThrowsReaderBack`). What is claimed of the results of
  whole runs is therefore claimed for calls that load `fifo_last_written` outside that window; what
  the overwrite check certifies does not depend on it.
- `daoShmCheckSegmentOverwrite` passes on a slot that already holds the next frame, between clearing
  `write` (`src/c/dao.c:1038`) and storing the counter (`RingProtocol.CheckOverwriteExact`,
  `RingProtocol.CheckBlindWhileCommitting`). The packet call clears `write` after each packet
  (`src/c/dao.c:1020`), so the check also passes on the slot being filled in packets; what it passes
  there is still the reader's frame exactly when no packet changed a value
  (`Packets.CheckAmidPackets`).
- `daoShmTimestampShm` called by itself renumbers the newest frame when N = 1 or nothing was written
  yet (`Ring.StampAloneHarmlessIff`).
- `daoShmCombineShm2Shm` with more than 1024 channels returns an error and leaves the writing slot's
  `write` flag raised (`Combine.CombineShm2Shm`).
- `Exit` ends the worker only if a start token is pending or the worker is not on its way to wait;
  otherwise it stays asleep until another Start or Exit (`ThreadLifecycle.ExitStrandsWorker`).
- A `Start` that clears `m_stop` while the worker is about to set it (`include/daoThreadBase.hpp:270`)
  is lost: the new cycle runs no Body until another Start (`ThreadCalls.StartLost`). Everywhere else
  in the worker's loop a Body follows (`ThreadCalls.StartLaunches`).
- `SignalReceiveSpin` compares wrapped 64-bit counts, so it holds its receiver back while one count
  has wrapped and the other has not (`SignalTable.Table.SpinWrongIff`).
- Senders that share an index lose signals exactly when some sender's store completes an increment
  during which another was completed (`SignalRuns.LostIffDisturbed`; `SignalRuns.TwoSendersLose` is a
  schedule of two).
- `get_next_frame` (`include/daoShm.hpp:166-167`) promises a null pointer when no frame is ready; the
  code returns its pointer variable unset, which happens exactly when the caller does not wait and
  no frame is beyond its tail (`Waiting.GetNextFrame`). The model returns no pointer then.
- `docs/source/fifo.rst:161-162` says that `daoShmWaitForNextSegment` uses a semaphore; it spins.
- `daoBaseIp2Int` accepts empty octets as 0, and its error value is also the address 0.0.0.1
  (`DottedDecimal.Ip2Int`).

## Model

| member | source | states |
|---|---|---|
| Ring.SuccIsMod | src/c/dao.c:888 | the writer's and readers' `(idx + 1) % N` is the step to the neighbouring slot |
| Ring.SlotIsMod | src/c/dao.c:888 | frame w lives in slot (w - 1) mod N; with nothing written, `last` is N - 1 as at creation |
| Ring.HeldUntilLapped | src/c/dao.c:2566 | a slot's counter still names frame w exactly while fewer than N frames followed |
| Ring.OldestHeld | src/c/dao.c:888 | the slot written next holds frame W - N + 1, or none while W < N |
| Ring.PatchSegments | src/c/dao.c:890-917 | a copy into one slot changes that segment at those elements and no other segment |
| Ring.StampCounts | src/c/dao.c:2866-2872 | prior counter plus one numbers the new frame W + 1, for every N including 1, and the index wrap |
| Ring.FinalizeCommits | src/c/dao.c:1029-1042 | finalizing appends what the writing slot holds to the history, and every slot then agrees with it |
| Ring.PublishCommits | src/c/dao.c:881-922 | a full-frame write commits exactly the given frame; a short one keeps the slot's old rest |
| Ring.QuietDetermines | src/c/dao.c:1029-1042 | between commits the history fixes every counter, flag and data element |
| Ring.NewestFramesIntact | src/c/dao.c:887-892 | the newest N - 1 frames (all N between writes) are whole, numbered and unflagged |
| Ring.SettledClassifies | src/c/dao.c:2553-2571 | next-segment is NOTREADY, SUCCESS or OVERWRITE by lag 0, 1 to N, or more, with the new tail |
| Ring.SettledDelivers | src/c/dao.c:2537-2607 | the tail it leaves is again consistent, and the segment it names is the whole frame |
| Ring.SettledChecks | src/c/dao.c:2728-2731 | between commits the check passes unless the slot was reused or is the writing slot with its flag up |
| Ring.StampAloneHarmlessIff | src/c/dao.c:2853-2872 | stamping alone changes nothing if and only if N > 1 and a frame was written |
| RingProtocol.CreatedInv | src/c/dao.c:1996-1998 | the ring as created satisfies the step invariant |
| RingProtocol.StoreKeepsInv | src/c/dao.c:892-1042 | every single store of a write, of a whole frame or its front, keeps the ring invariant and only appends frames |
| RingProtocol.ReachableRingIntact | src/c/dao.c:887-892 | in every reachable state the newest N - 1 frames are whole; `last` is ahead only in the commit window |
| RingProtocol.StoresPublishAtomically | src/c/dao.c:881-922 | the stores of one write, in any copy order and of any length up to nelement, end in the ring of the atomic write |
| RingProtocol.CallCommits | src/c/dao.c:881-922 | an idle writer can always carry out a call; its stores commit one frame, in the ring of the atomic call |
| RingProtocol.NextSegmentClassifiesIff | src/c/dao.c:2561-2571 | at any point between stores the call is the lag classifier if and only if not in the window at the named lags |
| RingProtocol.WindowThrowsReaderBack | src/c/dao.c:1040-1042 | in the window a caught-up reader gets OVERWRITE and the oldest frame's counter, on that frame's slot if and only if W >= N - 1 |
| RingProtocol.NewestIsOnTrack | src/c/dao.c:2744-2758 | outside the window a reset puts the tail on frame W |
| RingProtocol.CheckOverwriteExact | src/c/dao.c:2728-2731 | the check passes if and only if the slot was not begun to be reused, or its reuse is half committed |
| RingProtocol.CheckBlindWhileCommitting | src/c/dao.c:1038-1042 | in the half-committed state the check passes on the new frame's data |
| ReaderRuns.UninterruptedCall | src/c/dao.c:2553-2606 | the separate loads of a call with no store between amount to the one-step call |
| ReaderRuns.UninterruptedReset | src/c/dao.c:2744-2758 | the two loads of a reset put the tail on the newest position |
| ReaderRuns.CheckReports | src/c/dao.c:2728-2733 | with any stores between its two loads, a check passes iff the first finds the slot untouched or half committed and the second finds fewer than N frames followed; a slot not overtaken by then always passes |
| ReaderRuns.UninterruptedCheck | src/c/dao.c:2728-2733 | with no stores between, the two loads are the one-step check, with its exact condition |
| ReaderRuns.ReadThrough | src/c/dao.c:2712-2734 | copying a segment the writer has not reached and checking yields the whole frame, vouched for |
| ReaderRuns.RunKeepsCopy | src/c/dao.c:2537-2758 | under any interleaving of loads and stores, what was copied is the tail's frame unless the writer took its slot |
| ReaderRuns.SeqlockSound | src/c/dao.c:2712-2734 | wherever the loads fell, a passed check certifies every element copied since as frame c > 0, unless its flag load met the half-committed reuse of that slot |
| ReaderRuns.RunKeepsInv | src/c/dao.c:2537-2607 | tail and results stay consistent under any interleaving that looks at `last` outside the window |
| ReaderRuns.RunDelivers | src/c/dao.c:2537-2607 | every run's sequence of results is honest about the counters it reports, and ends with the tail on its frame's slot |
| ReaderRuns.DeliveryOverRuns | src/c/dao.c:2537-2607 | deliveries increase; delivered plus skipped is the tail's advance; N or more skipped per OVERWRITE; consecutive otherwise |
| ReaderRuns.DeliveriesIncrease | src/c/dao.c:2557-2571 | no result goes back, and each delivery is beyond all results before it |
| ReaderRuns.ConsecutiveUnlessLapped | src/c/dao.c:2557-2571 | without OVERWRITE or reset, deliveries are the next frames in order |
| ReaderRuns.HandedPlusSkipped | src/c/dao.c:2566-2571 | without resets, delivered plus skipped is the advance of the tail |
| ReaderRuns.PollSound | src/c/dao.c:2493-2499 | a poll succeeds only when the target was committed, and does when it was committed before |
| ReaderRuns.WaitThenGet | src/c/dao.c:2615-2618 | after waiting for the next segment the next-segment call is never NOTREADY |
| ReaderRuns.WaitThenCall | src/c/dao.c:2615-2618 | the same with every load of the call a step: the first call completed after the wait does not report NOTREADY |
| SharedImage.Shm.constructor | src/c/dao.c:1996-1998 | a created ring is valid with an empty history and a zero frame |
| SharedImage.Shm.Timestamp | src/c/dao.c:2859-2875 | the array form computes `Stamp` |
| SharedImage.Shm.Finalize | src/c/dao.c:1029-1052 | the writing slot's content becomes the next frame of the history; the ring is the finalized one |
| SharedImage.Shm.Image2Shm | src/c/dao.c:881-922 | the history grows by exactly the given frame; the whole new ring is stated |
| SharedImage.Shm.ImagePart2Shm | src/c/dao.c:974-1023 | one packet: the values land at their position, flags and packet metadata as stored, nothing committed |
| SharedImage.Image.constructor | src/c/dao.c:831-835 | a newly opened handle starts at the newest frame |
| SharedImage.Image.GetNextSegment | src/c/dao.c:2537-2607 | status and tail by lag; the returned pointer is that slot's segment, holding the numbered frame |
| SharedImage.Image.GetNewestSegment | src/c/dao.c:2668-2704 | pointer, index and counter of frame W |
| SharedImage.Image.GetArbitrarySegment | src/c/dao.c:2628-2658 | any index yields the segment of slot index mod N |
| SharedImage.Image.CheckSegmentOverwrite | src/c/dao.c:2712-2734 | SUCCESS if and only if fewer than N frames followed and the slot is not being written with its flag up; then the segment is that frame, unless values were stored into it |
| SharedImage.Image.ResetTail | src/c/dao.c:2744-2758 | the tail moves to frame W |
| Packets.PacketsFill | src/c/dao.c:974-1023 | after any packets the writing slot holds the frame where a packet reached and its old content elsewhere |
| Packets.PacketsPublish | src/c/dao.c:974-1052 | packets covering a frame, in any order and overlapping, then finalize, give the ring of one full-frame write |
| Packets.PartialFrameLeavesOthers | src/c/dao.c:974-1023 | before finalize the newest N - 1 frames stay whole |
| Packets.CheckAmidPackets | src/c/dao.c:2728-2731 | amid packets the check passes iff fewer than N frames followed; on the slot being filled it is right iff no packet changed a value |
| Packets.CheckWhileSending | src/c/dao.c:2712-2734 | the same for the calls on the arrays |
| Packets.SendInPackets | src/c/dao.c:974-1052 | the same for the calls on the arrays: the frame is committed once, as by one full write |
| History.BackSlotIsMod | src/python/daoShm.py:799-805 | the floor remainder of a possibly negative index is the slot d steps back |
| History.HeldBack | src/python/daoShm.py:799-808 | with m more commits that slot holds frame W - d, or none, while m + d < N, and then a frame at least N newer |
| History.FrameBack | src/python/daoShm.py:805-808 | that slot's segment is the frame it holds, unless it is the slot being filled |
| History.GetHistory | src/python/daoShm.py:748-824 | None out of range; otherwise each item is the frame its slot holds when copied, with commits falling between the copies |
| History.CopiedQuietly | src/python/daoShm.py:803-819 | with no commits the items are frames W - n + 1 to W in order, blank where the number is not positive |
| History.CopiedInTime | src/python/daoShm.py:803-819 | with m commits before it an item is still that frame while m + d < N - 1 |
| Waiting.CountSeen | src/c/dao.c:2479-2499 | the counter one poll sees lies between the frames committed before and after it |
| Waiting.Poll | src/c/dao.c:2479-2499 | one poll, with commits between its loads, succeeds iff that counter reaches the target, for N = 1 and N > 1 |
| Waiting.TakeTurn | src/c/dao.c:2493-2507 | one turn: SUCCESS if the poll sees the target, else ERROR if the sleep is interrupted, else it goes on |
| Waiting.WaitForTargetCounter | src/c/dao.c:2448-2512 | it ends with the first turn whose poll sees the target (SUCCESS) or whose sleep is interrupted (ERROR); an interruption before the target is committed always gives ERROR |
| Waiting.WaitTerminates | src/c/dao.c:2493-2507 | with a writer that commits in every turn, target - W + 1 turns suffice |
| Waiting.GetNextFrame | include/daoShm.hpp:197-213 | NOTREADY, SUCCESS or OVERWRITE and the new tail exactly by lag; ERROR exactly as the wait ends; pointer, counter and frame match |
| Waiting.GetDataNext | src/python/daoShm.py:570-618 | the same status and tail; data exactly for SUCCESS and OVERWRITE, and it is the frame of the tail's counter |
| Combine.WrapAdd | src/c/dao.c:2056-2057 | truncating at each addition is truncating the sum |
| Combine.SumElement | src/c/dao.c:2053-2058 | the inner loop leaves the truncated channel sum in one element |
| Combine.SumSegment | src/c/dao.c:2051-2059 | the two loops store the channel sums and nothing else |
| Combine.NewestFrames | src/c/dao.c:2040-2046 | the summed segments are the inputs' newest frames, unless packets are in the only slot of a ring |
| Combine.CombineShm2Shm | src/c/dao.c:2014-2203 | one commit whose frame is the channel sum of the inputs' newest frames; the error case beyond 1024 channels |
| Combine.SumExactIff | src/c/dao.c:2056-2057 | the stored value is the exact sum if and only if the element type can represent it |
| Poller.DoubleBuffer.Write | src/python/daoDoubleBuffer.py:11-19 | the new data becomes readable and the former readable data is kept in the other buffer |
| Poller.DoubleBuffer.Read | src/python/daoDoubleBuffer.py:21-27 | reading returns the readable buffer and changes neither |
| Poller.UpdateItem.Refresh | src/python/daoComponent.py:281-282 | with commits between counter and copy, the shown frame is numbered at least the recorded counter |
| Poller.UpdateItem.Visit | src/python/daoComponent.py:279-282 | a visit records the counter and shows the newest frame of its last access if a newer one was committed, and changes nothing otherwise |
| Poller.UpdateThread | src/python/daoComponent.py:268-286 | every item ends showing a committed frame, no older than its recorded counter, and the newest one if nobody committed after its last visit |
| Poller.PolledShowsNewest | src/python/daoComponent.py:276-282 | the same after any single pass |
| Semaphores.StepKeepsInv | src/c/dao.c:2918-2924 | every step of the writer's stores, the posting loop and the waiters keeps the wake-up invariant |
| Semaphores.NoLostWakeup | src/c/dao.c:2919-2943 | semaphores stay at most 1; one that is down was taken by a waiter that has read or will read frame W |
| Semaphores.PostingProgresses | src/c/dao.c:2934-2943 | the posting loop is never held up and ends after two steps per semaphore |
| Semaphores.VisitRaises | src/c/dao.c:2919-2924 | its visit leaves a semaphore up |
| Semaphores.UnitsConserved | src/c/dao.c:2919-2924 | a semaphore holds what was posted to it less the waits that returned |
| CountedSemaphores.StepConserves | src/c/dao.c:2891-2914 | each atomic step conserves counter = kernel value + units in hand |
| CountedSemaphores.SemaphoreConservation | src/c/dao.c:2279-2288 | the counter never exceeds 1 and the guarded loop always decrements, under every schedule |
| CountedSemaphores.UninterruptedPost | src/c/dao.c:2891-2914 | a post raises the semaphore below its maximum and leaves it alone at it |
| CountedSemaphores.UninterruptedWait | src/c/dao.c:2279-2288 | a wait takes one unit from the semaphore and one from the counter |
| CountedWakeups.PostServes | src/c/dao.c:2891-2917 | the post after a commit can be carried out and leaves the newest frame served |
| CountedWakeups.NoLostWakeup | src/c/dao.c:2891-2917 | once the newest frame is posted, a skipped post included, the semaphore is up or its last taker has read or will read that frame |
| ThreadLifecycle.StepKeepsInv | include/daoThreadBase.hpp:239-285 | mutual exclusion, the waiting flag, no lost notify, hook order and token count survive every step |
| ThreadLifecycle.HookOrder | include/daoThreadBase.hpp:183-285 | every schedule's hook trace is a prefix of Spawn (Start Body* Stop)+ Exit, and all of it once done |
| ThreadLifecycle.StartsNeverExceedTokens | include/daoThreadBase.hpp:68-105 | OnceOnStart runs at most once per Start or Exit that set `m_start` |
| ThreadLifecycle.ExitEndsWorker | include/daoThreadBase.hpp:95-105 | if a token is pending or the worker is not on its way to wait, it reaches OnceOnExit within 19 of its steps |
| ThreadLifecycle.ExitStrandsWorker | include/daoThreadBase.hpp:95-105 | otherwise no schedule ends or starts it until another Start or Exit |
| ThreadLifecycle.WillFinishMeans | include/daoThreadBase.hpp:100-104 | that condition, in terms of the worker's program counter |
| ThreadLifecycle.AtMostOneMoreBody | include/daoThreadBase.hpp:259-270 | after `m_running` is cleared only a Body already admitted still runs |
| ThreadCalls.CallNeverStuck | include/daoThreadBase.hpp:68-105 | no call is deadlocked |
| ThreadCalls.CallsReturn | include/daoThreadBase.hpp:68-105 | every call returns within six steps of its own, and then any call is accepted |
| ThreadCalls.StopBoundsBodies | include/daoThreadBase.hpp:85-88 | after Stop only a Body already past the test of `m_stop` still runs |
| ThreadCalls.StopEndsCycle | include/daoThreadBase.hpp:259-274 | after Stop a worker that took a token runs OnceOnStop within 8 of its steps |
| ThreadCalls.StartLaunches | include/daoThreadBase.hpp:68-77 | after Start a Body runs, within 14 worker steps of the token, unless `m_stop` was cleared with the worker about to set it or leaving |
| ThreadCalls.StartLost | include/daoThreadBase.hpp:270-284 | in those places no schedule runs a Body until another Start |
| ThreadCalls.LeavingClearsRunning | include/daoThreadBase.hpp:284 | a worker that left is not running until another Start |
| SignalTable.Table.SignalSend | include/daoSignalTable.hpp:54-57 | one more signal sent on that index, none elsewhere, wrapping included |
| SignalTable.Table.SignalSendRange | include/daoSignalTable.hpp:66-72 | one signal on each index of the range |
| SignalTable.Table.SignalSendArray | include/daoSignalTable.hpp:81-87 | as many signals on each index as it occurs in the array |
| SignalTable.Table.SignalsPending | include/daoSignalTable.hpp:94-97 | the 64-bit difference is the true number pending modulo 2^64 |
| SignalTable.Table.SignalReceive | include/daoSignalTable.hpp:105-113 | acknowledges one if and only if the number pending is not a multiple of 2^64 |
| SignalTable.Table.SpinIffNone | include/daoSignalTable.hpp:123 | before 2^64 signals the spin waits exactly while none is pending |
| SignalTable.Table.SpinWrongIff | include/daoSignalTable.hpp:123 | with some pending it waits if and only if one count has wrapped more often than the other |
| SignalTable.Table.SignalReceiveSpinArray | include/daoSignalTable.hpp:183-189 | receives every index of the array without spinning when each was sent often enough |
| SignalTable.Table.SendThenReceive | include/daoSignalTable.hpp:81-189 | sending an array and receiving any permutation of it restores every pending count |
| SignalTable.Table.SignalTableReset | include/daoSignalTable.hpp:209-215 | nothing is pending after a reset of the table |
| SignalRuns.SignalsConserved | include/daoSignalTable.hpp:54-125 | one sender and one receiver, load by load: pending is sent minus received and the tracker never passes the signal |
| SignalRuns.LostIffDisturbed | include/daoSignalTable.hpp:54-57 | for any number of senders, none of their signals is lost iff every store completes an increment during which no other was completed |
| SignalRuns.UndisturbedConserves | include/daoSignalTable.hpp:54-125 | then pending is sent minus received, and the tracker never passes the signal |
| SignalRuns.ReceiveAcknowledges | include/daoSignalTable.hpp:121-125 | a receive acknowledges exactly one signal if any is pending when it compares, whatever is sent between its loads |
| SignalRuns.UninterruptedSend | include/daoSignalTable.hpp:54-57 | a send counts one signal |
| DottedDecimal.Ip2Int | src/c/dao.c:113-152 | the loops compute the parse, with 32-bit arithmetic that never overflows, or DAO_ERROR |
| DottedDecimal.ParseJoined | src/c/dao.c:123-150 | four digit runs with dots and a non-digit after them are accepted if and only if each is below 256, with that address |
| DottedDecimal.AcceptedIsJoined | src/c/dao.c:123-150 | nothing else is accepted |
| DottedDecimal.PrintThenParse | src/c/dao.c:113-152 | printed addresses read back as themselves whatever non-digit follows; a part of 256 or more is refused |
| DottedDecimal.JoinedFits | src/c/dao.c:130-133 | such text keeps the accumulation within a C int when its numbers do |
| DottedDecimal.AddressInjective | src/c/dao.c:148-149 | distinct octets give distinct addresses |
| Layout.PointersAgree | src/c/dao.c:597-680 | opener and creator compute the same data and keyword offsets, where the tables before them end |
| Layout.RegionsDisjoint | src/c/dao.c:1336-1390 | no byte of the file belongs to two entries |
| Layout.RegionsFill | src/c/dao.c:1336-1390 | every byte of the file belongs to an entry |
| Layout.ArbitrarySegmentIsRegion | src/c/dao.c:2630-2655 | the pointer for any index is the start of a whole data segment inside the file |

## Left out

- Weak memory ordering: loads and stores take effect one at a time, in program order.
- Wrap-around of the 64-bit frame counters and of 32-bit offsets: counters and offsets are unbounded.
- Several writers on one ring: the repository does not support them.
- ReaderRuns.SeqlockSound: for a writer of whole calls, not packets, whose case is Packets.CheckAmidPackets; nothing is certified of frame 0 or when the flag load met the half-committed reuse of the slot, where the check is blind, as proved.
- ReaderRuns.DeliveryOverRuns: `fifo_last_written` is loaded outside the commit window; inside it a caught-up reader is thrown back, as proved.
- RingProtocol.StoreKeepsInv: whole write calls only; packets are covered between calls in SharedImage and Packets.
- Waiting.WaitForTargetCounter: the spin is cut off after a given number of turns, because Dafny needs it to end; nothing is claimed of a writer that stops.
- Poller.UpdateThread: the items have buffers of their own, and the commits between accesses are parameters.
- Combine.CombineShm2Shm: integers only; signed 32- and 64-bit sums must not overflow, which C leaves undefined; float and complex sums are not modelled.
- CountedWakeups.NoLostWakeup: one writer; nothing is claimed while the newest frame's `sem_post` has failed.
- CountedSemaphores.SemaphoreConservation: the clock of the timed wait, and its look at the counter before waiting, are not modelled.
- SignalTable.Table.SignalReceiveSpin: modelled for one thread when a signal is there; the spin itself is in SignalRuns.
- DottedDecimal.Ip2Int: numbers beyond a C int, whose accumulation C leaves undefined.
- ThreadCalls.StartLaunches: no Stop or Exit after it, and one controller thread; hooks and Body return.
- ThreadLifecycle.ExitEndsWorker: hooks and Body return; Join, Kill and respawning are not modelled.
- History.GetHistory: the waiting options, conversion of element types and shapes, and commits inside the copying of one item.
- `daoShmImage2ShmQuiet`: writes without committing and adds nothing beyond the packet case.
- `daoShmWaitForCounter`: watches an index that returns to the same value after N commits, so it promises little.
- The switch over element types in each call: one element type stands for all.
- File opening, mapping, semaphore names, Windows handles, NUMA, logging, ZeroMQ, Redis and the other language bindings.
- The component state machine and the C++ map updater, which re-reads the counter after copying.
