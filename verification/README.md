# Circular buffer: model and proofs

The library passes messages of up to 65535 bytes from one writer to any number of readers through a byte ring in
shared memory, with three atomics (`readIdx`, `writeIdx`, `seqNum`) and no lock. It bundles spdlog, whose asynchronous
queue, thread pool, rotating file sink and pattern formatter are modelled as well.

Notation: C is the ring's capacity, H = 4 the header size, M = 65535 the largest message.

## The ring

- `RingLog` places a log of messages on an endless tape of which the ring shows the last C bytes. It proves where
  frames lie, what the sequence number does and does not count, and when two bytes share a cell.
- `RingWindow` says what the reader's two tests (index equality, lag against C) tell about the log.
- `RingMemory` and `RingReads` state one `Write` and one `Read` as functions on the shared memory, without the
  program's branches, and prove what a reader gets. `RingBuffer` holds the writer and reader objects with the
  program's branches and copies, proved equal to those functions.
- `RingAlarms` says exactly which calls report an overwrite, and what `Read` does when it does not.
- `RingRuns` composes them to runs with any number of readers whose calls do not overlap.
- `RingSteps` makes every atomic load or store and every copied byte one step of a machine in which all threads
  interleave; `RingSolo` proves that an uninterrupted call of that machine is the function above, `RingProtocol`
  what every interleaving keeps and gives a reader, and `RingProgress` that a call comes to its end with a message.
  `RingStraddle` is a run in which an attach goes wrong, `RingOverrun` one in which a call is overrun unnoticed.

## Queue and pool, sink, formatter

- `CircularQueue` is the bounded ring queue. `BlockingQueue` is the monitor around it as a step machine with waiting
  and woken threads, pending notifications, time-outs and spurious wake-ups; `QueueCalls` says what each call does, and
  `QueueObject` ties its critical sections to the ring queue object. `ThreadPool`, `ThreadPoolInv` and
  `ThreadPoolShutdown` put workers, clients and the destructor on top, `PoolPolicies` says what the overflow policies do.
- `RotatingSink` is the rotating file sink over a map of numbered files; `SinkAccount` accounts for it from the calls.
- `Pattern` is the pattern compiler with a printer for its output, `PatternSpec` the meaning of its pad specs; `Padder`
  is the scoped padder.
- `Bytes`, `Modular`, `Counting`, `BoundedSeq` and `Options` hold what the others share.

## What is assumed

- H + M <= C <= 2^31 - 1. Only bin/benchmarks/Writer.cpp:41-45 observes the lower bound; no constructor checks it.
- One writer. Readers are created after it. An `int32_t` header on a little-endian host, 64-bit sequence numbers
  that wrap.
- Memory is sequentially consistent, and copies store or load one byte after the other in ascending order.
- The memory behind a caller's buffer, which a split write can read, holds arbitrary bytes: the parameter `past`.

## Where the code does not keep what is promised

The model keeps the code; the lemmas named here give the failing input and the exact condition.

- A split write takes its second part from the wrong place (src/circularbuffer/Writer.cpp:103-105): offset "bytes
  remaining" of the message instead of "bytes already written". `RingRuns.MisdeliveredOnARun` gives a run,
  `RingMemory.SplitSurvives` says exactly which messages survive,
  `RingMemory.DeliveredIffAligned` in which geometry all do. All theorems about the ring
  speak of the message as delivered, so they hold for the message as sent wherever the two coincide, and everywhere
  if the offset is corrected, for then every message is delivered as sent. tests/Reader.cpp:98-109 fills its message
  with one byte value, which hides the difference as long as the second copy stays inside the message.
- README.md:57-58 promises that an overwritten reader gets an error. Three things break it.
  - `Read` compares indices before it looks at the lag, so a writer that is a whole number of rings ahead goes
    unnoticed: from two rings on the next header is gone and 0 is returned (`RingAlarms.RingsAheadIsSilent`, with an
    input in `RingAlarms.MissedLaps`).
  - The lag does not count skipped tails: `RingAlarms.MissedAlarm` gives logs in which the next header is gone at a
    lag of exactly C and other bytes are returned.
  - The final test subtracts the message just read (src/circularbuffer/Reader.cpp:123 and 165), so what is overwritten
    during a call goes unnoticed for a whole message more than a ring: in `RingOverrun.OverrunUnreported` a call that
    began with one message unread is handed the third. Nor does any test see the frame that is being written, which
    no counter shows yet: `RingOverrun.FlightUnreported`.

  For a call that overlaps no write, `RingAlarms.ReportIsExact` says exactly when the error is returned and
  `RingAlarms.LossUnreported` exactly when a lost header goes without it. In any interleaving
  `RingProtocol.FirstTestIsExact` and `RingProtocol.FinalTestIsExact` say what each test sees, and
  `RingProtocol.TornUnreported` exactly when a torn read is returned.
- A reader that attaches while a write publishes keeps a sequence number ahead of its index for life
  (src/circularbuffer/Reader.cpp:21-22 against src/circularbuffer/Writer.cpp:146-151), and reports intact messages
  as overwritten: `RingReads.SkewedRead` says exactly which, and `RingStraddle.StraddledReader` gives a run.
- README.md:55 moves the read index before the sequence number; the code, and the model, store the sequence number
  first. README.md:4 starts at 1 byte; `Write` accepts an empty message, `Read` then returns 0 and advances, and the
  model includes it.
- A pool whose queue has no slot is accepted by the constructor and can never be destroyed:
  `ThreadPoolShutdown.FinishesIffSlots`.

## Model

| member | source | states |
|---|---|---|
| `Bytes.HeaderRoundTrip` | src/circularbuffer/Reader.cpp:55-56 | an `int32_t` size copied to memory byte by byte reads back as the same number, negative ones included |
| `Bytes.LagIsExact` | src/circularbuffer/Reader.cpp:36-38 | the wrapped 64-bit lag is the true distance whenever that is below 2^64 |
| `Bytes.LagUnderflows` | src/circularbuffer/Reader.cpp:165 | a reader ahead of the counter sees an enormous lag instead of a negative one |
| `RingLog.NextIndex` | src/circularbuffer/Writer.cpp:54-139 | the index after a frame is in [1..C]: never 0, and C after an exact fit |
| `RingLog.PositionConserved` | src/circularbuffer/Writer.cpp:49-151 | after every prefix of any log, `laps*C + index == seqNum + skipped`, and at most H-1 bytes are skipped per lap |
| `RingLog.SharedCell` | src/circularbuffer/Writer.cpp:57-139 | two bytes of any frames that fall on one ring cell are at least C apart on the endless tape |
| `RingLog.SkipOnce` | src/circularbuffer/Writer.cpp:119-127 | between two boundaries at most C counted bytes apart at most one tail is skipped |
| `RingLog.Distance` | src/circularbuffer/Writer.cpp:119-148 | the lag misses at most H-1 bytes of the true distance while it is at most C |
| `RingLog.NoAlias` | src/circularbuffer/Writer.cpp:54-75 | boundaries less than a ring apart have equal indices only if they are the same, although 0 and C denote one cell |
| `RingLog.FrameCovering` | src/circularbuffer/Writer.cpp:57-139 | every tape position between two boundaries that can start a header is a byte of one of the frames between them |
| `RingWindow.EmptinessTestIsExact` | src/circularbuffer/Reader.cpp:30-34 | with at most C-H unread bytes, index equality holds if and only if nothing is unread |
| `RingWindow.EmptinessTestAliases` | src/circularbuffer/Reader.cpp:30-34 | without that window, for every log: index equality holds if and only if the writer is a whole number of rings ahead |
| `RingWindow.LostMeansLapped` | src/circularbuffer/Writer.cpp:57-139 | some later frame covers a header's first byte if and only if the log ends more than a ring beyond it |
| `RingWindow.AlarmVersusLoss` | src/circularbuffer/Reader.cpp:36-39 | the lag comparison by itself: the next header is overwritten if and only if lag plus skipped tails exceed C; `lag > C` is never a false alarm, and it misses a loss only for lags in (C-3, C] |
| `RingWindow.NarrowWindow` | src/circularbuffer/Reader.cpp:30-46 | at most C - H unread bytes are enough for the next message to be in the ring and the index test to see it |
| `RingMemory.SplitDelivers` | src/circularbuffer/Writer.cpp:77-107 | message by message: a split write delivers everything before the wrap as it is, and behind it the same number of bytes taken from that offset of the message on, running into the memory behind the buffer where the message ends first |
| `RingMemory.SplitSurvives` | src/circularbuffer/Writer.cpp:103-105 | so a message that splits is delivered unchanged if and only if its last bytes equal those, and what lies behind the buffer matters only if more than half of the message wraps |
| `RingMemory.UnsplitDelivers` | src/circularbuffer/Writer.cpp:57-69 | a message that does not split is delivered as it is |
| `RingMemory.DeliveredIffAligned` | src/circularbuffer/Writer.cpp:87-107 | a split write delivers every message of n bytes unchanged if and only if exactly half of the message lies behind the wrap |
| `RingMemory.SplitWriteMisdelivers` | src/circularbuffer/Writer.cpp:103-105 | in a ring of any size, the message 1,2,3 written from six bytes before the end arrives as 1,2,2 |
| `RingMemory.ReadOutcome` | src/circularbuffer/Reader.cpp:27-177 | for arbitrary ring contents a read leaves the index in [0..C], returns INT_MIN, -1 or a size within the buffer, and touches no buffer byte beyond that size |
| `RingMemory.NextCellIsFree` | src/circularbuffer/Writer.cpp:57-139 | the cell of the next byte to be stored holds no byte that is due after that store |
| `RingMemory.StoreKeeps` | src/circularbuffer/Writer.cpp:63-65 | storing the next byte of the frame being written changes no byte that is then still due: the window moves up byte by byte |
| `RingMemory.OverlayHolds` | src/circularbuffer/Writer.cpp:57-139 | a whole write keeps every byte of the last ring of the tape and adds the new frame |
| `RingMemory.FrameReadsBack` | src/circularbuffer/Reader.cpp:54-162 | a frame whose first byte is due is read back whole, across the end of the ring |
| `RingReads.WindowIsIntact` | src/circularbuffer/Reader.cpp:36-46 | with lag at most C-(H-1) every unread frame is intact in the ring |
| `RingReads.NotLappedIsIntact` | src/circularbuffer/Reader.cpp:36-46 | a frame that no later one has lapped, counted with the skipped tails, is intact and its lag within the ring |
| `RingReads.NoFalseAlarm` | src/circularbuffer/Reader.cpp:36-46 | when the first test reports an overwrite, the next header really is gone, and the reader is unchanged |
| `RingReads.ReadNext` | src/circularbuffer/Reader.cpp:27-177 | one read whose next message is neither lapped nor hidden by whole rings returns nothing when there is nothing, exactly that message, or -1 with the same logical position |
| `RingReads.RetryIsHarmless` | src/circularbuffer/Reader.cpp:70-76 | after a refusal for a small buffer, in either branch, a read with room gives exactly what it would have given at once |
| `RingAlarms.RefusedIndex` | src/circularbuffer/Reader.cpp:70-76 | a refusal for a small buffer leaves index, count and buffer, but for the index going to 0 where the header did not fit; from 0 the reader is never again told that there is nothing, whatever is written |
| `RingReads.StraddledAttach` | src/circularbuffer/Reader.cpp:20-22 | the first read after two constructor loads that straddle publishes rejects an intact message if and only if fewer bytes than that message were published since |
| `RingReads.SkewedRead` | src/circularbuffer/Reader.cpp:20-46 | every read of such a reader, at every boundary whose message is in reach and for every skew: the first test reports an overwrite while less than the skew is unread, otherwise the reader moves on with the same skew and the intact message is returned if and only if skew and message fit what is unread |
| `RingReads.WritePublishes` | src/circularbuffer/Writer.cpp:39-155 | one write from any published log gives the published log with the delivered message appended |
| `RingAlarms.ReportIsExact` | src/circularbuffer/Reader.cpp:30-46 | on the return value of a call that overlaps no write: with messages unread, 0 is returned unmoved if and only if the writer is a whole number of rings ahead; otherwise INT_MIN if and only if the lag exceeds C, which is reported before anything is touched, or is less than an accepted size found in the ring |
| `RingAlarms.ReportInRoomyRing` | src/circularbuffer/Reader.cpp:30-46 | with C at least H + M + 2 the second case is empty: INT_MIN if and only if the lag exceeds C and the writer is not a whole number of rings ahead |
| `RingAlarms.LossUnreported` | src/circularbuffer/Reader.cpp:27-177 | the next header is gone and the return value is not INT_MIN if and only if lag plus skipped tails exceed C and either the writer is a whole number of rings ahead, or the lag does not exceed C and the size found is refused or fits what is unread |
| `RingAlarms.RingsAheadIsSilent` | src/circularbuffer/Reader.cpp:30-34 | two or more whole rings ahead, for every log: the header is gone and `Read` returns 0 without moving |
| `RingAlarms.MissedLaps` | README.md:57-58 | an instance: three messages that each fill the smallest ring; at lag 2C the read returns 0 |
| `RingAlarms.MissedAlarm` | README.md:57-58 | a family of three-message logs whose second header is gone at lag exactly C: `Read` takes its size from bytes of the third message and returns that many bytes, or -1 |
| `RingAlarms.LateReport` | src/circularbuffer/Reader.cpp:164-173 | an instance of a report by the final test at a lag of C - 2: one overwritten byte made the size larger than what is unread |
| `RingBuffer.CopyInto` | src/circularbuffer/Writer.cpp:63-65 | the copy changes exactly the addressed bytes |
| `RingBuffer.StoreFrame` | src/circularbuffer/Writer.cpp:62-65 | size and bytes land next to each other and nothing else changes |
| `RingBuffer.Writer.constructor` | src/circularbuffer/Writer.cpp:19-30 | the three atomics and the locals are reset and the ring bytes kept, for a ring of any length |
| `RingBuffer.Writer.StoreSplit` | src/circularbuffer/Writer.cpp:77-107 | the two runs of copies lay the delivered frame around the end of the ring, source offset as in the code |
| `RingBuffer.Writer.StoreWhole` | src/circularbuffer/Writer.cpp:129-135 | an unsplit frame is laid in place |
| `RingBuffer.Writer.Write` | src/circularbuffer/Writer.cpp:39-155 | refuses exactly the messages above the limit and then changes nothing; otherwise all three branches give the one arithmetic result `AfterWrite`, and next element, local index, writeIdx and readIdx agree again |
| `RingBuffer.Reader.constructor` | src/circularbuffer/Reader.cpp:17-25 | takes index and sequence number from the shared state |
| `RingBuffer.Reader.MessageSize` | src/circularbuffer/Reader.cpp:55-56 | the decoded header at the local index |
| `RingBuffer.Reader.TakeWhole` | src/circularbuffer/Reader.cpp:81-86 | one copy delivers the payload and keeps the rest of the buffer |
| `RingBuffer.Reader.TakeSplit` | src/circularbuffer/Reader.cpp:93-113 | two copies deliver the payload that wraps |
| `RingBuffer.Reader.TakeMessage` | src/circularbuffer/Reader.cpp:48-162 | the reader's three branches find the next index and count by the same formula as the writer's, for any ring contents |
| `RingBuffer.Reader.Read` | src/circularbuffer/Reader.cpp:27-177 | the whole call equals `ReadOutcome` and changes no shared state |
| `RingBuffer.Region.constructor` | include/circularbuffer/State.hpp:9-15 | a zeroed state over the given ring bytes, of any length |
| `RingRuns.ReadHandsNext` | src/circularbuffer/Reader.cpp:27-177 | a call in a run that is not misled (past both tests although its header is gone) adds exactly the next message when it is in reach and fits, and nothing otherwise, error codes included |
| `RingRuns.RunKeepsInv` | src/circularbuffer/Reader.cpp:27-177 | every sequence of writes, attaches and reads keeps the published log and every reader's place in it |
| `RingRuns.WriteTakes` | src/circularbuffer/Writer.cpp:39-47 | a write in a run takes every message up to the limit and ignores larger ones |
| `RingRuns.FifoOnEveryRun` | README.md:4-8 | over every run with any number of readers, one that was never misled, whatever error codes it got, holds exactly the delivered log from its attach point, and the sent messages when every write met the split geometry |
| `RingRuns.NextReadDelivers` | src/circularbuffer/Reader.cpp:27-177 | after every run such a reader's next read with room returns the next message if there is one in reach |
| `RingRuns.MisdeliveredOnARun` | src/circularbuffer/Writer.cpp:103-105 | a run in which a reader is handed 1,2,2 where 1,2,3 was written |
| `RingSteps.StepWriter` | src/circularbuffer/Writer.cpp:57-151 | every store of the writer stays inside the ring, from any state in range |
| `RingSteps.StepReader` | src/circularbuffer/Reader.cpp:30-176 | every load of a reader stays inside the ring, torn headers included |
| `RingSolo.SoloWrite` | src/circularbuffer/Writer.cpp:39-155 | the writer's steps without interruption are exactly `AfterWrite`, in one step per byte and three stores |
| `RingSolo.SoloRead` | src/circularbuffer/Reader.cpp:27-177 | a reader's steps without interruption are exactly `ReadOutcome`, for arbitrary ring contents, and touch nothing else |
| `RingProtocol.CopyKeeps` | src/circularbuffer/Writer.cpp:62-65 | a byte copied into the reserved space keeps the publish invariant and moves the stored end up |
| `RingProtocol.FrameJoinsLog` | src/circularbuffer/Writer.cpp:146-148 | storing seqNum turns the reserved end into the end of the published log |
| `RingProtocol.CopiedByte` | src/circularbuffer/Reader.cpp:83-113 | a byte that a reader copies before a store reaches its cell again is the frame's, whatever write is in flight |
| `RingProtocol.MovedIndexIsBehind` | src/circularbuffer/Reader.cpp:30-38 | a reader that saw readIdx moved is behind seqNum by at least its next message, so the unsigned lag does not underflow; it is within the ring unless a store has reached that message |
| `RingProtocol.FirstTestIsExact` | src/circularbuffer/Reader.cpp:36-46 | in any interleaving the first lag test ends the call if and only if more than C bytes are unread |
| `RingProtocol.FinalTestIsExact` | src/circularbuffer/Reader.cpp:123-166 | in any interleaving the final test, which subtracts the message just read, raises an alarm if and only if less than that message is unread or more than C on top of it |
| `RingProtocol.TornUnreported` | src/circularbuffer/Reader.cpp:123-176 | a read that copied an overwritten byte, or whose frame is overwritten by its final load, is returned without an error if and only if H + size <= unread <= C + H + size |
| `RingProtocol.MarginMeansUntorn` | src/circularbuffer/Reader.cpp:164-166 | the margin at the final load excludes that the published frames or the one in flight reached the message |
| `RingProtocol.UntornRead` | src/circularbuffer/Reader.cpp:164-176 | in any interleaving of byte-level steps, a read that copied each byte before a store reached that byte's cell again holds exactly one whole message, the next published one, even with a write in flight, and returns it unless more than C bytes are unread on top of it |
| `RingProtocol.IntactRead` | src/circularbuffer/Reader.cpp:164-176 | a read whose frame no store has reached by its final load is such a read, and is returned |
| `RingProtocol.MarginRead` | src/circularbuffer/Reader.cpp:164-176 | the same for a read whose final load keeps the margin (S - s) + (H + M) + (H - 1) <= C, which a reader can compute |
| `RingProtocol.NextKeepsInv` | src/circularbuffer/Writer.cpp:57-151 | every step of writer or reader keeps the publish and reader invariants |
| `RingProtocol.UntornOnEveryRun` | src/circularbuffer/Reader.cpp:27-177 | over every interleaving a reader whose completed reads were such and returned has been given exactly the published log from its attach point; calls ended by a test or a refusal do not matter |
| `RingProtocol.MarginOnEveryRun` | src/circularbuffer/Reader.cpp:27-177 | a reader whose completed reads all kept the margin is such a reader |
| `RingProtocol.PublishOrder` | README.md:52-56 | in every reachable state readIdx <= seqNum <= writeIdx as positions, at most one message apart; writeIdx is the reserved end from its store until seqNum's and the end of the log otherwise; every published byte less than a ring below the stored end is in place |
| `RingProgress.ReadDelivers` | src/circularbuffer/Reader.cpp:27-177 | progress in every interleaving: a reader with such a history that calls `Read` while a message is announced has exactly that message after at most 9 + its length own steps, whatever the others do, if its window is still open then |
| `RingStraddle.StraddledState` | src/circularbuffer/Reader.cpp:20-22 | a run from the start in which an attach straddles a publish: everything is published and the reader is skewed by the message |
| `RingStraddle.StraddledReader` | src/circularbuffer/Reader.cpp:164-173 | in that run the reader's first read passes over the intact message, returning INT_MIN |
| `RingOverrun.OverrunUnreported` | src/circularbuffer/Reader.cpp:123-176 | a run in which two messages are written during a call that began with one unread: the call takes the header of the first and is handed the third, without an error |
| `RingOverrun.FlightUnreported` | src/circularbuffer/Writer.cpp:57-148 | a run in which a reader at lag C is handed the message being written, which is not published yet, in place of the first unread one, without an error |
| `CircularQueue.CircularQ.Disabled` | include/spdlog/details/circular_q.h:25-26 | the disabled queue has no slot |
| `CircularQueue.CircularQ.constructor` | include/spdlog/details/circular_q.h:28-31 | max usable slots, empty |
| `CircularQueue.CircularQ.WindowGrows` | include/spdlog/details/circular_q.h:48-54 | on any array: a store at the tail appends, and drops the oldest exactly when the tail meets the head |
| `CircularQueue.CircularQ.Store` | include/spdlog/details/circular_q.h:48-49 | the item is at the old tail, the tail moves on by one modulo the length |
| `CircularQueue.CircularQ.PushBack` | include/spdlog/details/circular_q.h:46-57 | the contents become `Push` of the old ones; the overrun counter rises exactly when it was full; a disabled queue ignores it |
| `CircularQueue.CircularQ.Front` | include/spdlog/details/circular_q.h:59-63 | the oldest item |
| `CircularQueue.CircularQ.Size` | include/spdlog/details/circular_q.h:66-72 | within the slots, and 0 exactly when head meets tail |
| `CircularQueue.CircularQ.At` | include/spdlog/details/circular_q.h:76-79 | item i of the contents, across the wrap |
| `CircularQueue.CircularQ.PopFront` | include/spdlog/details/circular_q.h:83 | drops exactly the oldest item |
| `CircularQueue.CircularQ.IsEmpty` | include/spdlog/details/circular_q.h:85 | true exactly when nothing is stored |
| `CircularQueue.CircularQ.IsFull` | include/spdlog/details/circular_q.h:87-93 | true exactly when enabled and no slot is left |
| `CircularQueue.CircularQ.ResetOverrunCounter` | include/spdlog/details/circular_q.h:97 | resets the counter, keeps the contents |
| `CircularQueue.CircularQ.MoveFrom` | include/spdlog/details/circular_q.h:101-112 | takes over contents and counter and leaves the other queue disabled and empty; moved onto itself, a queue ends disabled and empty |
| `BlockingQueue.StepThread` | include/spdlog/details/mpmc_blocking_q.h:31-90 | a step of any call never stores more than the slots |
| `BlockingQueue.PushKeeps` | include/spdlog/details/mpmc_blocking_q.h:34-37 | a push under the lock keeps the wake-up balance and the conservation of items |
| `BlockingQueue.NotifyPushKeeps` | include/spdlog/details/mpmc_blocking_q.h:37 | a notification after the unlock keeps the wake-up balance, whoever it wakes |
| `BlockingQueue.NotifyPopKeeps` | include/spdlog/details/mpmc_blocking_q.h:77-89 | the same for `pop_cv_` |
| `BlockingQueue.NextKeepsInv` | include/spdlog/details/mpmc_blocking_q.h:31-90 | every step, spurious wake-up and time-out keeps the wake-up balance and conservation |
| `BlockingQueue.EveryRun` | include/spdlog/details/mpmc_blocking_q.h:31-90 | over every run: no wake-up is lost; accepted items are taken, stored or overrun, each once and in order; overrun and discard counters are exact |
| `QueueCalls.EnqueueDoes` | include/spdlog/details/mpmc_blocking_q.h:31-38 | from any state: accepted behind the others if a slot is free, and otherwise nothing but a wait |
| `QueueCalls.EnqueueNowaitDoes` | include/spdlog/details/mpmc_blocking_q.h:41-47 | always accepted; on a full queue exactly the oldest item is overrun and counted |
| `QueueCalls.EnqueueIfRoomDoes` | include/spdlog/details/mpmc_blocking_q.h:49-64 | accepted if and only if a slot is free, refused otherwise; the overrun counter never moves |
| `QueueCalls.DequeueDoes` | include/spdlog/details/mpmc_blocking_q.h:68-90 | takes exactly the front item if there is one, and otherwise nothing but a wait |
| `QueueCalls.DiscardIsCounted` | include/spdlog/details/mpmc_blocking_q.h:61-63 | a refusal ends with one more discard and nothing else |
| `QueueCalls.ExpiryEnds` | include/spdlog/details/mpmc_blocking_q.h:68-79 | a timed wait that expires takes the front item, or gives up on an empty queue with nothing changed |
| `QueueCalls.WakesToTest` | include/spdlog/details/mpmc_blocking_q.h:34-85 | a wait without a time never expires; a spurious wake-up only makes the thread test again |
| `QueueCalls.OthersOnlyWake` | include/spdlog/details/mpmc_blocking_q.h:31-90 | a step of one thread changes another only by waking it with what it asked for |
| `QueueCalls.OnlyNowaitOverruns` | include/spdlog/details/mpmc_blocking_q.h:41-47 | over every run without enqueue_nowait no item is overrun |
| `QueueCalls.OnlyIfRoomRefuses` | include/spdlog/details/mpmc_blocking_q.h:49-64 | over every run without enqueue_if_have_room nothing is refused or counted as discarded |
| `BlockingQueue.QuietMeansBlocked` | include/spdlog/details/mpmc_blocking_q.h:34-85 | if nobody can move, consumers wait only on an empty queue and producers only on a full one |
| `BlockingQueue.WaitsForAReason` | include/spdlog/details/mpmc_blocking_q.h:31-90 | the same in every reachable state |
| `QueueObject.MpmcBlockingQueue.constructor` | include/spdlog/details/mpmc_blocking_q.h:26-27 | an empty ring with the given slots represents the monitor's start |
| `QueueObject.MpmcBlockingQueue.Enqueue` | include/spdlog/details/mpmc_blocking_q.h:31-36 | on the ring object the critical section of enqueue is the monitor's step: it waits exactly when there is no room |
| `QueueObject.MpmcBlockingQueue.EnqueueNowait` | include/spdlog/details/mpmc_blocking_q.h:41-45 | likewise, overrunning the oldest item |
| `QueueObject.MpmcBlockingQueue.EnqueueIfHaveRoom` | include/spdlog/details/mpmc_blocking_q.h:49-57 | likewise, pushing or refusing |
| `QueueObject.MpmcBlockingQueue.CountDiscard` | include/spdlog/details/mpmc_blocking_q.h:61-63 | a refusal is counted |
| `QueueObject.MpmcBlockingQueue.Dequeue` | include/spdlog/details/mpmc_blocking_q.h:82-88 | likewise: takes the front item, or waits exactly when there is none |
| `QueueObject.MpmcBlockingQueue.DequeueExpired` | include/spdlog/details/mpmc_blocking_q.h:68-79 | likewise after the time-out: takes the front item or gives up |
| `ThreadPool.Create` | include/spdlog/details/thread_pool-inl.h:16-33 | refuses exactly worker counts outside 1..1000, and makes that many workers over a queue with the given slots |
| `ThreadPool.Next` | include/spdlog/details/thread_pool-inl.h:44-123 | every step keeps workers, slots and queue bound |
| `ThreadPoolInv.TakeHandled` | include/spdlog/details/thread_pool-inl.h:99-101 | a dequeued message is carried by one worker, on top of the exactly-once history |
| `ThreadPoolInv.TakeTerminates` | include/spdlog/details/thread_pool-inl.h:113-115 | a worker takes a terminate at most once |
| `ThreadPoolInv.OverrunKeeps` | include/spdlog/details/thread_pool-inl.h:83-84 | overrunning a log or flush message keeps both histories |
| `ThreadPoolInv.HandleHandled` | include/spdlog/details/thread_pool-inl.h:103-111 | handing a message to a back end marks it handled once |
| `ThreadPoolInv.PushLast` | include/spdlog/details/thread_pool-inl.h:46-48 | terminates are posted behind everything else |
| `ThreadPoolInv.WorkerStepKeeps` | include/spdlog/details/thread_pool-inl.h:91-123 | every step of a worker keeps the pool invariant |
| `ThreadPoolInv.ClientStepKeeps` | include/spdlog/details/thread_pool-inl.h:79-89 | every step of a poster or of the destructor keeps it |
| `ThreadPoolInv.NextKeepsInv` | include/spdlog/details/thread_pool-inl.h:44-123 | every event keeps it |
| `ThreadPoolInv.CreateInv` | include/spdlog/details/thread_pool-inl.h:16-33 | a new pool has it |
| `PoolPolicies.PostWithRoom` | include/spdlog/details/thread_pool-inl.h:79-89 | while there is room a post is accepted behind the others under every policy, and nothing is lost for it |
| `PoolPolicies.PostWithoutRoom` | include/spdlog/details/thread_pool-inl.h:79-89 | on a full queue block waits, overrun_oldest drops the oldest message and counts it, discard_new drops the new one |
| `PoolPolicies.OnlyOverrunOldestOverruns` | include/spdlog/details/thread_pool-inl.h:83-84 | over every run of a new pool without overrun_oldest posts no message is overrun |
| `PoolPolicies.OnlyDiscardNewRefuses` | include/spdlog/details/thread_pool-inl.h:85-88 | over every run of a new pool without discard_new posts no message is refused |
| `PoolPolicies.BlockingLosesNothing` | include/spdlog/details/thread_pool-inl.h:44-123 | with blocking posts only, when the destructor has returned every message accepted was handled exactly once and none was refused |
| `ThreadPoolShutdown.TerminateBalance` | include/spdlog/details/thread_pool-inl.h:44-53 | terminates posted are those that ended a worker plus those stored |
| `ThreadPoolShutdown.NothingBehindTerminates` | include/spdlog/details/thread_pool-inl.h:44-53 | once all posted terminates are consumed, the queue is empty |
| `ThreadPoolShutdown.AfterDestructor` | include/spdlog/details/thread_pool-inl.h:43-55 | over every run, when the destructor returned: queue empty, each worker exited on exactly one terminate, every accepted message overrun or handled exactly once |
| `ThreadPoolShutdown.StepFalls` | include/spdlog/details/thread_pool-inl.h:44-123 | every effective step of the shutdown lowers the measure |
| `ThreadPoolShutdown.SpuriousRises` | include/spdlog/details/mpmc_blocking_q.h:85 | a spurious wake-up raises it by at most one |
| `ThreadPoolShutdown.Progress` | include/spdlog/details/thread_pool-inl.h:44-55 | with at least one slot somebody can move until the destructor has returned |
| `ThreadPoolShutdown.ShutdownIsBounded` | include/spdlog/details/thread_pool-inl.h:44-55 | no schedule of the shutdown is longer than its work plus twice the spurious wake-ups |
| `ThreadPoolShutdown.CanFinish` | include/spdlog/details/thread_pool-inl.h:44-55 | from every moment of the shutdown the clean end is reachable |
| `ThreadPoolShutdown.NeverFinishes` | include/spdlog/details/thread_pool-inl.h:46-48 | with no slot the destructor never returns, in any schedule |
| `ThreadPoolShutdown.FinishesIffSlots` | include/spdlog/details/thread_pool-inl.h:43-55 | after any use of any pool, a destructor that begins can return if and only if the queue was given at least one slot |
| `RotatingSink.Rotated` | include/spdlog/sinks/rotating_file_sink-inl.h:132-166 | the disk after a rotation, file number by file number, gaps included |
| `RotatingSink.RotationDropsOldest` | include/spdlog/sinks/rotating_file_sink-inl.h:132-166 | a rotation loses exactly the oldest file, and only if the file below takes its place; with a gap just below it loses nothing |
| `RotatingSink.Disk.RenameFile` | include/spdlog/sinks/rotating_file_sink-inl.h:171-176 | target replaced, source gone, the others unchanged |
| `RotatingSink.Disk.Open` | include/spdlog/details/file_helper-inl.h:28-60 | file 0 exists, emptied only when truncating |
| `RotatingSink.Disk.Append` | include/spdlog/sinks/rotating_file_sink-inl.h:123 | the data goes behind what file 0 holds |
| `RotatingSink.RotatingFileSink.Checked` | include/spdlog/sinks/rotating_file_sink-inl.h:43-48 | opens, caches the size, rotates a non-empty file if asked |
| `RotatingSink.RotatingFileSink.Create` | include/spdlog/sinks/rotating_file_sink-inl.h:26-49 | fails exactly for max_size 0 or more than 200000 files and then touches no file |
| `RotatingSink.RotatingFileSink.Rotate` | include/spdlog/sinks/rotating_file_sink-inl.h:138-166 | the descending rename loop produces exactly `Rotated` |
| `RotatingSink.RotatingFileSink.RotateNow` | include/spdlog/sinks/rotating_file_sink-inl.h:73-76 | rotates and leaves the cached size as it was |
| `RotatingSink.RotatingFileSink.SinkIt` | include/spdlog/sinks/rotating_file_sink-inl.h:108-125 | rotates exactly when the cached size would exceed the limit and the file is not empty; appends the message |
| `RotatingSink.KeepsSuffix` | include/spdlog/sinks/rotating_file_sink-inl.h:108-166 | over every sequence of logs and rotations, from any files, numbering gaps or not, the files oldest to newest hold a suffix of the old contents followed by everything logged |
| `RotatingSink.KeepsSuffixFromDisk` | include/spdlog/sinks/rotating_file_sink-inl.h:26-166 | the same from whatever the constructor finds on disk |
| `RotatingSink.RecentSurvives` | include/spdlog/sinks/rotating_file_sink-inl.h:108-166 | over every run with at most max_files rotations, nothing is lost of the active file and of what is logged: it lies in the active file and as many of the newest others as there were rotations |
| `RotatingSink.SuffixReachesBack` | include/spdlog/sinks/rotating_file_sink-inl.h:108-166 | so over every run the suffix that is kept reaches back at least to the start of the active file as it was at any moment since which no more than max_files rotations happened |
| `RotatingSink.CachedSizeIsUpperBound` | include/spdlog/sinks/rotating_file_sink-inl.h:108-125 | the cached size is never below the true size, although rotate_now does not reset it |
| `RotatingSink.ActiveFileIsBounded` | include/spdlog/sinks/rotating_file_sink-inl.h:108-125 | after every log call, in every history, the active file is within the limit or holds just that message |
| `SinkAccount.AccountIsExact` | include/spdlog/sinks/rotating_file_sink-inl.h:73-125 | over every sequence of calls the cached size, file 0 and every archived file agree with an account kept from the calls alone, in which the size restarts at the message of a size-triggered rotation and not at rotate_now |
| `SinkAccount.AccountFromDisk` | include/spdlog/sinks/rotating_file_sink-inl.h:26-125 | the same from whatever the constructor finds on disk |
| `SinkAccount.LogRotatesWhenDue` | include/spdlog/sinks/rotating_file_sink-inl.h:108-125 | after any calls, a log call moves a non-empty file 0 to file 1 and starts file 0 with the message if and only if the account plus the message exceeds max_size; otherwise it appends and touches no other file |
| `SinkAccount.OpeningDoes` | include/spdlog/sinks/rotating_file_sink-inl.h:43-48 | with rotate_on_open and a non-empty file 0: it is emptied, its contents become file 1, no more than the oldest file is lost, the cached size is 0; otherwise every file stays and the cached size is the true one |
| `Pattern.HandleWidth` | include/spdlog/pattern_formatter-inl.h:1288-1302 | the digit loop with its 64-bit wrap and the truncate mark compute the width spec |
| `Pattern.HandlePadSpec` | include/spdlog/pattern_formatter-inl.h:1260-1303 | the padding and the new iterator are those of the leading pad spec |
| `Pattern.TakeFlag` | include/spdlog/pattern_formatter-inl.h:1310-1326 | the percent branch, with the break on an unfinished spec |
| `Pattern.CompilePattern` | include/spdlog/pattern_formatter-inl.h:1305-1339 | the loop computes the pattern's meaning |
| `Pattern.SpecReadsBack` | include/spdlog/pattern_formatter-inl.h:1260-1303 | a printed pad spec is read back as it was, whatever follows its flag |
| `Pattern.CompiledIsNormal` | include/spdlog/pattern_formatter-inl.h:1305-1339 | the compiler's output has no empty or adjacent literal runs and only widths up to 64 |
| `Pattern.CompilesToNormal` | include/spdlog/pattern_formatter-inl.h:1305-1339 | some pattern compiles to a list if and only if it is normal, and printing a normal list and compiling it gives it back |
| `Pattern.CanonicalPattern` | include/spdlog/pattern_formatter-inl.h:1305-1339 | every pattern compiles to the same list as its canonical spelling |
| `Pattern.DoubledShowsItself` | include/spdlog/pattern_formatter-inl.h:1200-1202 | any text with its percent signs doubled renders as itself |
| `PatternSpec.SpecMeaning` | include/spdlog/pattern_formatter-inl.h:1257-1303 | every pad spec, read off its text: the side mark, the decimal number of its digits modulo 2^64 and at most 64, the truncate mark, and how much of the pattern it takes, whatever follows |
| `PatternSpec.MarkWithoutWidth` | include/spdlog/pattern_formatter-inl.h:1269-1286 | a side mark without a width is passed over, whichever it is |
| `PatternSpec.UnfinishedShowsNothing` | include/spdlog/pattern_formatter-inl.h:1316-1326 | a pattern that ends in its spec keeps what was collected before and shows nothing of the spec |
| `Padder.ScopedPadder.constructor` | include/spdlog/pattern_formatter-inl.h:44-61 | writes the padding before the field and keeps the amount left |
| `Padder.ScopedPadder.PadIt` | include/spdlog/pattern_formatter-inl.h:81-84 | appends that many of the 64 spaces |
| `Padder.ScopedPadder.Finish` | include/spdlog/pattern_formatter-inl.h:68-78 | appends what is left, or cuts off what is too much |
| `Padder.Buffer.Append` | include/spdlog/pattern_formatter-inl.h:82-83 | appends at the end |
| `Padder.Buffer.Resize` | include/spdlog/pattern_formatter-inl.h:76 | cuts the end off |
| `Padder.FormatField` | include/spdlog/pattern_formatter-inl.h:109-110 | a field whose announced size is its real one is appended padded or truncated; earlier output is kept |
| `Padder.PaddingLaw` | include/spdlog/pattern_formatter-inl.h:42-78 | output grows by max(width, n), or exactly the width when truncating; the padding is on the right side, centred within one |
| `Padder.NoPaddingShowsField` | include/spdlog/pattern_formatter-inl.h:92-101 | without padding a field is shown as it is |
| `Padder.CompiledPaddingFits` | include/spdlog/pattern_formatter-inl.h:1302 | no padding the compiler produces needs more than 64 spaces |

## Left out

- RingProtocol.MarginRead: the margin is sufficient, not necessary; it allows for the largest frame in flight, of which the reader cannot know the size. `RingProtocol.UntornRead` needs only that each byte was copied in time.
- RingProtocol.UntornRead: a byte copied too late counts as lost even if the byte that replaced it is the same.
- RingRuns.FifoOnEveryRun: in one direction only; a reader that was misled once may have been handed the right bytes by chance.
- RingProtocol.UntornOnEveryRun: the history ends for good with a completed read that copied a byte too late or that the final test rejected, both of which pass over a message, or with an attach that straddles a publish.
- RingProgress.ReadDelivers: the window is required at the end of the call, when it is tightest, and ends where a store reaches the frame or what is announced is a ring ahead; what a call returns that leaves its window is only bounded by `RingMemory.ReadOutcome` and `RingSteps.StepReader`.
- The C++ memory model and the data race on the plain ring bytes; interleavings are sequentially consistent.
- `SharedMemory`, `IWrapper`, `SemaphoreLock`: system calls. The mapped region and the single writer are given.
- Creating a writer again under live readers (src/circularbuffer/Writer.cpp:24-27 resets the state they hold).
- The bookkeeping and assertions compiled only with DEBUG, and all logging.
- BlockingQueue.StepThread: locking is one step per critical section, and the queue of threads at the mutex is not modelled; a waiting thread is woken by a notification, by nothing, or by its time-out.
- BlockingQueue.EveryRun: counters are not reset during a run, and `size` and the counter getters are not called; `CircularQueue.CircularQ` has the reset.
- The MinGW variants of the queue's calls.
- ThreadPool.Next: the pool is a machine over values, not objects; what a back end does with a message is one step, so sinks that throw and the thread start and stop callbacks are not modelled; nobody posts during the destructor.
- Rotating sink: `set_max_size`, `set_max_files`, failing renames, a full disk, stdio buffering, the file event handlers, and the names behind the file numbers. Sizes do not overflow `size_t`.
- Pattern: the formatter behind each flag, custom flags, and what an unknown flag turns into; the model stops at the pair of padding and flag. Characters are ASCII digits or not, without a locale.
- Padder.FormatField: only for fields whose announced size is their real one; `Padder.ScopedPadder.Finish` covers the others.
- Registry, loggers, the other sinks, configuration loading, the applications and benchmarks: input and output or thin wrappers.
