# ShortMessage: a model of its queue, its CRC and its store-and-forward protocol

Three parts of the ShortMessage server are modelled and proved here.

1. **The packet ring buffer** `FifoQueue`. Packets lie in a byte buffer as a 2-byte length and a
   payload; a packet never straddles the end, a skipped tail is marked with a zero length where two
   bytes are left. `Ring.dfy` gives each operation as a function of the whole state and proves that
   it refines a queue of packets, and `Exactness.dfy` exactly when; `QueueRuns.dfy`,
   `FixedLength.dfy`, `Schedules.dfy`, `EmptyPackets.dfy` and `ZeroCopy.dfy` prove whole runs equal to
   runs of an ideal queue; `FifoQueue.dfy` is the class over a real array.
2. **The table-driven CRC-16** over x^16 + x^15 + x^2 + 1. `Division.dfy` is the theory of that
   division on bit strings, `Crc16.dfy` the table and the loop, `CrcErrors.dfy` and `CrcOrder.dfy`
   say exactly which errors go unseen.
3. **The message protocol**: cache, send, retry with growing delay, archive on receipt, over the
   users' satellite coverage. `Server.dfy` holds the tables, the handlers and the retransmission
   daemon, whose pass is split into select, row update and send so that handlers fall between any
   two of them, and `Effects.dfy` spells out what each step does in fields and numbers. `NoLoss.dfy`,
   `Retries.dfy`, `Backoff.dfy`, `KeyReuse.dfy`, `RetryBudget.dfy`, `RetryFrames.dfy`, `Coverage.dfy`
   and `Delivery.dfy` are about its steps and whole runs; `Beams.dfy` and `Coder.dfy` about beams and
   frames; `Passes.dfy` has the undisturbed turn of the daemon, `ServerClasses.dfy` the classes that
   update the tables in place.

`dafny verify dfyconfig.toml` checks everything.

## What turned out not to hold

- **Mixed packet lengths.** The admission test at `src/commons/fifo_queue.cpp:36-39` counts queued
  bytes but not a skipped tail. An admitted push is followed by the right pops, whatever the payload,
  if and only if it has room: `Exactness.RoomIff`; `Ring.RoomIsExact` says which bytes are at stake.
  A whole sequence of calls is handled right for all payloads if and only if every admitted push on
  the way has room, and the lengths alone decide that: `Schedules.ScheduleIff`.
  `QueueRuns.HeadroomIsTight` shows, for every bound of two or more, a run of admitted pushes that
  returns a wrong packet. The queue is correct with the headroom of `QueueRuns.BoundedRefinement`,
  and with one packet length under its own test (`FixedLength.FixedLengthRefinement`).
- **Empty packets.** Length 0 is the wrap marker, so the reader goes to the start of the buffer. An
  empty packet is read back behind whatever is queued if and only if it has room and it is written
  at offset 0 (because the writer stands there or wraps there) or the word at offset 0 is 0 anyway:
  `Exactness.EmptyPacketIff`. Otherwise the reader returns an old packet again
  (`EmptyPackets.ZeroLengthMisread`). Runs of nothing but empty packets are those of a bounded queue:
  `EmptyPackets.EmptyPacketsRefinement`.
- **Zero-copy receiving** needs a buffer whose tail after the last slot is shorter than a payload,
  and that is exact, for the answers of runs (`ZeroCopy.ZeroCopyIsSoundIff`) as for the window
  (`ZeroCopy.WindowIsFreeIff`). Otherwise a refused packet can be popped in place of an accepted one:
  `ZeroCopy.WindowOverrun`.
- **A refused archive insert loses the message**, because its result is ignored after the delete
  (`src/logic/message_manager.cpp:95-97`): exactly when, `NoLoss.NothingLostIff`; a run in which it
  happens, `NoLoss.LossHappens`.
- **A reused key can be retried early.** If a key is cached again while an old copy of it waits for
  its row update, the pass writes the old count and time into the new row. `KeyReuse.DelayKeptIff`
  gives the exact condition, `KeyReuse.HurriedIsReachable` a run under the shipped configuration.
- **The strongest beam is not always used.** Stored SNR passes through an `int32_t` constructor
  parameter (`src/logic/protocol.h:88`) when it is read back, so fractions are lost:
  `Beams.WeakerBeamChosen`. The strongest beam is used if and only if every usable beam of lower id
  has a smaller whole part: `Beams.BestReportedIff`.

## Modelling assumptions

- The host is little-endian and the 64-bit byte counters of the queue do not overflow. Pointers into
  the queue's buffer are offsets. A run step that would touch memory outside it has no result.
- Each queue operation is one step. `PushPacket` and `PopPacket` hold the lock throughout. `Update`
  writes its length word before it takes the lock (`src/commons/fifo_queue.cpp:107`), and payloads are
  received without it; both writes lie in the free window and so commute with every pop and peek
  (`ZeroCopy.WindowWritesCommute`). `PeekNextPackLen` takes no lock: it is a call of the consumer, and
  one that overlaps a push is not modelled.
- A pop on an empty queue waits. `Update` and `PushPacket` are separate producer modes.
- The schema of the message tables is not part of the repository. The key (from, to, frame) is unique
  in `message_cache`, `retry_num` starts at 0, and a lookup without a result leaves a type other than
  0x60. Each handler call and each step of the daemon is atomic; the result set of a select is a
  snapshot in any order. The outcome of every insert is an input.
- Requests of type 0x00, 0x02 and 0x03 are the steps Login, Logout and Mobile, taken with the coverage
  report behind the fixed part of their content; all other requests are one kind of step.
- A coverage report with a beam outside 1..10 stops the server at the assertion of
  `src/tools/database.cpp:90`, so no step of a run follows it.
- SNR is a real number that the database stores exactly; a stored SNR lies within `int32_t`. A
  receipt's content is read as 0 beyond its end.
- Where the source leaves its memory the effect is undefined: a frame longer than its 1024-byte
  buffer, which is a text of more than 1011 bytes (`Coder.HeadFits`), and a report shorter than its
  count byte says. There the encoders and the parser return None, and the methods that encode return
  false; the theorems about runs hold for texts of any length.

## Model

| member | source | states |
|---|---|---|
| Ring.PushRefines | src/commons/fifo_queue.cpp:30-57 | An admitted push with room, linear, wrapping or wrapped, appends exactly its packet; every unread packet and marker stays. |
| Ring.RoomIsExact | src/commons/fifo_queue.cpp:36-51 | An admitted push writes over an unread byte or a pending wrap marker if and only if it has no room. |
| Ring.PopRefines | src/commons/fifo_queue.cpp:59-84 | A pop from a non-empty queue stays in bounds, returns the oldest packet byte for byte and leaves the rest, across markers and skipped tails. |
| Ring.PeekRefines | src/commons/fifo_queue.cpp:86-102 | A peek reports the length of the next pop, or 0, moves the reader to the length word that pop will read, across a marker or a skipped tail, and leaves everything queued. |
| Ring.Accounting | src/commons/fifo_queue.cpp:36-82 | write_bytes_ - read_bytes_ is the sum of the framed lengths queued and at most the buffer size. |
| Ring.RepIsFunctional | src/commons/fifo_queue.cpp:59-84 | One buffer state represents at most one queue of packets, whatever layout is read into it. |
| Ring.PacketLengths | src/commons/fifo_queue.h:8-11 | Packets have 1 to 65534 bytes and lie behind a two-byte length, low byte first. |
| QueueRuns.BoundedRefinement | src/commons/fifo_queue.cpp:25-102 | Lengths up to M, each push with used + len + M + 3 <= N: every run of push, pop, peek and reset answers as an unbounded ideal queue does. |
| QueueRuns.HeadroomIsTight | src/commons/fifo_queue.cpp:36-51 | For every M >= 2 and N = 2M + 2 a run of pushes that all pass the code's test and miss the headroom by one byte pops a wrong packet. |
| QueueRuns.IdealHistory | src/commons/fifo_queue.cpp:25-84 | In an ideal run, what was popped since the last reset followed by what is queued is what was accepted since then. |
| Exactness.RoomIff | src/commons/fifo_queue.cpp:30-84 | From any state that represents a queue: after an admitted push the pops return the queue and then the packet, for every payload of that length, if and only if the push has room. |
| Exactness.EmptyPacketIff | src/commons/fifo_queue.cpp:36-84 | From any such state: after an admitted empty packet the pops return the queue and then an empty packet if and only if it has room and the writer stands at 0, wraps to 0, or the buffer's first word is 0. |
| Schedules.ScheduleIff | src/commons/fifo_queue.cpp:25-102 | For every buffer and every sequence of calls with given packet lengths: all payloads are answered right and would drain right at every point if and only if every admitted push on the way has room, which sizes and lengths alone decide. |
| Schedules.RoomRefinement | src/commons/fifo_queue.cpp:25-102 | A run of mixed lengths in which every admitted push has room is a run of the ideal queue that accepts by the code's own test on bytes. |
| EmptyPackets.EmptyPacketsRefinement | src/commons/fifo_queue.cpp:25-102 | Runs of empty packets only: every call is answered as by a queue of capacity N / 2 (peek by 0), for every buffer; nothing is read or written outside. |
| EmptyPackets.ZeroLengthMisread | src/commons/fifo_queue.cpp:74-78 | Behind a one-byte packet on a fresh ring, an empty packet reads as a wrap marker and the pop returns the old packet again. |
| FixedLength.AdmissionCounts | src/commons/fifo_queue.cpp:36-39 | The admission test for length L holds exactly while fewer packets are queued than the slot capacity: K if N mod (L+2) >= L, else K - 1. |
| FixedLength.FixedLengthRefinement | src/commons/fifo_queue.cpp:25-102 | One packet length under the code's own test: every run answers every call as a bounded queue of that capacity does, for every buffer and length. |
| FixedLength.FirstInFirstOut | src/commons/fifo_queue.cpp:25-84 | In every such run, popped since the last reset followed by queued is accepted since the last reset. |
| ZeroCopy.UpdateIsPush | src/commons/fifo_queue.cpp:105-130 | Until its pointer wraps, an accepted Update does to the ring what a push of the received bytes would. |
| ZeroCopy.ZReject | src/commons/fifo_queue.cpp:105-115 | A refused Update has already written a length word, but inside the free window: queue and pointer stay. |
| ZeroCopy.ZeroCopyRefinement | src/commons/fifo_queue.cpp:59-130 | With a tail shorter than a payload, every run of Update, pop and peek is a run of a bounded queue, and after it the receive window is in the buffer and free of unread bytes. |
| ZeroCopy.WindowOverrun | src/commons/fifo_queue.cpp:105-123 | With a longer tail, fill every slot and offer one more packet: it is refused, and the next pop returns it in place of the oldest accepted one. |
| ZeroCopy.ZeroCopyIsSoundIff | src/commons/fifo_queue.cpp:59-130 | Every run of zero-copy receiving is answered as by a bounded queue if and only if N mod (L+2) < L; so for answers and window together. |
| ZeroCopy.WindowIsFreeIff | src/commons/fifo_queue.cpp:105-123 | The receive window lies in the buffer and on nothing unread after every run if and only if N mod (L+2) < L. |
| ZeroCopy.WindowWritesCommute | src/commons/fifo_queue.cpp:105-109 | Whatever the producer writes into its window without the lock, a payload or the next length word, may come before or after any pop or peek: same answer, same ring. |
| FifoQueueClass.FifoQueue.constructor | src/commons/fifo_queue.cpp:8-23 | A new queue is empty, laid out from the start of its buffer, and valid under whichever regime the client chooses: free, bounded lengths, or one length. |
| FifoQueueClass.FifoQueue.Reset | src/commons/fifo_queue.cpp:25-28 | From any state the ring is as new over its buffer, positions and counters 0; the queue is empty and valid under its regime. |
| FifoQueueClass.FifoQueue.PushLocked | src/commons/fifo_queue.cpp:30-57 | The in-place body on the array equals the push function of the ring, with the admission test as its answer. |
| FifoQueueClass.FifoQueue.PopLocked | src/commons/fifo_queue.cpp:59-84 | The in-place body equals the pop function of the ring, packet and new state. |
| FifoQueueClass.FifoQueue.PeekUnlocked | src/commons/fifo_queue.cpp:86-102 | The in-place body equals the peek function of the ring. |
| FifoQueueClass.FifoQueue.PushPacket | src/commons/fifo_queue.cpp:30-57 | Any packet below the length limit is pushed as the ring function says. On a valid queue and within its regime it is appended exactly when it is admitted, else nothing changes, and the queue stays valid; under the bounded regime it is always admitted, under one length exactly below the slot capacity. |
| FifoQueueClass.FifoQueue.PopPacket | src/commons/fifo_queue.cpp:59-84 | On a valid queue with something to read: removes and returns the oldest packet; the regime's invariant stays. |
| FifoQueueClass.FifoQueue.PeekNextPackLen | src/commons/fifo_queue.cpp:86-102 | On a valid queue: the next packet's length or 0, contents unchanged; the regime's invariant stays. |
| FifoQueueClass.FifoQueue.Update | src/commons/fifo_queue.cpp:105-130 | The in-place body equals the zero-copy update function: header, test, eager wrap of the caller's pointer, marker. |
| Crc16.CRC_16 | src/commons/CRC_16.cpp:64-70 | The loop returns the table CRC of its input; unswapped, its bits are the remainder of long division of the message, start value added, by the polynomial. |
| Crc16.TableEntry | src/commons/CRC_16.cpp:13-46 | Each of the 256 table entries is eight bit steps of its index in the top byte. |
| Crc16.ByteIsFed | src/commons/CRC_16.cpp:58-62 | One table step is the feeding of the byte's eight bits, most significant first, into the division register. |
| Crc16.LoopIsBitSerial | src/commons/CRC_16.cpp:58-70 | For every start value and message the table loop is the bit-serial register. |
| Crc16.LoopIsLongDivision | src/commons/CRC_16.cpp:58-70 | For every start value and message the table loop is the remainder of schoolbook long division. |
| Division.FeedIsRemainder | src/commons/CRC_16.cpp:11-70 | The sixteen-bit register after any bits is the remainder of the message times x^16. |
| Division.DivisionIdentity | src/commons/CRC_16.cpp:11-13 | Dividend = quotient * polynomial + remainder over GF(2). |
| Division.FeedIsLinear | src/commons/CRC_16.cpp:58-70 | The register is xor-linear in start value and message together. |
| Division.FeedIsInjective | src/commons/CRC_16.cpp:58-70 | No sequence of bit steps forgets the register. |
| CrcErrors.UndetectedIffDivisible | src/commons/CRC_16.cpp:58-70 | Two messages of equal length share a CRC if and only if the polynomial divides their difference, whatever the start value. |
| CrcErrors.BurstDetected | src/commons/CRC_16.cpp:13-70 | Different messages of equal length that differ only within sixteen consecutive bits, byte-aligned or not, have different CRCs. |
| CrcErrors.SeventeenBitBurstUndetected | src/commons/CRC_16.cpp:13-70 | Sixteen is the limit: a difference in the shape of the polynomial goes unseen at every position. |
| CrcErrors.RegisterParity | src/commons/CRC_16.cpp:58-70 | The parity of the register is the parity of the start value plus that of all message bits. |
| CrcErrors.OddErrorsDetected | src/commons/CRC_16.cpp:58-70 | An odd number of flipped bits always changes the CRC. |
| CrcErrors.CrcSplit | src/commons/CRC_16.cpp:64-70 | The CRC of a concatenation is the CRC of the second part started from the first part's, swapped back. |
| CrcErrors.CheckBytes | src/commons/CRC_16.cpp:58-70 | The loop over a message and two bytes ends in 0 if and only if these are the returned CRC as it lies in memory. |
| CrcOrder.OrderOfX | src/commons/CRC_16.cpp:11-13 | x^n is 1 modulo the polynomial if and only if 32767 divides n. |
| CrcOrder.TwoFlips | src/commons/CRC_16.cpp:58-70 | Two flipped bits go unseen if and only if their distance is a multiple of 32767. |
| Coder.MessageEncodeHead | src/logic/coder.cpp:45-60 | The encoder writing into its 1024-byte buffer produces the frame of the request, addressee first, network order, text closed by a NUL, exactly when the frame fits. |
| Coder.MessageEncodeItem | src/logic/coder.cpp:62-77 | The same for a message from the cache, whose frame is as long as its text even behind an inner NUL. |
| Coder.HeadFits | src/logic/coder.cpp:46-57 | A frame fits the buffer if and only if its text has at most 1011 bytes. |
| Coder.HeadBytes | src/logic/coder.cpp:45-60 | Every byte of a request's frame: addressee, sender, frame number, each most significant byte first, type, retain, the content up to its first NUL, a NUL. |
| Coder.ItemBytes | src/logic/coder.cpp:62-77 | The same for a message from the cache. |
| Coder.HeadRoundTrip | test/LogicServer/src/logic/protocol.h:66-73 | Reading a frame under the downlink layout gives back every field, the text cut at its first NUL. |
| Coder.FramesAreInjective | src/logic/coder.cpp:45-60 | Two requests share a frame if and only if they agree in all fields up to the first NUL of the content. |
| Coder.RetryFrame | src/logic/coder.cpp:62-77 | The frame of the cached message is the original frame with the retain byte 0. |
| Beams.UpdateSateCover | src/tools/database.cpp:87-92 | The loop stores the coverage row of the report. |
| Beams.CoverOfLast | src/tools/database.cpp:88-92 | The stored SNR of a beam is that of its last entry in the report. |
| Beams.CoverOfAbsent | src/tools/database.cpp:88-92 | A beam the report does not mention is stored as -1. |
| Beams.GetSateCover | src/tools/database.cpp:120-140 | The loop returns, in increasing order, an entry for each positive SNR of the row and no other: beam b with satellite (b+1)/2 and the SNR cut to a whole number. |
| Beams.ReadBackExact | src/tools/database.cpp:126-132 | An entry comes back if and only if its beam has positive stored SNR, its satellite s has 2s - 1 <= beam <= 2s, and its SNR is the whole part; the order is strictly increasing. |
| Beams.SelectBeam | src/workmanager/send_helper.cpp:47-60 | The loop finds nothing if no entry is usable, else the first usable entry of maximal SNR. |
| Beams.DeliveryChoice | src/workmanager/send_helper.cpp:47-60 | Over stored coverage a beam is chosen if and only if a configured beam has positive SNR; it has the greatest whole-number SNR and the lowest id among equals. |
| Beams.BestReportedIff | src/logic/protocol.h:86-97 | Whenever some beam is usable there is one of greatest reported SNR, lowest id on ties, say t. The chosen beam has the greatest SNR reported, and is t, if and only if every usable beam of lower id than t has a smaller whole part. |
| Beams.WeakerBeamChosen | src/logic/protocol.h:86-97 | With beams at 2.25 and 2.75 the weaker one is chosen. |
| NoLoss.StepConserves | src/logic/message_manager.cpp:19-112 | Every step keeps: held before plus accepted is held after plus dropped, as multisets; cached rows stay of type 0x60. |
| NoLoss.RunConserves | src/logic/message_manager.cpp:46-112 | The same over every run, however handlers and daemon interleave. |
| NoLoss.NothingLostIff | src/logic/message_manager.cpp:82-112 | Cached plus archived equals what was held plus accepted if and only if no matching receipt met a refused archive insert. |
| NoLoss.LossHappens | src/logic/message_manager.cpp:95-97 | From empty tables, a message is accepted and acknowledged by its addressee, the archive insert is refused, and it is in neither table. |
| NoLoss.OnlyReceiptsMove | src/logic/message_manager.cpp:82-112 | A row leaves the cache if and only if the step is a 0x80 receipt from its addressee naming 0x60, its sender and frame; it is then archived, if the insert succeeds, with the two users exchanged, its text and receive time, and the time of the receipt as send time. |
| NoLoss.ReceiptsAreIdempotent | src/logic/message_manager.cpp:82-112 | A repeated receipt, and one that matches nothing, changes nothing. |
| NoLoss.AckedWasCached | src/logic/message_manager.cpp:46-72 | Every acknowledgement of a run was sent by a step that put the named message into the cache. |
| Effects.CompleteEffect | src/logic/message_manager.cpp:46-54 | Type 0x60: with a successful insert and its own (from, to, frame) free, exactly that row is added, with its text, received now, count 0, first retry ten seconds on; otherwise nothing happens. |
| Effects.SimpleEffect | src/logic/message_manager.cpp:19-31 | Type 0x40: with a successful insert exactly one archive row is added, sender first, received and sent now; otherwise nothing happens. |
| Effects.ReceiptEffect | src/logic/message_manager.cpp:82-97 | Type 0x80: the named 0x60 row leaves the cache and is archived, if the insert succeeds, addressee first, with its own text and receive time, sent now; any other receipt does nothing. |
| Effects.OtherRequests | src/workmanager/LogicInterfaceHandler.cpp:23-53 | A request of any type without a handler body, and a receipt too short to name a row, does nothing. |
| Effects.ReportsEnabled | src/tools/database.cpp:89-92 | A report is processed if and only if its beams are 1 to 10; a login of an unknown user always is. |
| Effects.LoginEffect | src/logic/mobile_manager.cpp:14-73 | A login changes only the coverage row of a known user that has one, and only on a non-empty report. |
| Effects.MobileEffect | src/logic/mobile_manager.cpp:102-139 | A coverage report changes only the row of its user, if there is one, and only if it is not empty. |
| Effects.LogoutEffect | src/logic/mobile_manager.cpp:75-100 | A logout sets all ten SNRs of its user's row to -1 and changes no other row. |
| Effects.SelectEffect | src/tools/database.cpp:316-329 | The select takes exactly the rows with retry_num < max_retry_count and retry_time <= now, each once, with key, type, text and count as they stand. |
| Effects.UpdateEffect | src/tools/database.cpp:330-340 | The update writes count n + 1 and time now + (n + 1) * interval into the row if it is still cached, and changes nothing else. |
| Effects.SendEffect | src/tools/qos_send_daemon.cpp:50-60 | The batch goes out from its front; sends touch only the log. |
| Retries.RunStaysDistinct | src/tools/qos_send_daemon.cpp:45-63 | In every reachable state a pass carries each key at most once. |
| Retries.NoResurrection | src/tools/qos_send_daemon.cpp:45-63 | A key that left the cache and is not cached again stays out, and copies sent plus copies carried by the pass never grow. |
| Retries.AfterReceipt | src/logic/message_manager.cpp:82-112 | After a receipt landing anywhere in a pass at most one further copy leaves, none if the pass does not carry the message. |
| Retries.QuietForGood | src/tools/qos_send_daemon.cpp:45-63 | Once the pass no longer carries it, no later pass sends a copy. |
| Backoff.RetriesAreBoundedAndDelayed | src/tools/database.cpp:316-341 | A message cached at t0 is selected at most max_retry_count times, and retry j + 1 comes no earlier than t0 + 10 + interval * j * (j + 1) / 2, if no old copy of its key waits and the key is not cached again. |
| KeyReuse.DelayKeptIff | src/tools/database.cpp:316-341 | The delays are kept in every continuation if and only if no old copy of the key waits whose pass time plus next delay falls before t0 + 10 within the cap. |
| KeyReuse.HurriedRun | src/tools/database.cpp:316-341 | Otherwise the pass can end and the next one select the message within ten seconds of its arrival. |
| KeyReuse.HurriedIsReachable | src/tools/database.cpp:316-341 | With three retries at intervals of ten this state is reached in three steps. |
| RetryBudget.CappedStep | src/tools/database.cpp:319-340 | Every step keeps retry_num <= max_retry_count for all rows, keys reused or not. |
| RetryBudget.SlackStep | src/tools/database.cpp:331-340 | The sum of retries left over all cached rows falls strictly with each update of a row still present and rises, by max_retry_count, only when a message is cached. |
| RetryBudget.RetriesAreBudgeted | src/tools/database.cpp:316-341 | A run makes at most as many row updates as its first rows had left plus max_retry_count for each message cached. |
| RetryFrames.RetriesRepeatTheFrame | src/tools/qos_send_daemon.cpp:50-60 | Every retry in a run from an empty cache is the frame of a request accepted in that run with the retain byte 0, and its fields read back. |
| RetryFrames.DeliveriesCarryTheFrame | src/logic/message_manager.cpp:46-80 | Every first delivery in such a run is the frame of an accepted request as it is, and its fields read back. |
| Coverage.CoverIsLatest | src/logic/mobile_manager.cpp:14-139 | After any run a user's coverage row is what the latest stored report or logout leaves; users without a row never get one. |
| Coverage.StepUses | src/logic/message_manager.cpp:19-80 | Every message, acknowledgement and retry a step sends goes out on the beam chosen from the addressee's coverage at that step. |
| Coverage.SendsFollowReports | src/tools/qos_send_daemon.cpp:50-59 | Over whole runs a send uses a beam of the user's latest stored report, last reported with positive SNR; none is sent after a logout until the next stored report. |
| Delivery.SimpleSends | src/logic/message_manager.cpp:19-40 | An archived 0x40 message is sent once, on the best beam, exactly when a configured beam covers the addressee; a refused one not at all. |
| Delivery.CompleteSends | src/logic/message_manager.cpp:46-80 | An accepted 0x60 message is acknowledged to a covered sender and then delivered to a covered addressee, once each; one not accepted sends nothing. |
| Delivery.RetrySends | src/tools/qos_send_daemon.cpp:50-60 | A message of the batch goes out once, on the best beam, exactly when its addressee is covered. |
| Delivery.SendStepSends | src/tools/qos_send_daemon.cpp:50-60 | The daemon's step sends the item (to, from, frame, type, retain 0, text) of the front of its batch, once to a covered addressee, else not at all. |
| Delivery.LoginSends | src/logic/mobile_manager.cpp:14-73 | A login is answered once on the first entry of greatest SNR whose beam is configured, known user or not; not at all on an empty or unusable report. |
| Delivery.MobileSends | src/logic/mobile_manager.cpp:102-139 | A coverage report likewise. |
| Delivery.LogoutSends | src/logic/mobile_manager.cpp:92-98 | A logout is answered once on the beam to use in the coverage from before it, or not at all without such coverage. |
| Delivery.PassRetriesExactlyTheDue | src/tools/qos_send_daemon.cpp:45-63 | An undisturbed pass sends one copy of every due message to a covered addressee, raises its row, and leaves every other row and count of copies alone. |
| ServerClasses.Database.GetAllOfflineMessage | src/tools/database.cpp:316-347 | The loop returns the due rows in the database's order and leaves each with its count raised and its time moved by count times interval. |
| ServerClasses.SendHelper.SendMessage | src/workmanager/send_helper.cpp:47-60 | Logs one send on the chosen beam, or nothing. |
| ServerClasses.LogicServer.ProcessSimpleMessage | src/logic/message_manager.cpp:19-40 | In-place handler equal to the 0x40 function of the tables; it leaves its memory exactly for an archived message to a covered user whose frame does not fit. |
| ServerClasses.LogicServer.ProcessCompleteMessage | src/logic/message_manager.cpp:46-80 | In-place handler equal to the 0x60 function: cache, acknowledge, send, in that order; it leaves its memory exactly for an accepted message to a covered user whose frame does not fit. |
| ServerClasses.LogicServer.ProcessReceipt | src/logic/message_manager.cpp:82-112 | In-place handler equal to the receipt function; other cached rows stay. |
| ServerClasses.LogicServer.ProcessLogin | src/logic/mobile_manager.cpp:14-73 | In-place handler equal to the login function: nothing on an empty report, no store for an unknown user, answer over the reported beams. |
| ServerClasses.LogicServer.ProcessMobileRequest | src/logic/mobile_manager.cpp:102-139 | In-place handler equal to the coverage-report function. |
| ServerClasses.LogicServer.ProcessLogout | src/logic/mobile_manager.cpp:75-100 | In-place handler equal to the logout function: the answer uses the coverage from before. |
| ServerClasses.LogicServer.Pass | src/tools/qos_send_daemon.cpp:45-63 | One undisturbed turn of the daemon's loop: all row updates, then all sends; it leaves its memory exactly if a due text for a covered user does not fit. |
| Passes.PassIsARun | src/tools/qos_send_daemon.cpp:45-63 | The undisturbed turn is a run of the daemon's atomic steps, so it is one of the interleavings the theorems cover. |
| ServerClasses.ParseReport | src/logic/mobile_manager.cpp:105-120 | The pointer-advancing loop reads as many entries as the count byte says, six bytes each: satellite, beam, four bytes of SNR. It leaves its memory exactly if fewer than 2 + 6 * count bytes are there. |
| ServerClasses.ReportRoundTrip | src/logic/mobile_manager.cpp:105-120 | A whole report written by a terminal, of SNRs that four bytes can hold, is parsed back entry for entry, whatever bytes follow it. |

## Left out

- What the source does once it has left its memory: a frame longer than its buffer, a report shorter than its count byte says.
- Histories that go on after an empty packet was misread, or after one was read back from elsewhere than the writer's place.
- Generated RPC code, sockets, thread pools, and what happens in `SendMessage` after a beam is chosen: a send is one entry of a log.
- SQL text, connections, pooling and database exceptions other than a refused insert; a handler call whose connection fails.
- `ResponseEncode`, the frames of acknowledgements and answers, and the number of waiting messages in a login answer.
- Interleaving inside one handler call, such as a second receipt between the lookup and the delete of `ProcessReceipt`.
- Mixing `Update` and `PushPacket` on one queue, resetting a queue in the zero-copy mode, and peeking from outside the consumer or during a push.
- The IEEE 754 reading of SNR, its decimal formatting in SQL, not-a-number, and values outside `int32_t`.
- Handlers without a body (0x50, 0x51), inquiries (0x70), user management, configuration, logging, start-up and the test programs apart from the downlink layout.
