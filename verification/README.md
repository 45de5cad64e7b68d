# EmbeddedMQ, modelled and proved

EmbeddedMQ is an in-process message queue written in C. This project models its core in Dafny and proves what its
queues, logs and protocols promise. `dafny verify dfyconfig.toml` checks everything.

Code that updates memory in place is modelled by classes, arrays and loops that follow the C code branch by branch;
each method is tied to a value (a queue, a map, a list of messages, a set of timers), and the promises are lemmas about
those values and about whole runs. Concurrent code is modelled as steps of threads that interleave freely.

**Timing wheel** (`WheelMath`, `TimerBags`, `FlatTimers`, `TimerWheel` in `WheelMath.dfy`, `Wheel.dfy`). The cursors are
the digits of a base-256 counter. For any number of levels and any history the wheel is a flat set of timers: a tick
call that advances fires exactly what is due and keeps exactly the rest.

**Durable log** (`Bytes`, `Crc`, `Record`, `RecordV3`, `Blob`, `Segment`, `LogDisk`, `LogRecovery`, `LogMeta`,
`LogView`, `Log`, `LogCrash`, `LogCompact`, `LogOpen`, `LogReopen`, `LogHistory`). Files are byte sequences. Table-driven CRCs are
division bit by bit; records and blob frames decode to what was encoded; recovery gives back the longest prefix that a
crash left whole; a metadata write is atomic even when torn; compaction, interrupted anywhere, loses no retained message.
The entry buffer is a sequence with contiguous offsets, and the hot set is invisible to readers. Over a whole life, from an
empty directory on, with reopenings and crashes, a log is a list of messages of which the first have been trimmed.

**MPMC ring** (`Mpmc`). Every load, compare-and-swap and store of any number of pushing and popping threads is a step.
Nothing is lost, copied twice or overtaken, a call that runs alone returns, and one that competes is held up only by others
that get through.
**Blocking pop** (`Wakeup`). Producer, consumer, the `waiters` and `seq_wait` words and the futex, step by step.

**Delivery** (`Inflight`, `DeliveryModel`, `Delivery`). First-in-first-out, last-in-first-out and priority queues, at
least once and at most once, with acknowledgement, redelivery, time to live and trimming of the log.

**Byte rings** (`FrameRing`, `Lfq`, `Ipc`). Frames with wrap padding in a circular buffer refine a queue of messages that
refuses one exactly when there is no place for it; loans are stable, and it is said when releasing one late is harmless.

**Indexes** (`Registry`, `Topic`, `Fanout`, `Bitmap`, `Sched`). A tombstone hash index refines a map; the topic matcher
is matching level by level; every subscriber reads exactly what was routed to it; the summary bitmap is exact; ready
queues are served in the order of their activation. In `Bitmap` a machine word is the set of the positions of its ones.

Where the code differs from its own description, the model follows the code:

* The comment above the topic matcher (`core/src/routing/emq_routing.c:22-25`) says that `#` is zero or more levels.
  After a `*` the code asks for one level at least. `Topic.MatchesAsDocumented` says exactly when the two agree.
* A deactivated queue leaves its entry in the ready ring. A pop that meets it returns nothing from that band, and such
  entries can fill the ring. `Sched.TakesOldestIff` says exactly when the oldest entry is returned, `Sched.Drained` that
  no active queue is lost nevertheless.
* When padding is smaller than a header, the writes that clear the rest of the padding header go beyond the end of the
  buffer (`core/src/core/emq_lfq.c:50-54`). `Lfq.Ring.TryPush` says exactly when, `Lfq.OverrunExample` shows it, and
  `Lfq.NeverOverruns` which message sizes avoid it. The ring model writes the header as far as it lies in the buffer.
* `emq_lfq_release_claim` checks nothing (`core/src/core/emq_lfq.c:258-267`). `Lfq.Ring.ReleaseClaim` says when a late or
  second release is harmless, and that it leaves no ring in order when more than the lent message was taken.
* `emq_ipc_release` recognises a loan by the status word at its place alone (`transport/ipc/src/emq_ipc.c:529-532`). A copy
  of a loan that was released is refused until the producer comes round; `Ipc.StaleExample` shows one accepted after that.
* A message with a lifetime or a delivery time goes to the log of a queue on the byte ring and wakes nobody
  (`core/src/primitives/emq_fifo.c:104-134`). `Wakeup.StrandedByLog` and `Wakeup.NeverStranded` say when that matters.
* `emq_log_set_blob_threshold` records the trim without syncing the segments (`core/src/core/emq_log.c:1173-1189`). If a crash
  then leaves the files shorter than the trim, the log opens, but what is appended next is taken for trimmed when it is
  opened again. `LogHistory.AppendedIsListed` gives the exact condition, `LogHistory.GapExample` an input.
* A crash between cutting a corrupt segment and removing those behind it leaves these to be read at wrong offsets
  (`core/src/core/emq_log.c:617-620`, `core/src/core/emq_log.c:669-672`). `LogRecovery.InterruptedRecovery` says exactly when.

## Model

| member | source | states |
|---|---|---|
| WheelMath.PeriodsIsQuotient | core/src/sched/emq_wheel.c:134-150 | the cursor of level L after n ticks is digit L of n in base 256 |
| WheelMath.Carry | core/src/sched/emq_wheel.c:134-150 | a level advances exactly when the one below rolls over to zero |
| WheelMath.DueTickIsFirst | core/src/sched/emq_wheel.c:68-75 | the tick count computed for a deadline is the first at which the clock has reached it |
| WheelMath.NarrowRoundsDown | core/src/sched/emq_wheel.c:77-93 | climbing a level during insertion only loses time, strictly so from level 1 on |
| WheelMath.CoarseDistance | core/src/sched/emq_wheel.c:77-93 | a timer put k slots ahead on a coarse level is drained strictly before its tick |
| WheelMath.InsertIsPlaced | core/src/sched/emq_wheel.c:77-93 | for any number of levels and any deadline, insertion picks a slot that is drained in time: at level 0 on the due tick itself or already due, above that strictly before |
| WheelMath.PlacedAfterTick | core/src/sched/emq_wheel.c:152-185 | a slot that a tick does not drain stays a safe place for its timers |
| WheelMath.CascadedIsEarly | core/src/sched/emq_wheel.c:134-150 | what is cascaded out of a coarse slot is due strictly after the tick that drains it |
| TimerWheel.Wheel.constructor | core/src/sched/emq_wheel.c:28-46 | a new wheel is empty; tick and level count default to 1 and 4 |
| TimerWheel.Wheel.TicksUntil | core/src/sched/emq_wheel.c:68-75 | the number of ticks until the first one at or after the deadline |
| TimerWheel.Wheel.InsertLocked | core/src/sched/emq_wheel.c:77-93 | adds one timer and keeps everybody in a safe slot |
| TimerWheel.Wheel.Schedule | core/src/sched/emq_wheel.c:95-108 | the pending timers gain exactly this one |
| TimerWheel.Wheel.Cancel | core/src/sched/emq_wheel.c:110-132 | removes exactly the timers with the cookie, at whatever level they are, and says whether there was one |
| TimerWheel.Wheel.Cascade | core/src/sched/emq_wheel.c:134-150 | loses and invents no timer, restores the placement of all levels, and terminates |
| TimerWheel.Wheel.Step | core/src/sched/emq_wheel.c:152-185 | one tick fires only what is due and leaves nothing that is due |
| TimerWheel.Wheel.Tick | core/src/sched/emq_wheel.c:152-185 | a call that advances fires exactly the timers with deadline <= the new clock, in order of due tick, keeps exactly the others, and returns their number |
| TimerWheel.Wheel.Replay | core/src/sched/emq_wheel.c:95-185 | over every history of schedule, cancel and tick the wheel behaves as the flat set of timers |
| FlatTimers.FlatStepIsExact | core/src/sched/emq_wheel.c:152-185 | the flat description leaves no freedom: it determines what fires and what stays pending |
| FlatTimers.TimersAreConserved | core/src/sched/emq_wheel.c:95-185 | at every point of a run the timers scheduled are, as multisets, those pending, fired and cancelled |
| FlatTimers.NoTimerIsLate | core/src/sched/emq_wheel.c:152-185 | a timer that fires was not overdue at the tick call before, unless it was scheduled since |
| Crc.MakeTable | core/src/core/emq_crc.c:13-37 | entry b of the table is byte b divided out bit by bit |
| Crc.LowByteDecides | core/src/core/emq_crc.c:39-48 | eight steps of the division depend on the low byte alone, up to a shift |
| Crc.TableUpdate | core/src/core/emq_crc.c:39-63 | the table-driven loop equals division bit by bit (section 8 of RFC 1952 for CRC-32), for all data |
| Crc.UpdateComposes | core/src/core/emq_crc.c:39-63 | updating over two pieces is updating over their concatenation |
| Crc.CheckValues | core/tests/test_crc.c:6-8 | the CRC-32 of "123456789" is 0xCBF43926, and its CRC-32C 0xE3069283 |
| Record.DecodeEncode | core/src/core/emq_record.c:24-69 | decoding an encoded v2 record gives it back, whatever bytes follow |
| Record.EncodeDecode | core/src/core/emq_record.c:24-69 | only images of records decode: what is decoded encodes to the same bytes |
| Record.CoveredByCrc | core/src/core/emq_record.c:12-22 | the check value of an inline record is the CRC-32 of header and payload as one message |
| Record.FieldPlaces | core/src/core/emq_record.h:23-36 | at which byte offset of a v2 header each field lies, and which magic number and version stand in front |
| RecordV3.DecodeEncode | core/src/core/emq_record.c:100-204 | the same round trip for v3 records, with and without extension |
| RecordV3.EncodeDecode | core/src/core/emq_record.c:100-204 | only images of v3 records decode |
| RecordV3.CoveredByCrc | core/src/core/emq_record.c:83-98 | the v3 check value is the CRC-32C of header, extension and inline payload as one message |
| RecordV3.FieldPlaces | core/src/core/emq_record.h:38-52 | the same for v3 headers and their extension |
| Blob.Read | core/src/core/emq_log.c:439-463 | reading in chunks accepts exactly what a check of the whole payload accepts |
| Blob.ReadIsWhole | core/src/core/emq_log.c:439-509 | a read succeeds if and only if the whole frame of that payload is there |
| Blob.Append | core/src/core/emq_log.c:492-509 | adds one whole frame behind the others |
| Blob.FramePlaces | core/src/core/emq_log.c:33-37 | a frame is magic number, length, CRC-32 of the payload, payload |
| Blob.Recover | core/src/core/emq_log.c:465-490 | keeps whole frames and stops where none follows |
| Blob.CutKeepsWholeFrames | core/src/core/emq_log.c:465-490 | after a cut anywhere a frame is kept if and only if it ends within the cut |
| Segment.Recover | core/src/core/emq_log.c:541-623 | the scanning loop gives the one reading that the bytes allow: records that are whole with their payloads, and behind them nothing or 64 zero bytes (clean), a header with the magic number and a version other than 2 (foreign), or anything else that no record starts (corrupt) |
| Segment.StepMeans | core/src/core/emq_log.c:557-601 | which verdict is given at a place, in terms of the bytes there |
| Segment.ReadsIsScan | core/src/core/emq_log.c:541-623 | whatever the bytes of a segment can be read as, the scan reads it so |
| Segment.WrongMagic | core/src/core/emq_log.c:570-573 | where the magic number does not stand no record starts |
| Segment.EntryPlaces | core/src/core/emq_log.c:577-587 | bit 0 of the flags says that the payload follows the header, and else bit 1 that it is in the blob file; never both |
| Segment.EntryChecked | core/src/core/emq_record.c:12-22 | the check value in every record is the CRC-32 of its bytes with a zero in its own place |
| Segment.StepOfCut | core/src/core/emq_log.c:541-623 | a record that was cut counts as corrupt |
| Segment.StepOfLost | core/src/core/emq_log.c:541-623 | a record whose payload was cut off the blob file counts as corrupt |
| Segment.ScanOfCut | core/src/core/emq_log.c:541-623 | a segment cut anywhere, beside a blob file cut anywhere, scans to the longest prefix of whole records, clean exactly when no bytes are left over |
| LogDisk.RotateIfNeeded | core/src/core/emq_log.c:691-718 | the record fits into the segment that it goes to, or has it to itself; nothing written before moves, and no segment is started without need |
| LogDisk.Persist | core/src/core/emq_log.c:720-796 | the log on disk gains exactly this record; the payload is in the record if it is within the threshold, and else one frame behind the blob file; it can be read back from the location returned |
| LogDisk.StaysReadable | core/src/core/emq_log.c:720-824 | a payload once written stays readable at its location however the log grows |
| LogDisk.ReadPayload | core/src/core/emq_log.c:807-824 | returns the payload that was written at the location |
| LogRecovery.Recover | core/src/core/emq_log.c:654-689 | recovers what the bytes of the files say: every segment up to the first that is not in order, a corrupt one cut where its records end and those behind it removed; -11 exactly when whole segments are followed by one that ends in a record of another version; a missing log is reported |
| LogRecovery.RecoversReading | core/src/core/emq_log.c:654-689 | the same for files read in any way that their bytes allow |
| LogRecovery.SomeReading | core/src/core/emq_log.c:654-689 | and there always is such a reading |
| LogRecovery.RecoversLongestPrefix | core/src/core/emq_log.c:541-689 | across segments recovery gives exactly the entries before the first that is not whole |
| LogRecovery.FrameSurvives | core/src/core/emq_log.c:465-490 | a payload in the blob file survives a cut if and only if its frame ends within it |
| LogRecovery.RecoveryAfterCrash | core/src/core/emq_log.c:541-689 | with last segment and blob file cut at arbitrary bytes, the log is recovered up to the first entry outside the cuts, and can be appended to as if nothing else had been written |
| LogRecovery.RecoveryInvertsAppending | core/src/core/emq_log.c:654-796 | reopening a log that was closed whole gives back all its records from the very same files |
| LogRecovery.RecoveryIsIdempotent | core/src/core/emq_log.c:612-689 | recovering what a completed recovery left gives the same entries |
| LogRecovery.InterruptedRecovery | core/src/core/emq_log.c:612-673 | after a crash between cutting a corrupt segment and removing those behind it, the next recovery gives the same entries if and only if there is nothing to find in those |
| LogRecovery.InterruptedExample | core/src/core/emq_log.c:612-673 | an input for which it gives more: a stray byte, and a whole record in the segment behind it |
| LogMeta.SlotReadsBack | core/src/core/emq_log.c:333-346 | a metadata slot that is written is valid and reads back |
| LogMeta.FieldPlaces | core/src/core/emq_log.c:19-31 | at which byte offset of a slot each field lies, and which magic number, version and size stand in front |
| LogMeta.RefusedIff | core/src/core/emq_log.c:357-374 | loading is refused exactly when a slot that is whole has the magic number and a version above 1 |
| LogMeta.CheckedByCrc | core/src/core/emq_log.c:333-346 | only a slot whose check value is the CRC-32 of its bytes, with a zero in its own place, is read |
| LogMeta.LoadInForce | core/src/core/emq_log.c:349-392 | of two slots the valid one with the higher sequence number is loaded |
| LogMeta.WriteIsAtomic | core/src/core/emq_log.c:349-420 | whatever mixture of old and new bytes a crash leaves of a metadata write, the old or the new metadata is in force |
| LogMeta.WriteTakesEffect | core/src/core/emq_log.c:394-420 | a completed write puts the new metadata in force |
| LogView.FromIsExact | core/src/core/emq_log.c:1154-1171 | trimming keeps exactly the messages from the given offset on |
| Log.Log.EnsureCapacity | core/src/core/emq_log.c:212-230 | doubling and unrolling the circular buffer changes no entry |
| Log.Log.Find | core/src/core/emq_log.c:798-805 | an entry is found exactly for the offsets from next_offset - count up to next_offset |
| Log.Log.BoundHotSet | core/src/core/emq_log.c:836-862 | evicts as many of the oldest payloads as it takes to be within both limits and no more, and changes nothing that can be read |
| LogView.NothingEvictedInVain | core/src/core/emq_log.c:836-862 | a hot set within its limits stays as it is |
| Log.Log.Append | core/src/core/emq_log.c:968-1051 | the contents gain the message at the next offset; a full ring drops its oldest, the other modes double until 32 bits are full and then refuse |
| Log.Log.Read | core/src/core/emq_log.c:1053-1075 | every retained offset reads back its fields and payload, from memory or from the files, and no other offset does |
| Log.Log.Snapshot | core/src/core/emq_log.c:1135-1152 | records generation and retained start in the slot that is not in force |
| Log.Log.TrimFront | core/src/core/emq_log.c:1154-1171 | the contents are those from the given offset on, and the hot set does not grow |
| Log.Log.SetBlobThreshold | core/src/core/emq_log.c:1173-1189 | the new threshold resizes the hot set and leaves the contents alone; a persistent log writes a metadata record with it and with the trim as it is |
| LogOpen.Open | core/src/core/emq_log.c:878-939 | which code opening a directory returns, for every directory, and in terms of the bytes of its files: -11 if whole segments are followed by a record of another version; when it succeeds the log has what its files read as, without what was trimmed, and is in good order when the metadata trims nothing beyond the recovered end |
| LogOpen.IndexAll | core/src/core/emq_log.c:511-539 | the entries rebuilt from the segments are the records not trimmed, at their logical offsets; refused exactly when they are more than the buffer can grow to |
| LogReopen.ClosedLogReopens | core/src/core/emq_log.c:654-796 | after any history, closing and reopening a log gives back every message since the recorded trim with offset, fields and payload, and nothing else |
| LogReopen.CutLogReopens | core/src/core/emq_log.c:465-689 | after a crash that cut last segment and blob file anywhere, the log opens again, and gives exactly the messages up to the first that is not within the cuts |
| LogReopen.LeftOpens | core/src/core/emq_log.c:878-939 | what a log left, cut or not, is opened with code 0, unless it is more than a buffer can hold |
| LogReopen.OpenedIsClean | core/src/core/emq_log.c:654-689 | a log opened from files that a log left, or from none, has nothing but records and frames in its files |
| LogReopen.EmptyDirectoryOpens | core/src/core/emq_log.c:878-939 | an empty directory is opened with code 0 |
| LogReopen.EmptyDirectoryIsEmpty | core/src/core/emq_log.c:878-939 | and as an empty log in good order |
| LogHistory.Create | core/src/core/emq_log.c:878-939 | a log in an empty directory stands for the empty list |
| LogHistory.OpenAgain | core/src/core/emq_log.c:878-939 | a log closed or crashed anywhere in its last segment and blob file is opened as the list of its first n messages, where n counts the entries before the first that is not within the cuts |
| LogHistory.Replay | core/src/core/emq_log.c:878-1311 | over every history of append, read, trim, snapshot, threshold, compaction, reopening and crash, from an empty directory on, the log is a list of messages of which the first have been trimmed |
| LogHistory.NothingIsLost | core/src/core/emq_log.c:878-1311 | in every such history a message that no trim reached and no crash cut off is retained, unchanged and at its offset |
| LogHistory.TrimmedStaysTrimmed | core/src/core/emq_log.c:1128-1189 | what was trimmed when the metadata was last written never comes back |
| LogHistory.AppendedIsListed | core/src/core/emq_log.c:678-687 | a message appended to an opened log will be there when it is opened again, with its offset, if and only if the recorded trim is not beyond the end of the files |
| LogHistory.GapExample | core/src/core/emq_log.c:678-687 | a directory that is opened although its trim is beyond the end of its files: the threshold was set after a trim, and the segment was lost |
| LogCrash.ReopeningIsExact | core/src/core/emq_log.c:349-392 | what reopening gives is determined by the metadata in force and the generation it names |
| LogCrash.ElsewhereIsSafe | core/src/core/emq_log.c:1191-1311 | writing, removing or syncing files of another generation does not touch the log, completed or not |
| LogCrash.SwitchIsSafe | core/src/core/emq_log.c:394-420 | once both generations are synced, a crash while the metadata switches between them leaves the old log or the new one |
| LogCompact.Compact | core/src/core/emq_log.c:1191-1311 | compaction changes no readable offset; interrupted at any point, with whatever was not synced in any state, reopening gives what was recorded before or the retained messages; once it has returned, a crash leaves the retained messages, their files have taken the place of the old generation and every other file is as it was; when generations have run out it is refused, and removes the files of generation 0 |
| LogCompact.OnlyTheNewOneIsLeft | core/src/core/emq_log.c:1294-1298 | then the generations left are those before without the old one, and the new one |
| LogCompact.RecordedEndsWithRetained | core/src/core/emq_log.c:1128-1133 | what was recorded before are the retained messages, preceded at most by messages trimmed since the last snapshot |
| Mpmc.Create | core/src/engine/emq_mpmc.c:95-129 | capacity is rounded up to a power of two, absurd capacities are refused |
| Mpmc.StepInv | core/src/engine/emq_mpmc.c:137-196 | every atomic step of every thread keeps the ring consistent, and what a call returns is justified |
| Mpmc.StoreSlot | core/src/engine/emq_mpmc.c:137-165 | a producer never writes over an item that was not copied yet |
| Mpmc.EveryRunIsSafe | core/src/engine/emq_mpmc.c:137-196 | under every interleaving dequeue_pos <= enqueue_pos <= dequeue_pos + capacity; full and empty are reported only when justified |
| Mpmc.TicketsMatch | core/src/engine/emq_mpmc.c:137-196 | the consumer of ticket n returns the item of producer n, and no ticket is consumed twice |
| Mpmc.QuiescentRing | core/src/engine/emq_mpmc.c:137-196 | when all calls have returned, the tickets below dequeue_pos were delivered and the others wait intact and in order |
| Mpmc.PushGetsThrough | core/src/engine/emq_mpmc.c:137-165 | after any run, a push that runs alone returns after at most five steps: with the next ticket and its item in the ring, unless the ticket a lap back was not returned yet, and then with full |
| Mpmc.PopGetsThrough | core/src/engine/emq_mpmc.c:167-196 | a pop that runs alone returns after at most six steps: with the item of the next ticket, unless there is none or its producer is not done, and then with empty |
| Mpmc.RetryMeansProgress | core/src/engine/emq_mpmc.c:137-196 | but for a spurious failure of the compare-and-swap, a call starts over only because another thread got the ticket it was after |
| Mpmc.TriesAreBounded | core/src/engine/emq_mpmc.c:137-196 | under every interleaving, while a call looks for a ticket it takes at most two steps for every ticket that others get, and one more |
| Wakeup.StepInv | core/src/primitives/emq_fifo.c:20-93 | every step of producer and consumer keeps the handshake in order |
| Wakeup.NoLostWakeup | core/src/api/emq.c:245-266 | no run reaches a state where the consumer sleeps, the ring is not empty and the producer has nothing left to do |
| Wakeup.ProducerMakesProgress | core/src/primitives/emq_fifo.c:86-90 | each step of a producer that owes a wake-up brings it one step closer |
| Wakeup.SleeperIsWoken | core/src/platform/emq_platform.c:545-574 | a consumer asleep on a non-empty ring is awake after at most three steps of the producer |
| Wakeup.MessageIsRead | core/src/primitives/emq_fifo.c:20-93 | from every state of every run with a message in the ring at most six steps lead to its being read, without a timeout |
| Wakeup.LogIsReadToo | core/src/primitives/emq_fifo.c:20-93 | a consumer that finds the ring empty takes what is due in the log |
| Wakeup.NeverStranded | core/src/primitives/emq_fifo.c:104-107 | when every message pushed has neither a lifetime nor a delivery time, the consumer never sleeps with something to read and nobody to wake it |
| Wakeup.StrandedByLog | core/src/primitives/emq_fifo.c:104-134 | in general it does exactly when the ring is empty and a message in the log may be delivered |
| Wakeup.LogPushWakesNobody | core/src/primitives/emq_fifo.c:104-134 | however many messages go to the log, a sleeping consumer sleeps until a push to the ring or its own timeout |
| Wakeup.StrandedExample | core/src/primitives/emq_fifo.c:104-134 | a run of six steps that ends so |
| FrameRing.HalfCapacityIsTheBound | core/src/core/emq_lfq.c:58-91 | an empty ring takes a frame at every tail position if and only if the frame is at most half its capacity |
| FrameRing.AcceptsIffPlace | core/src/core/emq_lfq.c:65-69 | a frame is accepted if and only if there is a position behind the tail at which it lies in one piece and within the free bytes, and it is put at the first one |
| FrameRing.FirstLapAccepts | core/src/core/emq_lfq.c:65-69 | before the tail has come round, it is accepted at the tail if the buffer does not end before |
| FrameRing.AppendFrame | core/src/core/emq_lfq.c:58-91 | a frame, with padding in front where it would wrap, joins the tiling of the ring and leaves every byte between head and tail alone |
| FrameRing.DropHead | core/src/core/emq_lfq.c:173-216 | moving the head past a frame removes exactly that frame |
| Lfq.Ring.constructor | core/src/core/emq_lfq.c:93-111 | a new ring is empty, its buffer the next power of two of at least a page |
| Lfq.Ring.Reserve | core/src/core/emq_lfq.c:58-91 | accepts exactly when there is room for the frame and the padding it needs, and then leaves a gap that reads as padding |
| Lfq.Ring.TryPush | core/src/core/emq_lfq.c:119-141 | appends the message with id, flags and priority behind the tail or at the beginning of the buffer, or refuses and changes nothing, exactly when there is no room; never refuses a frame of half the capacity when empty; an open loan stays lent; and it says exactly when the header of padding is written beyond the buffer |
| Lfq.Ring.PeekLen | core/src/core/emq_lfq.c:143-171 | the length of the message in front |
| Lfq.Ring.TryPop | core/src/core/emq_lfq.c:173-216 | takes the message in front; a buffer that is too small is told the length and the message stays |
| Lfq.Ring.TryClaim | core/src/core/emq_lfq.c:218-256 | lends the bytes of the message in front without taking it |
| Lfq.Ring.LoanReads | core/src/core/emq_lfq.c:218-256 | the bytes of a loan are those of its message, whatever was pushed, peeked at or popped, until the producer comes round to them |
| Lfq.Ring.ReleaseClaim | core/src/core/emq_lfq.c:258-267 | sets the head behind the frame, unchecked: the message lent is gone if nothing was taken since the claim; nothing changes if only it was taken, by a pop or an earlier release; the ring is out of order if more was taken |
| Lfq.Ring.Replay | core/src/core/emq_lfq.c:119-267 | over every history of push, peek, pop, claim and release, with loans open over any of these and released late or twice, the ring behaves as a queue with a head and a tail position, which determines every answer, up to a release that is not harmless; when all frames are multiples of 32 bytes no padding overruns |
| Lfq.NoRefusalInFirstLap | core/src/core/emq_lfq.c:58-91 | in every run from position 0 no push is refused as long as the frames pushed so far add up to at most the capacity |
| Lfq.FirstInFirstOut | core/src/core/emq_lfq.c:119-267 | in every run the messages accepted are, in order, those removed and those still waiting |
| Lfq.RemovedIsDelivered | core/src/core/emq_lfq.c:173-267 | the messages removed are those the callers received, each once and in order |
| Lfq.LoanIsStable | core/src/core/emq_lfq.c:218-267 | what a consumer reads when it releases is what it read when it claimed, if the release is harmless; and it is if nothing was popped in between |
| Lfq.NeverOverruns | core/src/core/emq_lfq.c:47-56 | frames that are multiples of the header size keep the tail one, and then padding is never smaller than a header |
| Lfq.OverrunExample | core/src/core/emq_lfq.c:47-56 | a ring of 4096 bytes in which padding of 16 bytes is given a header of 32 |
| Ipc.Segment.Reserve | transport/ipc/src/emq_ipc.c:235-261 | accepts exactly when there is room for the frame and the padding it needs |
| Ipc.Segment.Publish | transport/ipc/src/emq_ipc.c:407-444 | appends the message behind the tail or at the beginning of the buffer, or refuses, exactly when there is no room, and never a frame of half the capacity when empty; every byte of an open loan stays what it was |
| Ipc.Segment.Claim | transport/ipc/src/emq_ipc.c:446-518 | lends the message in front; refused while another loan is open |
| Ipc.Segment.Release | transport/ipc/src/emq_ipc.c:520-541 | refused exactly if the loan is zeroed or the status at its place is not claimed; the loan of the message in front ends and the message is gone; a copy of a loan released before is refused as long as the producer has not come round to its place |
| Ipc.StaleExample | transport/ipc/src/emq_ipc.c:520-541 | a copy that is accepted after the producer came round, and moves the head back |
| Ipc.Segment.Replay | transport/ipc/src/emq_ipc.c:407-541 | over every history of publish, claim and release the segment is a queue with loans and with a head and a tail position, which determines every answer |
| Ipc.NoRefusalInFirstLap | transport/ipc/src/emq_ipc.c:235-261 | in every run from position 0 no publish is refused as long as the frames published so far add up to at most the capacity |
| Ipc.FirstInFirstOut | transport/ipc/src/emq_ipc.c:407-541 | the messages published are, in order, those released and those still waiting |
| Ipc.LoansAreStable | transport/ipc/src/emq_ipc.c:446-541 | what a consumer reads when it claims is what it reads when it releases, whatever was published in between |
| Inflight.Table.Take | core/src/primitives/emq_dispatch.c:16-56 | finds an unused slot, doubling the table when there is none, and changes no slot in use |
| Inflight.Table.Lookup | core/src/primitives/emq_dispatch.c:58-70 | finds the slot of a state and offset exactly when there is one |
| Delivery.Queue.EntryExpired | core/src/primitives/emq_dispatch.c:92-109 | a message is dead exactly when its time to live, as noted or as stamped, has passed |
| DeliveryModel.DeadMeans | core/src/primitives/emq_dispatch.c:92-109 | that is, when the noted time has come, or without a note when time stamp and time to live have passed, saturating in 64 bits |
| Delivery.Queue.MarkConsumed | core/src/primitives/emq_dispatch.c:137-146 | takes one waiting message out of the queue |
| Delivery.Queue.CompactConsumed | core/src/primitives/emq_dispatch.c:148-168 | moves the read position behind everything consumed in front, and trims the log to the first message that waits or is in flight, dropping none of these; nothing is trimmed during a pop |
| Delivery.Queue.FifoPop | core/src/primitives/emq_fifo.c:228-263 | takes the oldest message that is alive if it is due; dead ones in front are dropped |
| Delivery.Queue.LifoPop | core/src/primitives/emq_dispatch.c:200-231 | takes the newest eligible message |
| Delivery.Queue.PriorityPop | core/src/primitives/emq_priority.c:17-57 | takes the eligible message of highest priority, and of these the oldest |
| Delivery.Queue.Redeliver | core/src/primitives/emq_dispatch.c:276-305 | delivers a message in flight again once its time is up, drops it if it is dead, and reports nothing only if none is due |
| Delivery.Queue.Pop | core/src/primitives/emq_dispatch.c:307-387 | redelivers, or delivers the best message by policy and keeps it in flight or gives it away, or there was nothing to deliver |
| Delivery.Queue.Push | core/src/primitives/emq_fifo.c:95-135 | the queue gains the message, and its expiry time is noted without wrapping |
| Delivery.Queue.Ack | core/src/primitives/emq_dispatch.c:411-421 | settles exactly the message in flight with this id; refused for any other id |
| Delivery.Queue.Nack | core/src/primitives/emq_dispatch.c:423-438 | postpones exactly the message in flight with this id |
| Delivery.Queue.AckBatch | core/src/primitives/emq_dispatch.c:440-460 | settles all of the messages or none; accepted exactly when all are in flight and the ids distinct |
| Delivery.Queue.Replay | core/src/primitives/emq_dispatch.c:182-460 | every history of operations is a run of the delivery state machine, all its states keeping the invariant |
| Delivery.NothingIsLost | core/src/primitives/emq_dispatch.c:148-168 | in every state of every run each message is in exactly one of waiting, in flight, acknowledged, expired, given away, and the log still has the first two kinds |
| Delivery.NeverAgain | core/src/primitives/emq_dispatch.c:276-460 | what was acknowledged, expired or given away is never delivered again |
| Delivery.AtMostOnce | core/src/primitives/emq_dispatch.c:137-168 | a queue that delivers at most once delivers no offset twice |
| Delivery.NoneExpiresEarly | core/src/primitives/emq_dispatch.c:92-109 | in every run, a message that counts as expired was dropped at a time when its time to live had passed |
| Delivery.NothingIsKept | core/src/primitives/emq_dispatch.c:148-168 | in every run, whenever nothing waits and nothing is in flight, the log holds no message and the table no mark and no expiry time |
| Registry.Registry.Find | core/src/registry/emq_registry.c:30-45 | lookup by probing is lookup in the map from name to descriptor, also when no empty cell remains |
| Registry.Registry.InsertRaw | core/src/registry/emq_registry.c:47-69 | reusing the first tombstone on the way keeps every descriptor reachable; never full while names are fewer than cells |
| Registry.Registry.Grow | core/src/registry/emq_registry.c:71-89 | doubling and entering again changes no name |
| Registry.Registry.IndexInsert | core/src/registry/emq_registry.c:91-98 | insertion succeeds and leaves the index less than seven tenths full |
| Registry.Registry.Create | core/src/registry/emq_registry.c:208-343 | the map gains the name with a fresh id; duplicate, too long and too many are refused without a change |
| Registry.Registry.Remove | core/src/registry/emq_registry.c:345-375 | the map loses the name; absent and busy queues are refused |
| Registry.Registry.Get | core/src/registry/emq_registry.c:203-206 | the table by id agrees with the map by name |
| Registry.NotBeyondEmpty | core/src/registry/emq_registry.c:30-45 | a name not met before the first empty cell, or in a whole lap, is not in the map |
| Registry.InsertAt | core/src/registry/emq_registry.c:47-69 | the cell chosen keeps the index a picture of the map |
| Registry.RemoveAt | core/src/registry/emq_registry.c:100-114 | a tombstone keeps every other descriptor reachable |
| Topic.Match | core/src/routing/emq_routing.c:26-66 | the two-pointer loop decides acceptance for every pattern and topic, well formed or not |
| Topic.AcceptsIsMatches | core/src/routing/emq_routing.c:26-66 | for every well-formed pattern that is matching level by level |
| Topic.MatchesAsDocumented | core/src/routing/emq_routing.c:22-45 | which is the documented meaning if and only if not exactly a final `#` after a `*` would have to match nothing |
| Topic.StarHashException | core/src/routing/emq_routing.c:35-45 | `*.#` does not match a single level, while `a.#` matches `a` |
| Topic.AcceptsAsDocumented | core/src/routing/emq_routing.c:22-66 | what a subscriber with a well-formed pattern may rely on |
| Topic.SeparatorsAlike | core/src/routing/emq_routing.c:18-20 | `.` and `/` are interchangeable |
| Topic.LevelsSplit | core/src/routing/emq_routing.c:18-20 | the levels are what stands between these two characters, and no others |
| Fanout.Router.RouteRef | core/src/routing/emq_routing.c:179-204 | every inbox whose pattern accepts the topic gains the reference, no other does, and all invariants are kept |
| Fanout.Router.Publish | core/src/routing/emq_routing.c:382-405 | the post is stored once and routed by reference; refused topics change nothing |
| Fanout.Router.Retry | core/src/routing/emq_routing.c:525-544 | routes a stored post again with the attempt in its flags; unknown posts are refused |
| Fanout.Router.DeadLetter | core/src/routing/emq_routing.c:546-564 | the same for a dead-letter topic, due at once |
| Fanout.Router.Subscribe | core/src/routing/emq_routing.c:255-338 | a new subscriber starts with what is published from now on; it joins the group of that pattern and name, or starts it |
| Fanout.Router.Unsubscribe | core/src/routing/emq_routing.c:340-380 | the subscriber is gone, the order of the other members is kept, the turn passes on, and an empty group is closed |
| Fanout.Router.NextOwn | core/src/routing/emq_routing.c:431-494 | reads the next reference with the stored post, unless there is none or its time has not come |
| Fanout.Router.NextShared | core/src/routing/emq_routing.c:462-482 | gives the next reference of a group to the member whose turn it is, and to no other |
| Fanout.Group.AddMember | core/src/routing/emq_routing.c:143-152 | the member joins at the end of the list; there is a turn if and only if there are members |
| Fanout.Group.RemoveMember | core/src/routing/emq_routing.c:154-168 | unlinks exactly this member; its turn goes to the one after it, the first after the last |
| Fanout.Group.SyncOffsets | core/src/routing/emq_routing.c:135-141 | every member shows the offset of its group |
| Fanout.Group.Give | core/src/routing/emq_routing.c:473-479 | a service goes to the member in turn, and the turns go around |
| Fanout.RoutedExactly | core/src/routing/emq_routing.c:179-204 | an inbox holds every accepted route since the subscription, once, in order, and nothing else |
| Fanout.Router.ReadsInOrder | core/src/routing/emq_routing.c:431-494 | what a subscriber has read and has yet to read is exactly its inbox of all accepted routes since it subscribed |
| Fanout.Router.ServesInOrder | core/src/routing/emq_routing.c:462-482 | each reference of a group was given to exactly one member, in order |
| Fanout.Router.EveryMemberHasATurn | core/src/routing/emq_routing.c:462-482 | with fixed membership, among as many services in a row as there are members, each member has one |
| Bitmap.Bitmap.UpdateParents | core/src/core/emq_bitmap.c:42-59 | both summary bits tell whether the words below are nonzero |
| Bitmap.Bitmap.Set | core/src/core/emq_bitmap.c:61-78 | adds the bit, tells whether it was new, and keeps every summary bit exact |
| Bitmap.Bitmap.Clear | core/src/core/emq_bitmap.c:80-96 | removes the bit and keeps every summary bit exact |
| Bitmap.Bitmap.Test | core/src/core/emq_bitmap.c:98-101 | membership, false beyond the capacity |
| Bitmap.Bitmap.ScanWord | core/src/core/emq_bitmap.c:103-112 | the lowest one of a word, unless it lies beyond the capacity |
| Bitmap.Bitmap.FindFirst | core/src/core/emq_bitmap.c:114-130 | skipping by summaries finds the least bit, or there is none |
| Bitmap.Bitmap.FindNext | core/src/core/emq_bitmap.c:132-154 | the least bit after the given one, or there is none |
| Bitmap.Canonical | core/src/core/emq_bitmap.c:42-96 | the words of all levels are determined by the bits: what is set and cleared again leaves no trace |
| Sched.Sched.Activate | core/src/sched/emq_sched.c:73-87 | marks the queue and appends it to the ring of its band once; when the ring is full the mark is taken back |
| Sched.Sched.Deactivate | core/src/sched/emq_sched.c:89-95 | takes the mark away and leaves the ring alone |
| Sched.Sched.PopBand | core/src/sched/emq_sched.c:97-106 | takes the oldest entry of a band and returns it if that queue is active |
| Sched.Sched.PopReady | core/src/sched/emq_sched.c:108-125 | goes through the bands in order until an entry is active; returns its queue and credit |
| Sched.ActiveIsReady | core/src/sched/emq_sched.c:73-125 | in every run an active queue is in the ring of its band |
| Sched.FirstActivatedFirst | core/src/sched/emq_sched.c:73-125 | without deactivation a ring holds exactly the active queues of its band, each once, and they leave in the order of activation |
| Sched.OldestFirst | core/src/sched/emq_sched.c:108-125 | then a pop takes the oldest queue of the first band that has any, and finds nothing only if nothing is active |
| Sched.NeverRefused | core/src/sched/emq_sched.c:77-82 | then no activation is refused as long as there are no more queues than ring cells |
| Sched.TakesOldestIff | core/src/sched/emq_sched.c:97-125 | in general the oldest entry of the first band that has any is returned if and only if that queue is active |
| Sched.StaleEntriesFill | core/src/sched/emq_sched.c:73-95 | entries of a deactivated queue can fill a ring, and then an inactive queue is refused |
| Sched.StaleEntryHides | core/src/sched/emq_sched.c:97-125 | a pop can return nothing while a queue is active, and return it the next time |
| Sched.Drained | core/src/sched/emq_sched.c:97-125 | as many pops as there are entries return every active queue exactly once and nothing else |

## Left out

- Weak memory orders, wrap-around of 64-bit tickets, offsets and clocks, and reuse of the 32-bit futex word: memory is sequentially consistent and counters are unbounded.
- Failing I/O calls and failing allocations; crashes are modelled instead. A metadata write ends with a sync of the metadata file.
- Memory-mapped recovery, which treats a short tail differently (`core/src/core/emq_log.c:556-558`).
- The platform layer, event loop, sockets, bindings, benches and the command line tools.
- `emq_ebr.c`, `emq_pool.c`, `emq_task.c`, `emq_alloc.c`, `emq_hist.c`, `emq_compress.c`, `emq_policy.c`, which would add easy members or, for the pool, one magazine shared by all pools.
- Statistics counters that nothing reads back, except those of the scheduler.
- TimerWheel.Wheel.Tick: callbacks that schedule or cancel from inside the callback are not modelled, nor which job a cookie stands for.
- Lfq.Ring.Replay: each operation is atomic, because `reserve` publishes the tail before the frame is committed; payloads are small enough for the 32-bit frame length; after a release that is not harmless nothing more is promised.
- Lfq.Ring.ReleaseClaim: what it overwrites once the producer has come round to the loan is stated in bytes only.
- Ipc.Segment.Replay: each operation is atomic; waiting with a timeout and mapping the shared memory are not modelled.
- Ipc.Segment.Release: a loan that is not zeroed has a frame position that is a multiple of eight, as all that a claim hands out; once a copy has been accepted that should not be, nothing more is promised.
- Crc.TableUpdate: the hardware path for CRC-32C is not modelled.
- LogMeta.WriteIsAtomic: assumes that a torn slot does not pass its own CRC by accident.
- LogOpen.Open: with more entries than a buffer can grow to and a foreign segment behind them, the code returns the one error and the model the other; errors of the file system are not modelled.
- LogHistory.Replay: a history ends when the log could not be opened again or was left with a gap; messages, operations and bytes are few enough for the 64-bit counters; a crash cuts the last segment and the blob file, while older segments and synced metadata are whole.
- LogCompact.Compact: an early return after a failed sync is not modelled; the files of the log itself are synced when it starts, and for the case that they are not `LogReopen.CutLogReopens` says what reopening gives before the switch.
- LogRecovery.InterruptedRecovery: segments left over behind a gap in the numbering are not modelled.
- Delivery.Queue.Pop: one clock reading serves the whole operation; waiting, peeking, seeking, random order, rings and streams are not modelled, and message ids are distinct and not zero.
- Delivery.Queue.Push: the message id and the time are parameters; of the log only the contract proved for `Log` is used, and queues on the byte ring are those of `Lfq`.
- Registry.Registry.Find: the hash is any function of the name; whether somebody holds a handle is a parameter of `Remove`.
- Fanout.Router.NextOwn: seek and replay of a subscription are not modelled, and inboxes are sequences, since nothing trims them.
- Fanout.Router.Publish: a failing append to an inbox is not modelled.
- Bitmap.Bitmap.Set: the compare-and-swap of the lowest word and the update of the summaries are one step.
- Sched.Sched.PopReady: taking the entry and clearing the mark are one step; the ready rings are queues of 4096 cells, as proved for `Mpmc`; waiting for activations is not modelled.
