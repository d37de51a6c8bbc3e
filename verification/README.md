# Cascade, modelled and proved in Dafny

Cascade is a message broker: lock-free queues and a memory pool, a
write-ahead log over memory-mapped segment files, a timer wheel with a
connection liveness manager on top of it, partitions with backpressure and
consumer groups in front of the log, a replicated control-plane state machine,
and a few smaller machines (frame decoder, jitter buffer, consistent-hash
ring). This project models those parts and proves, for every input, run or
interleaving, what they are for. `dafny verify dfyconfig.toml` checks all of it.

## How the parts are modelled

- **Lock-free structures** (`MpmcQueue`, `SpscQueue`, `MemoryPool`, on
  `RingArith`) are transition systems: each atomic load, store or
  compare-and-swap is one step of one thread, and a schedule is any sequence of
  steps. An inductive invariant gives the safety theorems for every schedule;
  what calls return is recorded from outside, by who called what and what was
  shown when the call ended, and tied to the shared memory; the "alone" theorems
  say what a whole call does when nothing interferes, and that it ends.
- **The write-ahead log** (`Bits`, `Crc32`, `Record`, `SparseIndex`,
  `Segments`, `Recovery`, `Logs`) goes from single bits to whole directories:
  the checksum as polynomial division one bit at a time, records as bytes, a
  segment as an object over a byte array with its sparse index, the log as an
  object over segments. Its ghost contents are the sequence of payloads; ghost
  counters say which bytes are on stable storage.
- **Timers** (`Timers`, `TimerWheels`, `Liveness`, `ConnectionManagers`): the
  wheel object against a map from timer id to absolute deadline, and theorems
  about all runs of that map; the connection manager as it is, in all its runs,
  against what liveness demands.
- **The broker** (`Backpressure`, `Partitions`, `OffsetKeys`, `OffsetStores`,
  `Delivery`, `Consumers`): publishers as interleaved steps, the offset store on
  its string keys against a map on (topic, partition, group), and whole runs of
  consumers of any topics and groups on one shared store.
- **The replicated state machine** (`ReplicatedFsm`): commands, results, and
  snapshots in any listing order. Times are nanoseconds; the local clock is an
  input of every command.
- **Framing, playout, hashing** (`Framing`, `JitterBuffers`, `ConsistentHash`).
  Hash functions are parameters.

## Where the code differs from what it says

- The ring with rounded capacity 1 overwrites unread values:
  `MpmcQueue.SafeIffCapacityAtLeastTwo` gives the exact condition, and requests
  of 0 and 1 are the ones that fail it (`MpmcQueue.Construct`).
- A first record at offset 0 with an empty payload is written as sixteen zero
  bytes, which recovery takes for unused space. The comment at
  cpp/core/storage/segment.hpp:26-32 says replay stops one record early; in fact
  the whole segment is lost. `Record.RecoversPrefix`,
  `Logs.Log.FlushedSurvive` and `Logs.Log.CloseAndReopen` say so as equivalences.
- Replay does not clear the bytes behind the records it accepts. When an append
  overwrites a damaged record exactly, an intact record left behind it comes back
  on the next open, without any crash in between: `Segments.StrayReturns` does
  it, `Record.ReplayExactIff` and `Logs.Log.CloseAndReopen` give the exact
  condition, and logs with nothing but zeros behind their records, which every
  operation keeps that way, never meet it (`Logs.Log.CleanReopens`).
- A torn append can be recovered as a record that was never appended, although
  cpp/core/storage/segment.hpp:22-24 says recovery stops at the last intact
  record: `Record.TornAppendExactly` says exactly when and as what, and
  `Record.PhantomIff` when the record is empty.
- A log whose newest segment is a truncated file from which nothing is recovered
  refuses every append, with the message for oversized records:
  `Logs.Log.Open` says when a log opens in that state, `Logs.OpenStuck` opens
  one, and `Logs.Log.Append` says that it is the only other reason for a refusal.
- Registering a connection that is already tracked leaves its earlier timer on
  the wheel, which reports the connection dead too early or after it was
  unregistered: `ConnectionManagers.ReportsAreIdealIff` says that this is the
  only thing that goes wrong, `ConnectionManagers.DeadAfterUnregister` shows it.
- Two topics, one of which spells a partition of the other ("a" and "a#0"),
  share offset-store entries: `OffsetStores.ConfusedUnlessSeparable` for the
  store, `Delivery.GroupDelivery` for what consumer groups may rely on.
- A registration or heartbeat without a timestamp depends on the replica's clock
  (`ReplicatedFsm.ClockIgnoredIff`) and survives a snapshot unchanged only if
  that clock showed a whole millisecond (`ReplicatedFsm.ClockStampRestoredIff`).
- When virtual nodes of two partitions hash to the same point, removing one
  partition can move keys of the other: `ConsistentHash.CollisionMovesOthers`,
  with the exact condition in `ConsistentHash.RemoveMovesOnlyOwnIff`; likewise
  `ConsistentHash.AddRemoveRestoresOwners` for adding and removing again. Where
  all virtual nodes hash differently, no ring the code can build has that
  problem (`ConsistentHash.UndisputedIffDistinct`).

## Model

| member | source | states |
|---|---|---|
| `RingArith.RoundUpPow2` | cpp/core/queue/mpmc_queue.hpp:108-112 | the result is the least power of two not below the request |
| `RingArith.MaskIsSlot` | cpp/core/queue/mpmc_queue.hpp:53 | for a power-of-two capacity, masking a ticket with capacity - 1 gives the slot the model uses |
| `MpmcQueue.Construct` | cpp/core/queue/mpmc_queue.hpp:30-36 | the constructed ring starts empty with a power-of-two capacity, and is safe in every interleaving exactly when at least 2 slots were requested |
| `MpmcQueue.ReachableInv` | cpp/core/queue/mpmc_queue.hpp:48-98 | every slot is in a phase that explains its sequence number and storage, in every interleaving of any number of threads |
| `MpmcQueue.Linearity` | cpp/core/queue/mpmc_queue.hpp:48-98 | at most capacity values are queued, no ticket is returned twice, no unread value is overwritten, every pushed value is in exactly one place; and every call is accounted for by what it returned: a push returned true exactly if it claimed a ticket, one, at which its argument is queued, a pop returned the value queued at the one ticket it claimed, false and nothing were returned without a ticket, every ticket belongs to one call, and the values accepted together with those still in producers' hands are the values queued |
| `MpmcQueue.StepRefinesQueue` | cpp/core/queue/mpmc_queue.hpp:48-98 | each step refines a FIFO: only a successful claim of the tail appends, only a successful claim of the head removes the oldest value, which that pop goes on to return |
| `MpmcQueue.PushFailsIffLapBehindUnreleased` | cpp/core/queue/mpmc_queue.hpp:52-66 | whatever a call is doing, its next step reports full exactly when it is a sequence load at which its ticket is the tail and the ticket one lap behind is unreleased |
| `MpmcQueue.PopFailsIffHeadUnpublished` | cpp/core/queue/mpmc_queue.hpp:77-91 | whatever a call is doing, its next step reports empty exactly when it is a sequence load at which its ticket is the head and that ticket is unpublished |
| `MpmcQueue.FinishesAlone` | cpp/core/queue/mpmc_queue.hpp:48-98 | from every reachable state, whatever other threads left half done, six steps of one thread finish its call, so no retry loops for ever on its own |
| `MpmcQueue.CapacityOneOverruns` | cpp/core/queue/mpmc_queue.hpp:57-69 | with capacity 1 a second push reaches the store into a slot that still holds the first value |
| `MpmcQueue.SafeIffCapacityAtLeastTwo` | cpp/core/queue/mpmc_queue.hpp:48-98 | the ring is safe in every interleaving if and only if its capacity is at least 2 |
| `MpmcQueue.PushAloneIsBoundedFifo` | cpp/core/queue/mpmc_queue.hpp:48-71 | without interference a push succeeds exactly when fewer than capacity values are queued, and then queues its value last |
| `MpmcQueue.PopAloneIsBoundedFifo` | cpp/core/queue/mpmc_queue.hpp:73-98 | without interference a pop returns the oldest value, and nothing exactly when nothing is queued |
| `SpscQueue.IsFifo` | cpp/core/queue/spsc_queue.hpp:45-77 | in every interleaving of one producer and one consumer: popped values followed by queued values are the pushed values, which are the arguments of the calls that returned true and the values that calls returned, in order; at most capacity are queued, no unread slot is written and no empty slot read |
| `SpscQueue.StepRefinesQueue` | cpp/core/queue/spsc_queue.hpp:45-77 | only the store of the tail appends and only the store of the head removes, and the value removed is the one returned |
| `SpscQueue.ReportsAreFresh` | cpp/core/queue/spsc_queue.hpp:45-77 | a push or pop in progress next reports full or empty exactly when it makes the fresh load and the ring is then full or empty, and a check that trusts a stale cache is still right to go ahead |
| `SpscQueue.PushAloneIsBoundedFifo` | cpp/core/queue/spsc_queue.hpp:45-59 | a push with the consumer standing still succeeds exactly when there is room, and queues its value last |
| `SpscQueue.PopAloneIsBoundedFifo` | cpp/core/queue/spsc_queue.hpp:62-77 | a pop with the producer standing still returns the oldest value, or nothing if there is none |
| `MemoryPool.ReachableInv` | cpp/core/memory/memory_pool.hpp:53-94 | the ownership invariant holds in every interleaving of allocate, deallocate and grow in which no held head word is 2^32 updates old |
| `MemoryPool.Ownership` | cpp/core/memory/memory_pool.hpp:53-94 | the free list is one acyclic null-terminated chain, every published block is in exactly one of free list, caller's hands, in-flight push or unspliced slab, the live count is what is held plus frees in progress; and the blocks held are exactly those that `allocate` returned and callers did not give back, none returned twice without a free in between |
| `MemoryPool.HandsOutOne` | cpp/core/memory/memory_pool.hpp:53-94 | a call that ends with a block had it in its own hands only, nobody held, freed or spliced it, and the blocks held grow by exactly that one; a call fails only when one more slab would exceed a limit |
| `MemoryPool.StaleLinkNeverSurvives` | cpp/core/memory/memory_pool.hpp:62-74 | a compare-and-swap of `allocate` succeeds exactly if the head was not updated since it was loaded, otherwise the call changes nothing and starts over; if it succeeds it installs the link its block has now, however long ago it was read, and the block is in nobody else's hands |
| `MemoryPool.FinishesAlone` | cpp/core/memory/memory_pool.hpp:53-178 | from every reachable state in which no other thread is growing the pool, nineteen steps of one thread finish its call |
| `MemoryPool.FreeThenAllocate` | cpp/core/memory/memory_pool.hpp:53-94 | without interference, freeing a block and allocating hands the same block out again and restores the free list |
| `MemoryPool.GrowAlone` | cpp/core/memory/memory_pool.hpp:137-178 | allocating from an empty pool fails exactly when the slab or index limit would be exceeded, and otherwise splices in one new slab in order |
| `MemoryPool.PackRoundTrip` | cpp/core/memory/memory_pool.hpp:105-109 | index and generation are both recovered from the packed word |
| `MemoryPool.IndexFromPtr` | cpp/core/memory/memory_pool.hpp:123-135 | the scan over slabs answers from the slab that contains the address, and null outside every slab |
| `MemoryPool.PointerRoundTrip` | cpp/core/memory/memory_pool.hpp:111-135 | a block lies whole in its own slab, at a multiple of the stride, and its address gives back its index |
| `Crc32.MakeTable` | cpp/core/storage/crc32.hpp:16-26 | entry i of the table is eight bit steps from i |
| `Crc32.FeedByteByTable` | cpp/core/storage/crc32.hpp:36-38 | one table step equals feeding the eight bits of a byte one at a time |
| `Crc32.Compute` | cpp/core/storage/crc32.hpp:33-40 | the table-driven loop computes the bit-by-bit CRC-32 of every input, with the generator of `Crc32.Generator` |
| `Crc32.Generator` | cpp/core/storage/crc32.hpp:16-26 | the polynomial constant 0xEDB88320 is the generator of IEEE 802.3, by its exponents |
| `Record.ChecksumResidue` | cpp/core/storage/crc32.hpp:33-40 | for every message, it and four more bytes leave the register 0xDEBB20E3 if and only if these are its checksum in little-endian order |
| `Crc32.EmptyChecksum` | cpp/core/storage/crc32.hpp:33-40 | the checksum of no bytes is 0 |
| `Crc32.BurstDetected` | cpp/core/storage/crc32.hpp:33-40 | messages of equal length that differ only within 32 consecutive bits have different checksums |
| `Crc32.FourBytesDetected` | cpp/core/storage/crc32.hpp:33-40 | payloads of equal length that differ only inside four consecutive bytes have different checksums |
| `Record.RecordLayout` | cpp/core/storage/segment.hpp:118-123 | a record on disk is eight bytes of offset, four of length, four of checksum, and the payload |
| `Record.HeaderRoundTrip` | cpp/core/storage/segment.hpp:119-122 | decoding an encoded header gives it back, for every offset, length and checksum that fit their fields |
| `Record.ReplayFrom` | cpp/core/storage/segment.hpp:227-255 | the scan recovers every complete record, unchanged and in order, and goes on with whatever follows |
| `Record.RecoversPrefix` | cpp/core/storage/segment.hpp:227-255 | the complete records are a prefix of what is recovered, whatever bytes follow, exactly when the first is not an empty payload at offset 0; otherwise nothing is recovered |
| `Record.ReplaySound` | cpp/core/storage/segment.hpp:227-255 | for any bytes, what is recovered is what the recovered part of the file encodes, and the next record is not acceptable |
| `Record.ReplayExactIff` | cpp/core/storage/segment.hpp:227-255 | for any bytes behind the records, exactly the records are recovered if and only if the scan does not accept what lies right behind them |
| `Record.TornAppendExactly` | cpp/core/storage/segment.hpp:109-130 | an append onto zeroed space cut at any byte leaves the completed records, and one more exactly when the stored part of offset, length and checksum pass the tests against the stored payload padded with zeros |
| `Record.TornAppendRecovers` | cpp/core/storage/segment.hpp:109-130 | so all completed records stay recoverable and at most one more appears, which is the stored part of the payload padded with zeros and cut short |
| `Record.PhantomIff` | cpp/core/storage/segment.hpp:118-123 | for a cut at any byte, the torn append is recovered as an empty record exactly when the stored bytes spell the whole nonzero offset and a zero length; for a nonempty payload only if cut before the checksum |
| `Record.CorruptionRejected` | cpp/core/storage/segment.hpp:244-245 | a record whose payload was altered inside four consecutive bytes ends the recovery just before it |
| `Record.RecordAt` | cpp/core/storage/segment.hpp:109-130 | where record i of an encoding lies, what its header says and what its payload is |
| `Record.CleanReplay` | cpp/core/storage/segment.hpp:227-255 | scanning the records followed by zeros finds exactly the records |
| `SparseIndex.IndexOfOk` | cpp/core/storage/segment.hpp:219-225 | every index built by appends has true record boundaries in order, starts at the first record and leaves less than 4096 bytes behind an entry before the next |
| `SparseIndex.IndexIsSparse` | cpp/core/storage/segment.hpp:219-225 | the index has one entry for the first record and at most one more for every 4096 bytes |
| `Segments.StoreRecord` | cpp/core/storage/segment.hpp:118-123 | the copies of offset, length, checksum and payload write the record's encoding and nothing else |
| `Segments.Scan` | cpp/core/storage/segment.hpp:227-255 | replaying any bytes finds the records they encode and rebuilds the write position, next offset, count and sparse index that appending those records builds |
| `Segments.Segment.Open` | cpp/core/storage/segment.hpp:63-97 | a missing or empty file is mapped as zeros, of a file longer than the maximum the front is mapped, a shorter file is sealed, and the records are those the mapped bytes replay to |
| `Segments.Segment.Append` | cpp/core/storage/segment.hpp:109-130 | appends exactly when the segment is active and the record fits; then the bytes change by exactly the record's encoding, otherwise not at all |
| `Segments.Segment.Flush` | cpp/core/storage/segment.hpp:136-138 | every byte written is synced |
| `Segments.Segment.Seal` | cpp/core/storage/segment.hpp:193-206 | syncs, cuts the file to the encoding of its records and changes no record; a second seal does nothing |
| `Segments.Segment.PositionHint` | cpp/core/storage/segment.hpp:180-187 | the binary search gives the boundary of a record at or before the target, at most 256 records before it |
| `Segments.Segment.ReadFrom` | cpp/core/storage/segment.hpp:140-162 | the scan returns the record of the target exactly when it lies between the start and the end, and inspects exactly the headers up to it |
| `Segments.Segment.Lookup` | cpp/core/storage/segment.hpp:140-187 | hint and scan together return the record of an offset exactly when the segment holds it, inspecting at most 256 headers |
| `Segments.StrayReturns` | cpp/core/storage/segment.hpp:63-130 | from any file with a damaged record and an intact one behind it, a segment opens without both, holds only the record appended over the damaged one, and when opened again holds the intact one as well |
| `Recovery.ConsistentRead` | cpp/core/storage/log.hpp:114-124 | in a directory whose files follow each other, every offset reads as its record of the concatenated contents, and as nothing outside them |
| `Recovery.CrashConsistent` | cpp/core/storage/log.hpp:158-179 | after a crash the directory is consistent again and starts with every acknowledged record, across any number of segments |
| `Recovery.AcknowledgedSurvive` | cpp/core/storage/log.hpp:69-112 | after any crash that keeps synced bytes, reopening returns every acknowledged record at its offset, if and only if the payload at offset 0 is not empty |
| `Recovery.UntouchedIsLost` | cpp/core/storage/segment.hpp:240 | if that payload is empty, offset 0 reads as nothing after the crash |
| `Recovery.ClosedContents` | cpp/core/storage/log.hpp:158-179 | a directory left by a close has the contents the log had, followed by the records that replay finds behind those of the newest segment |
| `Recovery.ClosedReads` | cpp/core/storage/log.hpp:158-179 | every offset reads the same before and after, if and only if the payload at offset 0 is not empty and nothing behind the records of the newest segment is taken for a record |
| `Logs.Log.Open` | cpp/core/storage/log.hpp:40-45 | opening any directory, every offset reads as the last file starting at or before it says; the records counted as flushed are exactly those whose bytes are on stable storage; consistent files give a valid log with their contents; and exactly when the log opens unable to append |
| `Logs.Log.Recover` | cpp/core/storage/log.hpp:158-179 | every file is opened in order with the records it replays to, and all but the last are sealed |
| `Logs.Log.Read` | cpp/core/storage/log.hpp:114-124 | binary search over segments, then hint and scan, return what the last segment starting at or before the offset holds |
| `Logs.Log.HoldsContents` | cpp/core/storage/log.hpp:114-124 | in every reachable log, offset k holds the k-th payload when k is below the next offset and nothing otherwise |
| `Logs.Log.RollNewSegment` | cpp/core/storage/log.hpp:138-142 | a new segment follows a sealed one with nothing in it, and the contents are unchanged |
| `Logs.Log.Append` | cpp/core/storage/log.hpp:47-63 | a record is appended at the next offset exactly when it fits an empty segment and the log is not stuck; a rejected append changes no record and no offset |
| `Logs.Log.AppendBatch` | cpp/core/storage/log.hpp:69-106 | a batch with a record that can never fit is rejected before anything is written; otherwise it is stored whole and consecutively across rollovers, with one flush if asked |
| `Logs.Log.Flush` | cpp/core/storage/log.hpp:108-112 | every byte of every segment is synced and the whole contents count as acknowledged |
| `Logs.Log.ViewsOkFrom` | cpp/core/storage/log.hpp:47-112 | in every reachable log all segments but the last are synced whole, the segments hold the contents, and what was flushed is synced |
| `Logs.Log.FlushedSurvive` | cpp/core/storage/log.hpp:69-112 | at any moment, also between the records of a batch, and for every crash image: all records flushed, by this or an earlier incarnation of the log, read back at their offsets from the directory left, if and only if the payload at offset 0 is not empty |
| `Logs.OpenAfterCrash` | cpp/core/storage/log.hpp:40-45 | the directory a crash leaves opens, and the log returns every flushed record at its offset, if and only if the payload at offset 0 is not empty; it is then valid again, its contents start with everything flushed, and all of them count as flushed, so that durability holds over any number of crashes |
| `Logs.Log.CloseAndReopen` | cpp/core/storage/log.hpp:158-179 | for every log, whatever lies behind its records: the directory it leaves when closed reads as the log did, if and only if the payload at offset 0 is not empty and the newest file accepts nothing behind its records; flushed records stay flushed |
| `Logs.Log.CleanReopens` | cpp/core/storage/log.hpp:158-179 | a log with nothing but zeros behind its records has nothing stray there, and its closed directory opens with zeros behind the records again |
| `Logs.OpenAfterClose` | cpp/core/storage/log.hpp:40-45 | the closed directory opens, and every offset reads as before, if and only if the payload at offset 0 is not empty and nothing stray lies behind the newest segment's records; unless that payload is empty the log is valid, starts with the contents it had, and has lost no flushed record |
| `Logs.OpenStuck` | cpp/core/storage/log.hpp:47-63 | for every segment size a directory exists whose log opens valid, empty and unable to append |
| `Timers.FiresOnceAtDeadline` | cpp/core/timer/timer_wheel.hpp:45-108 | over every run a pending timer fires exactly once, on the tick of its deadline, unless cancelled before that tick, and is pending exactly until then |
| `Timers.AddedTimerFires` | cpp/core/timer/timer_wheel.hpp:45-59 | an added timer fires exactly once, unless cancelled before, on the n-th tick after it was added, where n is the number of whole ticks in the delay, but at least 1 |
| `Timers.GoneForGood` | cpp/core/timer/timer_wheel.hpp:63-108 | a timer that fired or was cancelled never fires again |
| `TimerWheels.SlotForTicks` | cpp/core/timer/timer_wheel.hpp:48-53 | the slot and revolutions chosen are worth exactly the ticks asked for |
| `TimerWheels.DueInSlot` | cpp/core/timer/timer_wheel.hpp:87-95 | the entries of the current slot without revolutions left are exactly the timers whose deadline is the next tick, in the order added |
| `TimerWheels.TickRepresents` | cpp/core/timer/timer_wheel.hpp:81-101 | decrementing revolutions and advancing the slot represent the clock one tick later |
| `TimerWheels.TimerWheel.AddTimer` | cpp/core/timer/timer_wheel.hpp:45-59 | the wheel represents the map with the new deadline added, under a fresh id |
| `TimerWheels.TimerWheel.Cancel` | cpp/core/timer/timer_wheel.hpp:63-76 | returns true exactly when the timer is still pending, and then it is not pending any more |
| `TimerWheels.TimerWheel.Tick` | cpp/core/timer/timer_wheel.hpp:81-108 | fires the callbacks of exactly the timers due, in the order added, and forgets them |
| `Liveness.DeadAfterSilence` | cpp/core/net/connection_manager.hpp:35-76 | what liveness demands: in every run that registers only untracked connections, a report exactly `timeout` ticks after the last registration or heartbeat, once |
| `Liveness.NeverAfterUnregister` | cpp/core/net/connection_manager.hpp:40-47 | and no report after unregistering |
| `ConnectionManagers.ReportIdealIff` | cpp/core/net/connection_manager.hpp:65-76 | a tick reports exactly the connections whose deadline it is, each once, if and only if no timer without an owner is due |
| `ConnectionManagers.StepMatched` | cpp/core/net/connection_manager.hpp:35-76 | every event does what liveness demands and keeps tracked connections and pending timeouts in bijection, except exactly the registration of a tracked connection |
| `ConnectionManagers.ReportsAreIdealIff` | cpp/core/net/connection_manager.hpp:35-76 | the reports of a run and of all its proper continuations are what liveness demands if and only if the run registers no connection while it is tracked |
| `ConnectionManagers.ReportedAfterSilence` | cpp/core/net/connection_manager.hpp:35-76 | in such runs the manager reports a connection, once, exactly n ticks after its last registration or heartbeat, where n is the number of whole ticks in the timeout, but at least 1 |
| `ConnectionManagers.DeadAfterUnregister` | cpp/core/net/connection_manager.hpp:35-47 | a connection registered twice and then unregistered is still reported dead when its first timeout comes |
| `ConnectionManagers.ConnectionManager.RegisterConnection` | cpp/core/net/connection_manager.hpp:35-38 | a timer is added whatever was there; the bijection is kept if and only if the connection was not tracked |
| `ConnectionManagers.ConnectionManager.UnregisterConnection` | cpp/core/net/connection_manager.hpp:40-47 | the timer of a tracked connection is cancelled and the connection forgotten; the bijection is kept |
| `ConnectionManagers.ConnectionManager.OnHeartbeatReceived` | cpp/core/net/connection_manager.hpp:51-57 | the timer of a tracked connection is replaced by a new one, any other heartbeat is ignored; the bijection is kept |
| `ConnectionManagers.ConnectionManager.Tick` | cpp/core/net/connection_manager.hpp:65-76 | the connections of the timers due are reported in order and forgotten, in every state; from a state in bijection these are exactly the connections whose deadline it is |
| `Backpressure.LagIsBounded` | cpp/core/broker/partition.hpp:59-93 | in every run with at most m publishers between check and append and batches of at most n, lag never exceeds max_lag_records + m * n - 1 |
| `Backpressure.StartWithinBound` | cpp/core/broker/partition.hpp:123-130 | a start with idle publishers is covered exactly when its lag is within the bound |
| `Backpressure.BoundIsReached` | cpp/core/broker/partition.hpp:59-93 | for all limits and every m some run reaches the bound |
| `Backpressure.OverLimitIff` | cpp/core/broker/partition.hpp:123-130 | the check refuses exactly when a limit is set and some group has that many records or more still to read |
| `Backpressure.NotRefusedUnlimited` | cpp/core/broker/partition.hpp:123-130 | in every run, no publish is refused while no limit is set or no group is registered |
| `Partitions.Partition.OverLagLimit` | cpp/core/broker/partition.hpp:123-130 | the check holds exactly when a limit is set and some registered group has that many records or more still to read |
| `Partitions.Partition.TryPublish` | cpp/core/broker/partition.hpp:59-74 | refused exactly when over the limit; otherwise appended to the log, and durable under the per-message policy; a refused or failed publish changes no record |
| `Partitions.Partition.TryPublishBatch` | cpp/core/broker/partition.hpp:76-93 | an empty batch is acknowledged unchecked; any other is refused exactly when over the limit, and otherwise stored whole or not at all |
| `OffsetKeys.PartitionKeyInjective` | cpp/core/broker/offset_store.hpp:64-66 | partition keys tell every topic and partition apart |
| `OffsetKeys.DigitsSpell` | cpp/core/broker/offset_store.hpp:64-69 | partition numbers are written in decimal without leading zeros |
| `OffsetKeys.EntryKeyInjective` | cpp/core/broker/offset_store.hpp:67-69 | within a topic, entry keys tell every partition and group apart |
| `OffsetKeys.TopicsCollideIff` | cpp/core/broker/offset_store.hpp:64-69 | two topics share an entry key if and only if one spells a partition of the other |
| `OffsetStores.PlainNamesSeparable` | cpp/core/broker/offset_store.hpp:64-69 | topics without '#' never collide |
| `OffsetStores.StoreIsMap` | cpp/core/broker/offset_store.hpp:27-61 | over every run on topics that do not collide, the store answers as a map keyed by topic, partition and group |
| `OffsetStores.StoreAnswers` | cpp/core/broker/offset_store.hpp:27-61 | over every such run a look-up answers the last offset committed for its topic, partition and group, 0 after a registration only; and the least committed offset is the least of these over the groups registered, none if there is none |
| `OffsetStores.ConfusedUnlessSeparable` | cpp/core/broker/offset_store.hpp:27-69 | two topics are handled as that map by every run if and only if neither spells a partition of the other |
| `OffsetStores.OffsetStore.RegisterGroup` | cpp/core/broker/offset_store.hpp:27-32 | the group is registered and a missing entry starts at 0 |
| `OffsetStores.OffsetStore.CommitOffset` | cpp/core/broker/offset_store.hpp:34-37 | exactly that entry changes |
| `OffsetStores.OffsetStore.GetOffset` | cpp/core/broker/offset_store.hpp:39-44 | the committed offset, or none |
| `OffsetStores.OffsetStore.MinCommittedOffset` | cpp/core/broker/offset_store.hpp:49-61 | the least offset over registered groups, a group that never committed counting as 0, and none if no group is registered |
| `Delivery.GroupDelivery` | cpp/core/broker/consumer.hpp:42-84 | over every run of publishes, polls, commits and restarts of consumers of any topics and groups on one string-keyed store, every offset below a committed value was delivered to its group with its payload, if and only if no topic spells a partition that another topic has |
| `Delivery.ConsecutiveInEveryRun` | cpp/core/broker/consumer.hpp:62-78 | over every such run each instance returned consecutive records of each of its partitions from where it started |
| `Delivery.NoDoubleDelivery` | cpp/core/broker/consumer.hpp:10-13 | over every run in which a group has one instance per index, no offset of a partition is returned twice |
| `Delivery.RegisteringKeepsOffsets` | cpp/core/broker/consumer.hpp:46-50 | registering a group changes no committed offset of any topic, partition or group |
| `Delivery.RegisteringJoins` | cpp/core/broker/consumer.hpp:46-50 | and it registers the group for exactly the partitions of its share |
| `Consumers.Consumer.constructor` | cpp/core/broker/consumer.hpp:42-52 | a member owns its share of the partitions, registers the group for them and starts at the committed offsets, which registering does not change |
| `Delivery.SharesSplit` | cpp/core/broker/consumer.hpp:46-50 | every partition is in the share of exactly one member index from 0 to group_size - 1 |
| `Consumers.Consumer.Poll` | cpp/core/broker/consumer.hpp:62-78 | in whatever order partitions are visited, a poll returns the next records of each in order, at most the maximum, and fewer only if every partition has run dry |
| `Consumers.Consumer.Commit` | cpp/core/broker/consumer.hpp:80-84 | the cursor of every assigned partition is committed, in some order, and no other entry changes |
| `ReplicatedFsm.Fsm.Apply` | go/raftnode/fsm.go:71-115 | every command gives the state and result of the transition function, whose answers and records the rows below characterise from the log alone |
| `ReplicatedFsm.Fsm.TakeSnapshot` | go/raftnode/fsm.go:147-154 | the snapshot lists exactly the topics, brokers (in milliseconds), counter and nodes |
| `ReplicatedFsm.Fsm.Restore` | go/raftnode/fsm.go:156-176 | the state rebuilt from a snapshot replaces whatever was there |
| `ReplicatedFsm.RestoreSnapshot` | go/controlplane/snapshot_support.go:13-57 | restoring any snapshot of a state gives it with times cut to whole milliseconds, so the state itself if and only if its times are whole |
| `ReplicatedFsm.SnapshotEquivalence` | go/raftnode/fsm.go:71-176 | for every timestamped log and every cut, restoring a snapshot taken at the cut and applying the rest gives the state and the later results of applying the whole log, whatever the replicas' clocks say |
| `ReplicatedFsm.Deterministic` | go/controlplane/membership_at.go:10-29 | replicas that apply the same timestamped log agree on state and results, whatever their clocks say |
| `ReplicatedFsm.ClockIgnoredIff` | go/raftnode/fsm.go:80-97 | a command gives the same state and result on every clock if and only if it carries a timestamp, should it be a registration or heartbeat |
| `ReplicatedFsm.ClockStampRestoredIff` | go/controlplane/snapshot_support.go:31-57 | from a state with whole milliseconds, a registration or heartbeat without a timestamp is restored as it was if and only if the clock showed a whole millisecond or the broker was unknown to the heartbeat |
| `ReplicatedFsm.TopicsAreImmutable` | go/controlplane/metadata_store.go:25-37 | over every log a topic never changes once created |
| `ReplicatedFsm.TopicIsFirstCreation` | go/controlplane/metadata_store.go:25-37 | over every log a topic is what the first valid command to create it said, and exists exactly if there was one |
| `ReplicatedFsm.BrokerIsLatest` | go/controlplane/membership_at.go:10-29 | over every timestamped log a broker's record is its last registration with the latest heartbeat since, in whatever order heartbeats come, and there is one exactly if it was registered |
| `ReplicatedFsm.NodeIsLatest` | go/raftnode/fsm.go:104-111 | over every log a node's record has the id and the Raft and gRPC addresses of its last registration, field by field |
| `ReplicatedFsm.NodeIffRegistered` | go/raftnode/fsm.go:104-111 | and there is a record exactly if there was a registration |
| `ReplicatedFsm.AnswersFollow` | go/raftnode/fsm.go:71-115 | over every log, from the commands before it: a topic is refused exactly if it was created before or has no partitions, a heartbeat exactly if its broker was never registered, malformed and unknown commands with their own errors, every other command succeeds, and the n-th increment answers n |
| `ReplicatedFsm.NthIncrementReturnsN` | go/raftnode/fsm.go:98-103 | the n-th increment of a log returns n |
| `Framing.EncodeFrame` | cpp/core/net/framing.hpp:32-41 | a payload of at most 16 MiB is encoded with its length in front, any other is refused |
| `Framing.FrameDecoder.TryExtract` | cpp/core/net/framing.hpp:64-81 | the next frame and the buffer behind it, nothing while it is incomplete, an error for an oversized length |
| `Framing.HeadersInOrder` | cpp/core/net/framing.hpp:32-41 | the length is written most significant byte first: headers are in dictionary order exactly as lengths are in order |
| `Framing.ExtractIff` | cpp/core/net/framing.hpp:64-81 | an extract yields a payload exactly if the buffer starts with the encoding of one within the cap, and an error exactly if a whole header is there and no bytes to come can make it so |
| `Framing.AnyChunking` | cpp/core/net/framing.hpp:55-81 | for every byte stream and every way of cutting it into feeds among extracts, what was extracted and what can still be extracted is what the whole stream holds, and re-encodes to what was fed |
| `Framing.ChunkedFrames` | cpp/core/net/framing.hpp:32-81 | for every list of payloads within the cap and every such cutting of their encodings, the decoder yields them in order and its buffer is exactly the encoding of the rest |
| `Framing.ExtractsWhenComplete` | cpp/core/net/framing.hpp:64-81 | on a well-formed stream an extract yields the next payload exactly when its frame is complete, and never an error |
| `JitterBuffers.JitterBuffer.Push` | cpp/core/media/jitter_buffer.hpp:43-56 | a frame is taken in exactly when its slot has not been played; the playout history stays valid |
| `JitterBuffers.JitterBuffer.Pull` | cpp/core/media/jitter_buffer.hpp:64-92 | plays the next frame if present, conceals it with the last good payload if absent once the first arrival plus target delay plus one interval per slot has come, otherwise changes nothing; the playout history stays valid |
| `JitterBuffers.LastGoodIs` | cpp/core/media/jitter_buffer.hpp:71-89 | what concealment repeats is the payload of the latest real packet played |
| `JitterBuffers.ConcealmentsIs` | cpp/core/media/jitter_buffer.hpp:82-89 | the count of concealments kept by the buffer is the number of slots concealed |
| `JitterBuffers.PacketKeeps` | cpp/core/media/jitter_buffer.hpp:71-80 | playing a buffered frame keeps the history: consecutive sequence numbers, and every accepted frame played once or still buffered |
| `JitterBuffers.ConcealKeeps` | cpp/core/media/jitter_buffer.hpp:82-89 | concealing an absent frame at its deadline keeps the history, and that frame is never accepted later |
| `ConsistentHash.OwnerIff` | cpp/core/broker/consistent_hash.hpp:46-52 | the owner point of a hash is the least point from it on, or the least of all if there is none |
| `ConsistentHash.AddMovesOnlyToNew` | cpp/core/broker/consistent_hash.hpp:30-35 | adding a partition moves a key only onto it, even where ring points collide |
| `ConsistentHash.BuiltPoints` | cpp/core/broker/consistent_hash.hpp:30-41 | on every ring built by additions and removals, each point belongs to a partition with a virtual node there |
| `ConsistentHash.UndisputedIffDistinct` | cpp/core/broker/consistent_hash.hpp:30-41 | over every run of additions and removals no partition's point is ever another's, if and only if the virtual nodes of different partitions hash differently |
| `ConsistentHash.CollisionFree` | cpp/core/broker/consistent_hash.hpp:57-60 | virtual nodes have different texts, so that a hash that tells these texts apart gives different partitions different points |
| `ConsistentHash.PointsCount` | cpp/core/broker/consistent_hash.hpp:30-35 | and a partition as many points as virtual nodes |
| `ConsistentHash.RemoveMovesOnlyOwn` | cpp/core/broker/consistent_hash.hpp:37-41 | on every ring that additions and removals of partitions build, if the virtual nodes of different partitions hash differently, removing a partition moves only its own keys |
| `ConsistentHash.RemoveMovesOnlyOwnIff` | cpp/core/broker/consistent_hash.hpp:37-41 | on any ring, removing a partition moves only its own keys if and only if, on the ring without the removed points, the first point behind each point taken over by another partition belongs to that partition |
| `ConsistentHash.AddRemoveRestores` | cpp/core/broker/consistent_hash.hpp:30-41 | on every ring so built, if virtual nodes of different partitions hash differently, adding an absent partition and removing it restores the ring, and so every key's owner |
| `ConsistentHash.AddRemoveRestoresRing` | cpp/core/broker/consistent_hash.hpp:30-41 | removing a just-added partition restores the ring if and only if none of its points was taken |
| `ConsistentHash.AddRemoveRestoresOwners` | cpp/core/broker/consistent_hash.hpp:30-41 | it restores the owner of every key if and only if the first point behind each point that was taken belongs to the partition that had it |
| `ConsistentHash.CollisionMovesOthers` | cpp/core/broker/consistent_hash.hpp:37-41 | on a ring built by adding three partitions of which two collide, removing one moves a key of another |
| `ConsistentHash.ConsistentHashRing.AddPartition` | cpp/core/broker/consistent_hash.hpp:30-35 | the loop puts every virtual node on the ring and changes no other point |
| `ConsistentHash.ConsistentHashRing.RemovePartition` | cpp/core/broker/consistent_hash.hpp:37-41 | the loop takes every virtual node off the ring and changes no other point |
| `ConsistentHash.ConsistentHashRing.PartitionFor` | cpp/core/broker/consistent_hash.hpp:46-52 | the partition of the first point at or after the key's hash, wrapping around, and nothing on an empty ring |

## Left out

- C++ memory orderings weaker than sequential consistency, cache-line padding, placement new and destructors: steps interleave but are never reordered.
- Wrap-around of 64-bit tickets, offsets and the FSM's counter, and of 32-bit frame sequence numbers: counters are unbounded, and methods that store an offset ask that it fits.
- Wrap-around of the pool's 32-bit generation: excluded by the `Timely` hypothesis that no thread holds a head word 2^32 updates old.
- MemoryPool: the constructor's first slab is the initial state; allocation failure of the operating system is not modelled.
- RingArith.RoundUpPow2: requests above 2^63, for which the source's loop never ends, are excluded.
- The concurrent structures, backpressure and the group runs are modelled on values, not as objects shared between threads; locks appear as single steps.
- mmap, msync, ftruncate and directory syncs: synced bytes survive a crash, file creation and file size are durable at rollover, and a crash leaves any other bytes arbitrary.
- Reads of bytes that were damaged while a segment is open: `Segments.Segment.ReadFrom` is stated for the bytes the segment wrote or replayed. README.md:133 of the source says checksums are validated on every read; `read_from` does not do that.
- Listing a directory: `Logs.Log.Open` takes the files already sorted by base offset. What a log closed with one segment size holds when opened with another is not stated.
- ReplicatedFsm.SnapshotEquivalence: stated for logs whose register and heartbeat commands carry a timestamp, as the leader assigns it (go/replicated/server.go:57); `ReplicatedFsm.RestoreSnapshot` gives the exact condition on a state.
- Consumers.Consumer.Poll: reads logs that do not change during the poll; in the runs of `Delivery`, starting a consumer, a poll and a commit are single steps.
- Retrying publishes with timeouts (`publish`, `publish_batch`), metrics, and the producer.
- Callbacks that call back into the timer wheel or the connection manager while a tick is being delivered.
- JSON and protobuf encodings, gRPC, HashiCorp Raft itself: replicas apply one agreed list of decoded commands.
- Sockets, epoll, io_uring, sendfile, UDP, the HTTP server, TLS, command-line tools and dashboards.
- Bitrate control, network estimation, rate limiting and adaptive sending, which rest on floating point and wall clocks.
- Logger, configuration, tracing, silence detector, retransmit cache, thread pool and audio packet codec: support code that none of the modelled parts depends on.
