/** One partition of a topic: the lag check in front of the log. */
module Partitions {
  import opened Options
  import opened Crc32
  import opened Record
  import opened Segments
  import opened Logs
  import opened OffsetKeys
  import opened OffsetStores
  import Backpressure

  datatype PublishResult = Published(offset: nat) | Refused | Failed(result: AppendResult)

  datatype BatchAck = Acked(first: nat, count: nat) | BatchRefused | BatchError(result: BatchResult)

  class Partition {
    const topic: string
    const index: int
    const log: Log
    const store: OffsetStore
    const maxLagRecords: nat
    const flushPerMessage: bool

    constructor (topic: string, index: int, log: Log, store: OffsetStore, maxLagRecords: nat, flushPerMessage: bool)
      ensures this.topic == topic && this.index == index && this.log == log && this.store == store
      ensures this.maxLagRecords == maxLagRecords && this.flushPerMessage == flushPerMessage
    {
      this.topic, this.index, this.log, this.store := topic, index, log, store;
      this.maxLagRecords, this.flushPerMessage := maxLagRecords, flushPerMessage;
    }

    ghost predicate OverLimit()
      reads log, store
    {
      Backpressure.OverLimit(maxLagRecords, Least(Offsets(store.Contents(), topic, index)), log.nextOffset)
    }

    /** The check publishers make holds exactly when a limit is set and some
        registered group has that many records or more still to read. */
    method OverLagLimit() returns (over: bool)
      ensures over == OverLimit()
      ensures over <==> maxLagRecords > 0 && exists g ::
                g in GroupsOf(store.Contents().groups, PartitionKey(topic, index)) &&
                OffsetOf(store.Contents(), Key(topic, index, g)) + maxLagRecords <= log.nextOffset
    {
      OverLimitMeans();
      if maxLagRecords == 0 { return false; }
      var least := store.MinCommittedOffset(topic, index);
      if least == None { return false; }
      var hwm := log.nextOffset;
      var lag := if hwm > least.value then hwm - least.value else 0;
      return lag >= maxLagRecords;
    }

    lemma OverLimitMeans()
      ensures OverLimit() <==> maxLagRecords > 0 && exists g ::
                g in GroupsOf(store.Contents().groups, PartitionKey(topic, index)) &&
                OffsetOf(store.Contents(), Key(topic, index, g)) + maxLagRecords <= log.nextOffset
    {
      var s := store.Contents();
      var offsets := Offsets(s, topic, index);
      Backpressure.OverLimitIff(maxLagRecords, offsets, log.nextOffset);
      forall g | g in GroupsOf(s.groups, PartitionKey(topic, index))
        ensures OffsetOf(s, Key(topic, index, g)) in offsets
      {
      }
    }

    /** A refused or failed publish changes no record; a published record is at
        the end of the log, and durable under the per-message policy. */
    method TryPublish(payload: Bytes) returns (r: PublishResult)
      requires log.Valid() && WellFormed(payload) && |log.contents| < MAX_OFFSET
      modifies log, log.Active(), log.Active().data
      ensures log.Valid()
      ensures r == if old(OverLimit()) then Refused
                   else if Fits(payload, log.maxBytes) && !old(log.Stuck()) then Published(old(log.nextOffset))
                   else Failed(TooLarge)
      ensures log.contents == if r.Published? then old(log.contents) + [payload] else old(log.contents)
      ensures r.Published? && flushPerMessage ==> log.flushed == |log.contents| && log.Synced()
    {
      hide Log.SegmentsOk, Log.Clean, Log.Stuck;
      var over := OverLagLimit();
      if over { return Refused; }
      var result := log.Append(payload);
      if result == TooLarge { return Failed(result); }
      if flushPerMessage { log.Flush(); }
      return Published(result.offset);
    }

    /** An empty batch is acknowledged without a check; any other is refused,
        fails or is stored whole. */
    method TryPublishBatch(payloads: seq<Bytes>) returns (r: BatchAck)
      requires log.Valid() && |log.contents| + |payloads| < MAX_OFFSET
      modifies log, log.Active(), log.Active().data
      ensures log.Valid()
      ensures payloads == [] ==> r == Acked(old(log.nextOffset), 0)
      ensures payloads != [] ==>
                (r == BatchRefused <==> old(OverLimit())) &&
                (r.Acked? <==>
                   && !old(OverLimit() || log.Stuck())
                   && forall p :: p in payloads ==> WellFormed(p) && Fits(p, log.maxBytes))
      ensures r.Acked? ==> r == Acked(old(log.nextOffset), |payloads|)
      ensures log.contents == if r.Acked? then old(log.contents) + payloads else old(log.contents)
      ensures r.Acked? && payloads != [] && flushPerMessage ==> log.flushed == |log.contents| && log.Synced()
    {
      hide Log.SegmentsOk, Log.Clean, Log.Stuck, Fits, WellFormed;
      if payloads == [] { return Acked(log.nextOffset, 0); }
      var over := OverLagLimit();
      if over { return BatchRefused; }
      var result := log.AppendBatch(payloads, flushPerMessage);
      if result.BatchAppended? { return Acked(result.first, |payloads|); }
      return BatchError(result);
    }
  }
}
