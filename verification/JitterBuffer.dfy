/** Playout through a jitter buffer, with the whole history of a run. */
module JitterBuffers {
  import opened Options
  import opened Crc32

  datatype Kind = Packet | Concealed | NotReady

  datatype PullResult = PullResult(kind: Kind, sequence: nat, payload: Bytes)

  const NOTHING: PullResult := PullResult(NotReady, 0, [])

  // One played slot, and the time it was played.
  datatype Slot = Slot(kind: Kind, sequence: nat, payload: Bytes, at: nat)

  // The payload of the last real packet among the slots, empty if there is none.
  function LastGood(played: seq<Slot>): Bytes {
    if played == [] then []
    else if played[|played| - 1].kind == Packet then played[|played| - 1].payload
    else LastGood(played[..|played| - 1])
  }

  predicate HasGood(played: seq<Slot>) { exists i :: 0 <= i < |played| && played[i].kind == Packet }

  function Concealments(played: seq<Slot>): nat {
    if played == [] then 0
    else Concealments(played[..|played| - 1]) + if played[|played| - 1].kind == Concealed then 1 else 0
  }

  // The first-arrived frame and the configured delays.
  datatype Timing = Timing(baseSequence: nat, baseArrivalMs: nat, targetDelayMs: nat, frameIntervalMs: nat)

  // When slot i, counted from the first frame, is due.
  function Deadline(t: Timing, i: nat): nat { t.baseArrivalMs + t.targetDelayMs + i * t.frameIntervalMs }

  // Slot i was played as the rules demand.
  ghost predicate SlotOk(t: Timing, played: seq<Slot>, accepted: map<nat, Bytes>, i: nat)
    requires i < |played|
  {
    && played[i].sequence == t.baseSequence + i
    && played[i].kind != NotReady
    && (played[i].kind == Packet ==>
          played[i].sequence in accepted && accepted[played[i].sequence] == played[i].payload)
    && (played[i].kind == Concealed ==>
          && played[i].sequence !in accepted && Deadline(t, i) <= played[i].at
          && played[i].payload == LastGood(played[..i]))
  }

  // Each accepted frame was played, once, or is still buffered.
  ghost predicate FramesOk(base: nat, played: seq<Slot>, accepted: map<nat, Bytes>, buffer: map<nat, Bytes>) {
    && (forall s :: s in buffer ==> s >= base + |played| && s in accepted && accepted[s] == buffer[s])
    && (forall s :: s in accepted ==> s in buffer || WasPlayed(base, played, s))
  }

  ghost predicate WasPlayed(base: nat, played: seq<Slot>, s: nat) {
    base <= s < base + |played| && played[s - base].kind == Packet
  }

  /** Consecutive sequence numbers from the first-arrived frame; a slot is
      concealed only if its frame was absent when its deadline had come, and
      repeats the last good payload; and each accepted frame was played once
      or is still buffered. */
  ghost predicate Playout(t: Timing, played: seq<Slot>, accepted: map<nat, Bytes>, buffer: map<nat, Bytes>) {
    && (forall i :: 0 <= i < |played| ==> SlotOk(t, played, accepted, i))
    && FramesOk(t.baseSequence, played, accepted, buffer)
  }

  lemma PushKeeps(t: Timing, played: seq<Slot>, accepted: map<nat, Bytes>, buffer: map<nat, Bytes>,
                  s: nat, payload: Bytes)
    requires Playout(t, played, accepted, buffer) && s >= t.baseSequence + |played|
    ensures Playout(t, played, accepted[s := payload], buffer[s := payload])
  {
    hide Deadline, LastGood;
    var accepted' := accepted[s := payload];
    forall i | 0 <= i < |played| ensures SlotOk(t, played, accepted', i) {
      assert SlotOk(t, played, accepted, i);
    }
  }

  lemma SlotsKept(t: Timing, played: seq<Slot>, accepted: map<nat, Bytes>, slot: Slot)
    requires forall i :: 0 <= i < |played| ==> SlotOk(t, played, accepted, i)
    requires SlotOk(t, played + [slot], accepted, |played|)
    ensures forall i :: 0 <= i <= |played| ==> SlotOk(t, played + [slot], accepted, i)
  {
    hide Deadline, LastGood;
    forall i | 0 <= i < |played| ensures SlotOk(t, played + [slot], accepted, i) {
      assert SlotOk(t, played, accepted, i);
      assert (played + [slot])[..i] == played[..i];
    }
  }

  lemma PacketKeeps(t: Timing, played: seq<Slot>, accepted: map<nat, Bytes>, buffer: map<nat, Bytes>, slot: Slot)
    requires Playout(t, played, accepted, buffer)
    requires slot.kind == Packet && slot.sequence == t.baseSequence + |played|
    requires slot.sequence in buffer && slot.payload == buffer[slot.sequence]
    ensures Playout(t, played + [slot], accepted, buffer - {slot.sequence})
  {
    hide Deadline, LastGood, SlotOk, WasPlayed;
    NewSlot(t, played, accepted, slot);
    SlotsKept(t, played, accepted, slot);
    forall s | s in accepted ensures s in buffer - {slot.sequence} || WasPlayed(t.baseSequence, played + [slot], s) {
      PlayedStays(t.baseSequence, played, slot, s);
    }
  }

  lemma ConcealKeeps(t: Timing, played: seq<Slot>, accepted: map<nat, Bytes>, buffer: map<nat, Bytes>, slot: Slot)
    requires Playout(t, played, accepted, buffer)
    requires slot.kind == Concealed && slot.sequence == t.baseSequence + |played| && slot.sequence !in buffer
    requires Deadline(t, |played|) <= slot.at && slot.payload == LastGood(played)
    ensures Playout(t, played + [slot], accepted, buffer)
  {
    hide Deadline, LastGood, SlotOk, WasPlayed;
    PlayedStays(t.baseSequence, played, slot, slot.sequence);
    NewSlot(t, played, accepted, slot);
    SlotsKept(t, played, accepted, slot);
    forall s | s in accepted ensures s in buffer || WasPlayed(t.baseSequence, played + [slot], s) {
      PlayedStays(t.baseSequence, played, slot, s);
    }
  }

  lemma PlayedStays(base: nat, played: seq<Slot>, slot: Slot, s: nat)
    requires slot.sequence == base + |played|
    ensures WasPlayed(base, played, s) ==> WasPlayed(base, played + [slot], s)
    ensures WasPlayed(base, played, s) ==> s < slot.sequence
    ensures slot.kind == Packet ==> WasPlayed(base, played + [slot], slot.sequence)
  {
  }

  lemma NewSlot(t: Timing, played: seq<Slot>, accepted: map<nat, Bytes>, slot: Slot)
    requires slot.sequence == t.baseSequence + |played| && slot.kind != NotReady
    requires slot.kind == Packet ==> slot.sequence in accepted && accepted[slot.sequence] == slot.payload
    requires slot.kind == Concealed ==>
               slot.sequence !in accepted && Deadline(t, |played|) <= slot.at && slot.payload == LastGood(played)
    ensures SlotOk(t, played + [slot], accepted, |played|)
  {
  }

  lemma OneMore(played: seq<Slot>, slot: Slot)
    ensures LastGood(played + [slot]) == if slot.kind == Packet then slot.payload else LastGood(played)
    ensures HasGood(played + [slot]) <==> slot.kind == Packet || HasGood(played)
    ensures Concealments(played + [slot]) == Concealments(played) + if slot.kind == Concealed then 1 else 0
    ensures !HasGood(played) ==> LastGood(played) == []
  {
    assert (played + [slot])[..|played|] == played;
    NoGoodNoPayload(played);
    if HasGood(played) {
      var i :| 0 <= i < |played| && played[i].kind == Packet;
      assert (played + [slot])[i].kind == Packet;
    }
    if slot.kind == Packet { assert (played + [slot])[|played|].kind == Packet; }
  }

  class JitterBuffer {
    const frameIntervalMs: nat
    const targetDelayMs: nat
    var started: bool
    var baseArrivalMs: nat
    var baseSequence: nat
    var nextSequence: nat
    var buffer: map<nat, Bytes>
    var lastGoodPayload: Bytes
    var hasLastGood: bool
    var concealedCount: nat
    var packetsPlayed: nat
    var lateAfterDeadline: nat
    ghost var played: seq<Slot>            // everything played so far
    ghost var accepted: map<nat, Bytes>    // every frame taken in, with its latest payload
    ghost var first: Option<(nat, nat)>    // sequence and arrival of the first frame

    function Times(): Timing
      reads this
    {
      Timing(baseSequence, baseArrivalMs, targetDelayMs, frameIntervalMs)
    }

    ghost predicate Valid()
      reads this
    {
      && (started <==> first.Some?)
      && (!started ==> played == [] && accepted == map[] && buffer == map[])
      && (started ==> first.value == (baseSequence, baseArrivalMs) && nextSequence == baseSequence + |played|)
      && (started ==> Playout(Times(), played, accepted, buffer))
      && lastGoodPayload == LastGood(played) && hasLastGood == HasGood(played)
      && packetsPlayed == |played| && concealedCount == Concealments(played)
    }

    constructor (frameIntervalMs: nat, targetDelayMs: nat)
      ensures Valid() && !started
      ensures this.frameIntervalMs == frameIntervalMs && this.targetDelayMs == targetDelayMs
    {
      this.frameIntervalMs, this.targetDelayMs := frameIntervalMs, targetDelayMs;
      started, baseArrivalMs, baseSequence, nextSequence := false, 0, 0, 0;
      buffer, lastGoodPayload, hasLastGood := map[], [], false;
      concealedCount, packetsPlayed, lateAfterDeadline := 0, 0, 0;
      played, accepted, first := [], map[], None;
    }

    /** A frame is taken in exactly when its slot has not been played yet. */
    method Push(sequence: nat, payload: Bytes, arrivalMs: nat)
      requires Valid()
      modifies this
      ensures Valid() && started && played == old(played)
      ensures first == if old(started) then old(first) else Some((sequence, arrivalMs))
      ensures old(started) && sequence < old(nextSequence) ==>
                accepted == old(accepted) && buffer == old(buffer) && lateAfterDeadline == old(lateAfterDeadline) + 1
      ensures !(old(started) && sequence < old(nextSequence)) ==>
                accepted == old(accepted)[sequence := payload] && buffer == old(buffer)[sequence := payload] &&
                lateAfterDeadline == old(lateAfterDeadline)
    {
      if !started {
        started := true;
        baseArrivalMs := arrivalMs;
        baseSequence := sequence;
        nextSequence := sequence;
        first := Some((sequence, arrivalMs));
      }
      if sequence < nextSequence {
        lateAfterDeadline := lateAfterDeadline + 1;
        return;
      }
      PushKeeps(Times(), played, accepted, buffer, sequence, payload);
      buffer := buffer[sequence := payload];
      accepted := accepted[sequence := payload];
    }

    /** A pull plays the next frame if it is there, conceals it if it is absent
        and its deadline has come, and otherwise changes nothing.  The deadline of
        the first frame is the target delay after its arrival, and each later
        frame is due one frame interval after the one before. */
    method Pull(nowMs: nat) returns (r: PullResult)
      requires Valid()
      modifies this
      ensures Valid() && started == old(started) && first == old(first) && accepted == old(accepted)
      ensures var next := old(nextSequence);
              r == if !old(started) then NOTHING
                   else if next in old(buffer) then PullResult(Packet, next, old(buffer)[next])
                   else if nowMs >= old(first.value.1 + targetDelayMs + |played| * frameIntervalMs)
                   then PullResult(Concealed, next, old(LastGood(played)))
                   else NOTHING
      ensures played == if r.kind == NotReady then old(played)
                        else old(played) + [Slot(r.kind, r.sequence, r.payload, nowMs)]
      ensures buffer == if r.kind == Packet then old(buffer) - {r.sequence} else old(buffer)
    {
      hide LastGood, HasGood, Concealments, Playout;
      OneMore(played, Slot(Concealed, 0, [], 0));
      if !started { return NOTHING; }
      var slot := nextSequence - baseSequence;
      var deadline := baseArrivalMs + targetDelayMs + slot * frameIntervalMs;
      if nextSequence in buffer {
        r := PullResult(Packet, nextSequence, buffer[nextSequence]);
        PacketKeeps(Times(), played, accepted, buffer, Slot(Packet, nextSequence, r.payload, nowMs));
        lastGoodPayload := r.payload;
        hasLastGood := true;
        buffer := buffer - {nextSequence};
      } else if nowMs >= deadline {
        r := PullResult(Concealed, nextSequence, if hasLastGood then lastGoodPayload else []);
        ConcealKeeps(Times(), played, accepted, buffer, Slot(Concealed, nextSequence, r.payload, nowMs));
        concealedCount := concealedCount + 1;
      } else {
        return NOTHING;
      }
      OneMore(played, Slot(r.kind, r.sequence, r.payload, nowMs));
      nextSequence := nextSequence + 1;
      packetsPlayed := packetsPlayed + 1;
      played := played + [Slot(r.kind, r.sequence, r.payload, nowMs)];
    }
  }

  /** What concealment repeats is the payload of the latest real packet. */
  lemma {:induction false} LastGoodIs(played: seq<Slot>, i: nat)
    requires i < |played| && played[i].kind == Packet && forall j :: i < j < |played| ==> played[j].kind != Packet
    ensures LastGood(played) == played[i].payload
    decreases |played|
  {
    if i < |played| - 1 { LastGoodIs(played[..|played| - 1], i); }
  }

  lemma {:induction false} ConcealmentsIs(played: seq<Slot>)
    ensures Concealments(played) == |set i | 0 <= i < |played| && played[i].kind == Concealed|
  {
    if played != [] {
      var n := |played| - 1;
      ConcealmentsIs(played[..n]);
      var before := set i | 0 <= i < n && played[..n][i].kind == Concealed;
      var all := set i | 0 <= i < |played| && played[i].kind == Concealed;
      assert all == before + if played[n].kind == Concealed then {n} else {};
    }
  }

  lemma {:induction false} NoGoodNoPayload(played: seq<Slot>)
    ensures !HasGood(played) ==> LastGood(played) == []
  {
    if played != [] {
      NoGoodNoPayload(played[..|played| - 1]);
      assert HasGood(played[..|played| - 1]) ==> HasGood(played);
    }
  }
}
