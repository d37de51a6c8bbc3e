/** The bounded multi-producer multi-consumer ring, as a transition system.
    Every atomic load, store or compare-and-swap of `try_push` and `try_pop`
    is one step of one thread; a schedule says which thread moves next, so a
    statement about all schedules is a statement about all interleavings.
    Tickets are unbounded naturals. */
module MpmcQueue {
  import opened Options
  import opened RingArith
  import opened Bags

  datatype Slot = Slot(sequence: nat, storage: Option<int>)

  // What a thread is about to do.
  datatype Pc =
    | Idle
    | PushLoad(v: int)                  // load tail_
    | PushProbe(v: int, pos: nat)       // load the slot's sequence
    | PushClaim(v: int, pos: nat)       // compare-and-swap tail_
    | PushWrite(v: int, pos: nat)       // construct the value in the slot
    | PushPublish(v: int, pos: nat)     // store pos + 1 into the sequence
    | PushReturn(ok: bool)
    | PopLoad                           // load head_
    | PopProbe(pos: nat)                // load the slot's sequence
    | PopClaim(pos: nat)                // compare-and-swap head_
    | PopTake(pos: nat)                 // move the value out of the slot
    | PopRelease(pos: nat, v: int)      // store pos + mask_ + 1 into the sequence
    | PopReturn(r: Option<int>)

  // `pushed` and `returned` are history: the value of every claimed push
  // ticket, and the (ticket, value) pairs that pops have returned.  No step
  // reads them.
  datatype Memory = Memory(slots: seq<Slot>, head: nat, tail: nat,
                           pushed: seq<int>, returned: seq<(nat, int)>)

  datatype State = State(mem: Memory, pcs: seq<Pc>)

  // What the environment decides: which call an idle thread makes, and
  // whether a weak compare-and-swap fails spuriously.
  datatype Choice = CallPush(v: int) | CallPop | Go | SpuriousFailure

  type Schedule = seq<(nat, Choice)>

  function Init(n: nat, threads: nat): State {
    State(Memory(seq(n, i requires 0 <= i => Slot(i, None)), 0, 0, [], []), seq(threads, i => Idle))
  }

  // One step of one thread: the shared memory and the thread's next step.
  function Act(m: Memory, pc: Pc, c: Choice): (r: (Memory, Pc))
    requires |m.slots| > 0
    ensures |r.0.slots| == |m.slots|
  {
    match pc
    case Idle => (m, Call(pc, c))
    case PushReturn(_) => (m, Call(pc, c))
    case PopReturn(_) => (m, Call(pc, c))
    case PushLoad(v) => (m, PushProbe(v, m.tail))
    case PushProbe(v, pos) => (m, AfterPushProbe(v, pos, m.slots[SlotOf(pos, |m.slots|)].sequence))
    case PushClaim(v, pos) =>
      if m.tail == pos && c != SpuriousFailure
      then (m.(tail := pos + 1, pushed := m.pushed + [v]), PushWrite(v, pos))
      else (m, PushProbe(v, m.tail))
    case PushWrite(v, pos) =>
      (SetSlot(m, pos, Slot(m.slots[SlotOf(pos, |m.slots|)].sequence, Some(v))), PushPublish(v, pos))
    case PushPublish(v, pos) =>
      (SetSlot(m, pos, Slot(pos + 1, m.slots[SlotOf(pos, |m.slots|)].storage)), PushReturn(true))
    case PopLoad => (m, PopProbe(m.head))
    case PopProbe(pos) => (m, AfterPopProbe(pos, m.slots[SlotOf(pos, |m.slots|)].sequence))
    case PopClaim(pos) =>
      if m.head == pos && c != SpuriousFailure
      then (m.(head := pos + 1), PopTake(pos))
      else (m, PopProbe(m.head))
    case PopTake(pos) =>
      var slot := m.slots[SlotOf(pos, |m.slots|)];
      (SetSlot(m, pos, Slot(slot.sequence, None)),
       PopRelease(pos, if slot.storage.Some? then slot.storage.value else 0))
    case PopRelease(pos, v) =>
      (SetSlot(m, pos, Slot(pos + |m.slots|, m.slots[SlotOf(pos, |m.slots|)].storage)).(
         returned := m.returned + [(pos, v)]),
       PopReturn(Some(v)))
  }

  // A thread that is idle, or whose last call has returned, makes a call.
  function Call(pc: Pc, c: Choice): Pc {
    match c
    case CallPush(v) => PushLoad(v)
    case CallPop => PopLoad
    case _ => pc
  }

  function AfterPushProbe(v: int, pos: nat, sequence: nat): Pc {
    if sequence == pos then PushClaim(v, pos)
    else if sequence < pos then PushReturn(false)
    else PushLoad(v)
  }

  function AfterPopProbe(pos: nat, sequence: nat): Pc {
    if sequence == pos + 1 then PopClaim(pos)
    else if sequence < pos + 1 then PopReturn(None)
    else PopLoad
  }

  function SetSlot(m: Memory, pos: nat, slot: Slot): Memory
    requires |m.slots| > 0
  {
    m.(slots := m.slots[SlotOf(pos, |m.slots|) := slot])
  }

  function Step(s: State, tid: nat, c: Choice): (r: State)
    requires |s.mem.slots| > 0
    ensures |r.mem.slots| == |s.mem.slots| && |r.pcs| == |s.pcs|
  {
    if tid >= |s.pcs| then s
    else
      var (m, pc) := Act(s.mem, s.pcs[tid], c);
      State(m, s.pcs[tid := pc])
  }

  function At(s: State, tid: nat, pc: Pc): State
    requires tid < |s.pcs|
  {
    s.(pcs := s.pcs[tid := pc])
  }

  function Exec(s: State, sched: Schedule): (r: State)
    requires |s.mem.slots| > 0
    ensures |r.mem.slots| == |s.mem.slots|
    decreases |sched|
  {
    if sched == [] then s
    else Step(Exec(s, sched[..|sched| - 1]), sched[|sched| - 1].0, sched[|sched| - 1].1)
  }

  // The abstract queue: claimed by a push, not yet claimed by a pop.
  function Queue(s: State): seq<int>
    requires s.mem.head <= s.mem.tail <= |s.mem.pushed|
  {
    s.mem.pushed[s.mem.head..s.mem.tail]
  }

  // ----- What safety means -----

  // A pop that holds ticket p returns the value pushed with ticket p, and no
  // ticket is returned twice.
  ghost predicate DeliversRight(s: State) {
    && (forall i :: 0 <= i < |s.mem.returned| ==>
         s.mem.returned[i].0 < |s.mem.pushed| && s.mem.returned[i].1 == s.mem.pushed[s.mem.returned[i].0])
    && (forall i, j :: 0 <= i < j < |s.mem.returned| ==> s.mem.returned[i].0 != s.mem.returned[j].0)
  }

  // No producer is about to construct into a slot that holds a value, and no
  // consumer is about to move out of a slot that holds none.
  ghost predicate NoOverwrite(s: State)
    requires |s.mem.slots| > 0
  {
    forall tid :: 0 <= tid < |s.pcs| ==> StorageReady(s.mem, s.pcs[tid])
  }

  ghost predicate StorageReady(m: Memory, pc: Pc)
    requires |m.slots| > 0
  {
    && (pc.PushWrite? ==> m.slots[SlotOf(pc.pos, |m.slots|)].storage == None)
    && (pc.PopTake? ==> m.slots[SlotOf(pc.pos, |m.slots|)].storage.Some?)
  }

  ghost predicate Safe(s: State)
    requires |s.mem.slots| > 0
  {
    DeliversRight(s) && NoOverwrite(s)
  }

  // ----- The inductive invariant -----

  // The life of a slot: free for ticket t, claimed by the producer of t,
  // published, claimed by the consumer of t, and free again one lap later.
  datatype Phase = Free(t: nat) | Writing(t: nat, owner: nat) | Full(t: nat) | Reading(t: nat, owner: nat)

  // Which tickets can be in each phase.
  ghost predicate InWindow(m: Memory, p: Phase) {
    match p
    case Free(t) => m.tail <= t < m.head + |m.slots|
    case Writing(t, _) => m.head <= t < m.tail
    case Full(t) => m.head <= t < m.tail
    case Reading(t, _) => m.tail - |m.slots| <= t < m.head <= m.tail
  }

  ghost predicate SlotOk(s: State, i: nat, p: Phase)
    requires i < |s.mem.slots| && |s.mem.pushed| == s.mem.tail
  {
    var slot := s.mem.slots[i];
    && SlotOf(p.t, |s.mem.slots|) == i
    && InWindow(s.mem, p)
    && (p.Writing? || p.Reading? ==> p.owner < |s.pcs|)
    && match p
       case Free(t) => slot == Slot(t, None)
       case Writing(t, owner) =>
         && slot.sequence == t
         && ((s.pcs[owner] == PushWrite(s.mem.pushed[t], t) && slot.storage == None) ||
             (s.pcs[owner] == PushPublish(s.mem.pushed[t], t) && slot.storage == Some(s.mem.pushed[t])))
       case Full(t) => slot == Slot(t + 1, Some(s.mem.pushed[t]))
       case Reading(t, owner) =>
         && slot.sequence == t + 1
         && ((s.pcs[owner] == PopTake(t) && slot.storage == Some(s.mem.pushed[t])) ||
             (s.pcs[owner] == PopRelease(t, s.mem.pushed[t]) && slot.storage == None))
  }

  lemma SlotOkFrame(s: State, s': State, i: nat, p: Phase)
    requires i < |s.mem.slots| == |s'.mem.slots|
    requires |s.mem.pushed| == s.mem.tail && |s'.mem.pushed| == s'.mem.tail
    requires SlotOk(s, i, p) && InWindow(s'.mem, p)
    requires s'.mem.slots[i] == s.mem.slots[i] && s.mem.pushed <= s'.mem.pushed && |s.pcs| == |s'.pcs|
    requires p.Writing? || p.Reading? ==> s'.pcs[p.owner] == s.pcs[p.owner]
    ensures SlotOk(s', i, p)
  {
  }

  ghost predicate PcOk(s: State, ph: seq<Phase>, tid: nat)
    requires tid < |s.pcs| && |ph| == |s.mem.slots| > 0
  {
    var m, pc, n := s.mem, s.pcs[tid], |ph|;
    && (pc.PushProbe? || pc.PushClaim? ==> pc.pos <= m.tail)
    && (pc.PopProbe? || pc.PopClaim? ==> pc.pos <= m.head)
    && (pc.PushClaim? && pc.pos == m.tail ==> ph[SlotOf(pc.pos, n)] == Free(pc.pos))
    && (pc.PopClaim? && pc.pos == m.head ==> ph[SlotOf(pc.pos, n)] == Full(pc.pos))
    && (pc.PushWrite? || pc.PushPublish? ==> ph[SlotOf(pc.pos, n)] == Writing(pc.pos, tid))
    && (pc.PopTake? || pc.PopRelease? ==> ph[SlotOf(pc.pos, n)] == Reading(pc.pos, tid))
  }

  ghost predicate IsReturned(s: State, t: nat) {
    exists i :: 0 <= i < |s.mem.returned| && s.mem.returned[i].0 == t
  }

  ghost predicate BeingRead(ph: seq<Phase>, t: nat)
    requires |ph| > 0
  {
    ph[SlotOf(t, |ph|)].Reading? && ph[SlotOf(t, |ph|)].t == t
  }

  // Every ticket claimed by a pop has been returned or is in one consumer's
  // hands, and never both.
  ghost predicate ReturnedOk(s: State, ph: seq<Phase>)
    requires |ph| > 0
  {
    && DeliversRight(s)
    && (forall i :: 0 <= i < |s.mem.returned| ==> s.mem.returned[i].0 < s.mem.head)
    && (forall t: nat :: t < s.mem.head ==> (IsReturned(s, t) <==> !BeingRead(ph, t)))
  }

  ghost predicate Shape(s: State, ph: seq<Phase>) {
    && |s.mem.slots| == |ph| >= 2
    && |s.mem.pushed| == s.mem.tail
    && s.mem.head <= s.mem.tail <= s.mem.head + |s.mem.slots|
  }

  ghost predicate SlotsOk(s: State, ph: seq<Phase>) {
    && Shape(s, ph)
    && (forall i :: 0 <= i < |ph| ==> SlotOk(s, i, ph[i]))
  }

  ghost predicate Inv(s: State, ph: seq<Phase>) {
    && SlotsOk(s, ph)
    && (forall tid :: 0 <= tid < |s.pcs| ==> PcOk(s, ph, tid))
    && ReturnedOk(s, ph)
  }

  function InitPhases(n: nat): seq<Phase> { seq(n, i requires 0 <= i => Free(i)) }

  lemma InitInv(n: nat, threads: nat)
    requires n >= 2
    ensures Inv(Init(n, threads), InitPhases(n))
  {
  }

  // ----- Every step keeps the invariant -----

  // Steps that change nothing but the mover's program counter.
  ghost predicate Local(pc: Pc) {
    !(pc.PushWrite? || pc.PushPublish? || pc.PopTake? || pc.PopRelease?)
  }

  lemma LocalMoveKeepsInv(s: State, ph: seq<Phase>, tid: nat, pc: Pc)
    requires Inv(s, ph) && tid < |s.pcs|
    requires Local(s.pcs[tid]) && Local(pc)
    requires PcOk(At(s, tid, pc), ph, tid)
    ensures Inv(At(s, tid, pc), ph)
  {
    var s' := At(s, tid, pc);
    forall i | 0 <= i < |ph| ensures SlotOk(s', i, ph[i]) {
      SlotOkFrame(s, s', i, ph[i]);
    }
    forall k | 0 <= k < |s'.pcs| ensures PcOk(s', ph, k) {
      assert PcOk(s, ph, k);
    }
    assert forall t: nat :: IsReturned(s', t) == IsReturned(s, t);
  }

  // The probe of a slot decides between "claim", "full" and "resync".
  lemma PushProbeMeans(s: State, ph: seq<Phase>, pos: nat)
    requires Inv(s, ph) && pos <= s.mem.tail
    ensures var n, sequence := |s.mem.slots|, s.mem.slots[SlotOf(pos, |s.mem.slots|)].sequence;
            && (sequence == pos && pos == s.mem.tail ==> ph[SlotOf(pos, n)] == Free(pos))
            && (sequence < pos ==>
                  && pos == s.mem.tail && s.mem.tail >= n
                  && ph[SlotOf(pos, n)].t == s.mem.tail - n && !ph[SlotOf(pos, n)].Free?)
  {
    var n := |s.mem.slots|;
    var p := ph[SlotOf(pos, n)];
    assert SlotOk(s, SlotOf(pos, n), p);
    if !p.Free? {
      assert s.mem.tail - n <= p.t < s.mem.tail;
      if s.mem.slots[SlotOf(pos, n)].sequence <= pos && pos == s.mem.tail {
        SameSlotWithinTwoLaps(p.t, pos, n);
      } else if s.mem.slots[SlotOf(pos, n)].sequence < pos {
        SameSlotSameTicket(p.t, pos, n);
      }
    }
  }

  lemma PopProbeMeans(s: State, ph: seq<Phase>, pos: nat)
    requires Inv(s, ph) && pos <= s.mem.head
    ensures var n, sequence := |s.mem.slots|, s.mem.slots[SlotOf(pos, |s.mem.slots|)].sequence;
            && (sequence == pos + 1 && pos == s.mem.head ==> ph[SlotOf(pos, n)] == Full(pos))
            && (sequence < pos + 1 ==>
                  && pos == s.mem.head
                  && (s.mem.head == s.mem.tail || (ph[SlotOf(pos, n)].Writing? && ph[SlotOf(pos, n)].t == pos)))
  {
    var n := |s.mem.slots|;
    var p := ph[SlotOf(pos, n)];
    assert SlotOk(s, SlotOf(pos, n), p);
    match p
    case Free(t) =>
      if pos == s.mem.head && s.mem.slots[SlotOf(pos, n)].sequence == pos + 1 {
        SameSlotSameTicket(pos, t, n);
      }
    case Writing(t, _) =>
      if pos == s.mem.head && s.mem.slots[SlotOf(pos, n)].sequence == pos + 1 {
        SameSlotSameTicket(pos, t, n);
      }
    case Full(t) =>
    case Reading(t, _) =>
      if s.mem.slots[SlotOf(pos, n)].sequence < pos + 1 {
        if s.mem.head > pos || s.mem.tail > s.mem.head {
          SameSlotSameTicket(t, pos, n);
          assert false;
        }
      }
  }

  lemma PushClaimKeepsSlots(s: State, ph: seq<Phase>, tid: nat)
    requires SlotsOk(s, ph) && tid < |s.pcs| && PcOk(s, ph, tid)
    requires s.pcs[tid].PushClaim? && s.pcs[tid].pos == s.mem.tail
    ensures var s', ph' := Step(s, tid, Go), ph[SlotOf(s.mem.tail, |ph|) := Writing(s.mem.tail, tid)];
            SlotsOk(s', ph')
  {
    hide SlotOf, SlotOk;
    var n, pos := |ph|, s.mem.tail;
    var s', ph' := Step(s, tid, Go), ph[SlotOf(pos, n) := Writing(pos, tid)];
    PushClaimsSlot(s, tid);
    forall i | 0 <= i < n ensures SlotOk(s', i, ph'[i]) {
      if i != SlotOf(pos, n) { PushClaimKeepsOther(s, tid, i, ph[i]); }
    }
  }

  lemma PushClaimsSlot(s: State, tid: nat)
    requires |s.mem.pushed| == s.mem.tail <= s.mem.head + |s.mem.slots| && |s.mem.slots| > 0
    requires s.mem.head <= s.mem.tail && tid < |s.pcs| && s.pcs[tid].PushClaim? && s.pcs[tid].pos == s.mem.tail
    requires SlotOk(s, SlotOf(s.mem.tail, |s.mem.slots|), Free(s.mem.tail))
    ensures s.mem.tail < s.mem.head + |s.mem.slots|
    ensures SlotOk(Step(s, tid, Go), SlotOf(s.mem.tail, |s.mem.slots|), Writing(s.mem.tail, tid))
  {
    hide SlotOf;
  }

  lemma PushClaimKeepsOther(s: State, tid: nat, i: nat, p: Phase)
    requires |s.mem.pushed| == s.mem.tail && i < |s.mem.slots| && SlotOk(s, i, p)
    requires tid < |s.pcs| && s.pcs[tid].PushClaim? && s.pcs[tid].pos == s.mem.tail
    requires i != SlotOf(s.mem.tail, |s.mem.slots|)
    ensures SlotOk(Step(s, tid, Go), i, p)
  {
    hide SlotOf;
    LapKeepsSlot(p.t, |s.mem.slots|);
    SlotOkFrame(s, Step(s, tid, Go), i, p);
  }

  lemma PushClaimKeepsInv(s: State, ph: seq<Phase>, tid: nat)
    requires Inv(s, ph) && tid < |s.pcs| && s.pcs[tid].PushClaim? && s.pcs[tid].pos == s.mem.tail
    ensures var n, pos := |s.mem.slots|, s.mem.tail;
            Inv(Step(s, tid, Go), ph[SlotOf(pos, n) := Writing(pos, tid)])
  {
    var n, pos, v := |s.mem.slots|, s.mem.tail, s.pcs[tid].v;
    var s', ph' := Step(s, tid, Go), ph[SlotOf(pos, n) := Writing(pos, tid)];
    assert PcOk(s, ph, tid);
    assert SlotOk(s, SlotOf(pos, n), ph[SlotOf(pos, n)]);
    PushClaimKeepsSlots(s, ph, tid);
    forall k | 0 <= k < |s'.pcs| ensures PcOk(s', ph', k) {
      assert PcOk(s, ph, k);
    }
    assert forall t: nat :: IsReturned(s', t) == IsReturned(s, t);
    assert forall t: nat :: BeingRead(ph', t) == BeingRead(ph, t);
  }

  lemma PopClaimKeepsSlots(s: State, ph: seq<Phase>, tid: nat)
    requires SlotsOk(s, ph) && tid < |s.pcs| && PcOk(s, ph, tid) && s.pcs[tid].PopClaim? && s.pcs[tid].pos == s.mem.head
    ensures var s', ph' := Step(s, tid, Go), ph[SlotOf(s.mem.head, |ph|) := Reading(s.mem.head, tid)];
            SlotsOk(s', ph')
  {
    hide SlotOf, SlotOk;
    var n, pos := |ph|, s.mem.head;
    var s', ph' := Step(s, tid, Go), ph[SlotOf(pos, n) := Reading(pos, tid)];
    PopClaimsSlot(s, tid);
    forall i | 0 <= i < n ensures SlotOk(s', i, ph'[i]) {
      if i != SlotOf(pos, n) { PopClaimKeepsOther(s, tid, i, ph[i]); }
    }
  }

  lemma PopClaimsSlot(s: State, tid: nat)
    requires |s.mem.pushed| == s.mem.tail <= s.mem.head + |s.mem.slots| && |s.mem.slots| > 0
    requires tid < |s.pcs| && s.pcs[tid].PopClaim? && s.pcs[tid].pos == s.mem.head
    requires SlotOk(s, SlotOf(s.mem.head, |s.mem.slots|), Full(s.mem.head))
    ensures s.mem.head < s.mem.tail
    ensures SlotOk(Step(s, tid, Go), SlotOf(s.mem.head, |s.mem.slots|), Reading(s.mem.head, tid))
  {
    hide SlotOf;
  }

  lemma PopClaimKeepsOther(s: State, tid: nat, i: nat, p: Phase)
    requires |s.mem.pushed| == s.mem.tail && i < |s.mem.slots| && SlotOk(s, i, p) && s.mem.head < s.mem.tail
    requires tid < |s.pcs| && s.pcs[tid].PopClaim? && s.pcs[tid].pos == s.mem.head
    requires i != SlotOf(s.mem.head, |s.mem.slots|)
    ensures SlotOk(Step(s, tid, Go), i, p)
  {
    hide SlotOf;
    SlotOkFrame(s, Step(s, tid, Go), i, p);
  }

  lemma PopClaimKeepsInv(s: State, ph: seq<Phase>, tid: nat)
    requires Inv(s, ph) && tid < |s.pcs| && s.pcs[tid].PopClaim? && s.pcs[tid].pos == s.mem.head
    ensures var n, pos := |s.mem.slots|, s.mem.head;
            Inv(Step(s, tid, Go), ph[SlotOf(pos, n) := Reading(pos, tid)])
  {
    var n, pos := |s.mem.slots|, s.mem.head;
    var s', ph' := Step(s, tid, Go), ph[SlotOf(pos, n) := Reading(pos, tid)];
    assert PcOk(s, ph, tid);
    assert SlotOk(s, SlotOf(pos, n), ph[SlotOf(pos, n)]);
    PopClaimKeepsSlots(s, ph, tid);
    forall k | 0 <= k < |s'.pcs| ensures PcOk(s', ph', k) {
      assert PcOk(s, ph, k);
    }
    forall t: nat | t < s'.mem.head ensures IsReturned(s', t) <==> !BeingRead(ph', t) {
      assert IsReturned(s', t) == IsReturned(s, t);
      if t != pos { assert BeingRead(ph', t) == BeingRead(ph, t); }
    }
  }

  // Steps of a thread that owns its slot: only that slot and that thread change.
  lemma OwnerMoveKeepsSlots(s: State, ph: seq<Phase>, tid: nat, j: nat, pc: Pc, slot: Slot, p: Phase)
    requires SlotsOk(s, ph) && tid < |s.pcs| && j < |s.mem.slots|
    requires ph[j] == Writing(p.t, tid) || ph[j] == Reading(p.t, tid)
    requires !Local(s.pcs[tid]) && s.pcs[tid].pos == p.t
    requires SlotOk(State(s.mem.(slots := s.mem.slots[j := slot]), s.pcs[tid := pc]), j, p)
    ensures SlotsOk(State(s.mem.(slots := s.mem.slots[j := slot]), s.pcs[tid := pc]), ph[j := p])
  {
  }

  lemma OwnerMoveKeepsInv(s: State, ph: seq<Phase>, tid: nat, j: nat, pc: Pc, slot: Slot, p: Phase)
    requires Inv(s, ph) && tid < |s.pcs| && j < |s.mem.slots|
    requires ph[j] == Writing(p.t, tid) || ph[j] == Reading(p.t, tid)
    requires p.Reading? <==> ph[j].Reading?
    requires !Local(s.pcs[tid]) && s.pcs[tid].pos == p.t
    requires SlotOk(State(s.mem.(slots := s.mem.slots[j := slot]), s.pcs[tid := pc]), j, p)
    requires PcOk(State(s.mem.(slots := s.mem.slots[j := slot]), s.pcs[tid := pc]), ph[j := p], tid)
    ensures Inv(State(s.mem.(slots := s.mem.slots[j := slot]), s.pcs[tid := pc]), ph[j := p])
  {
    hide SlotOf;
    var s', ph' := State(s.mem.(slots := s.mem.slots[j := slot]), s.pcs[tid := pc]), ph[j := p];
    OwnerMoveKeepsSlots(s, ph, tid, j, pc, slot, p);
    assert SlotOk(s, j, ph[j]);
    forall k | 0 <= k < |s'.pcs| && k != tid ensures PcOk(s', ph', k) {
      assert PcOk(s, ph, k);
    }
    assert forall t: nat :: IsReturned(s', t) == IsReturned(s, t);
    assert forall t: nat :: BeingRead(ph', t) == BeingRead(ph, t);
  }

  lemma PushWriteKeepsInv(s: State, ph: seq<Phase>, tid: nat, c: Choice)
    requires Inv(s, ph) && tid < |s.pcs| && s.pcs[tid].PushWrite?
    ensures Inv(Step(s, tid, c), ph)
  {
    var j, pos, v := SlotOf(s.pcs[tid].pos, |s.mem.slots|), s.pcs[tid].pos, s.pcs[tid].v;
    assert PcOk(s, ph, tid);
    assert SlotOk(s, j, ph[j]);
    OwnerMoveKeepsInv(s, ph, tid, j, PushPublish(v, pos), s.mem.slots[j].(storage := Some(v)), ph[j]);
    assert ph[j := ph[j]] == ph;
  }

  lemma PushPublishKeepsInv(s: State, ph: seq<Phase>, tid: nat, c: Choice)
    requires Inv(s, ph) && tid < |s.pcs| && s.pcs[tid].PushPublish?
    ensures Inv(Step(s, tid, c), ph[SlotOf(s.pcs[tid].pos, |s.mem.slots|) := Full(s.pcs[tid].pos)])
  {
    var j, pos := SlotOf(s.pcs[tid].pos, |s.mem.slots|), s.pcs[tid].pos;
    assert PcOk(s, ph, tid);
    assert SlotOk(s, j, ph[j]);
    OwnerMoveKeepsInv(s, ph, tid, j, PushReturn(true), s.mem.slots[j].(sequence := pos + 1), Full(pos));
  }

  lemma PopTakeKeepsInv(s: State, ph: seq<Phase>, tid: nat, c: Choice)
    requires Inv(s, ph) && tid < |s.pcs| && s.pcs[tid].PopTake?
    ensures Inv(Step(s, tid, c), ph)
  {
    var j, pos := SlotOf(s.pcs[tid].pos, |s.mem.slots|), s.pcs[tid].pos;
    assert PcOk(s, ph, tid);
    assert SlotOk(s, j, ph[j]);
    OwnerMoveKeepsInv(s, ph, tid, j, PopRelease(pos, s.mem.pushed[pos]), s.mem.slots[j].(storage := None), ph[j]);
    assert ph[j := ph[j]] == ph;
  }

  lemma PopReleaseKeepsSlots(s: State, ph: seq<Phase>, tid: nat, m: Memory)
    requires SlotsOk(s, ph) && tid < |s.pcs| && PcOk(s, ph, tid) && s.pcs[tid].PopRelease?
    requires m == SetSlot(s.mem, s.pcs[tid].pos, Slot(s.pcs[tid].pos + |ph|, None)).(returned := m.returned)
    ensures SlotsOk(State(m, s.pcs[tid := PopReturn(Some(s.pcs[tid].v))]),
                    ph[SlotOf(s.pcs[tid].pos, |ph|) := Free(s.pcs[tid].pos + |ph|)])
  {
  }

  lemma PopReleaseKeepsInv(s: State, ph: seq<Phase>, tid: nat, c: Choice)
    requires Inv(s, ph) && tid < |s.pcs| && s.pcs[tid].PopRelease?
    ensures var n, pos := |s.mem.slots|, s.pcs[tid].pos;
            Inv(Step(s, tid, c), ph[SlotOf(pos, n) := Free(pos + n)])
  {
    var n, pos := |ph|, s.pcs[tid].pos;
    var s', ph' := Step(s, tid, c), ph[SlotOf(pos, n) := Free(pos + n)];
    assert PcOk(s, ph, tid);
    assert SlotOk(s, SlotOf(pos, n), ph[SlotOf(pos, n)]);
    PopReleaseKeepsSlots(s, ph, tid, s'.mem);
    ReleaseReturns(s, ph, tid, c);
    forall k | 0 <= k < |s'.pcs| ensures PcOk(s', ph', k) {
      assert PcOk(s, ph, k);
    }
  }

  lemma ReleaseReturns(s: State, ph: seq<Phase>, tid: nat, c: Choice)
    requires Inv(s, ph) && tid < |s.pcs| && s.pcs[tid].PopRelease?
    ensures var n, pos := |s.mem.slots|, s.pcs[tid].pos;
            ReturnedOk(Step(s, tid, c), ph[SlotOf(pos, n) := Free(pos + n)])
  {
    hide SlotOf;
    var n, pos := |s.mem.slots|, s.pcs[tid].pos;
    var s', ph' := Step(s, tid, c), ph[SlotOf(pos, n) := Free(pos + n)];
    assert PcOk(s, ph, tid);
    assert SlotOk(s, SlotOf(pos, n), ph[SlotOf(pos, n)]);
    assert BeingRead(ph, pos) && !IsReturned(s, pos);
    forall t: nat | t < s'.mem.head ensures IsReturned(s', t) <==> !BeingRead(ph', t) {
      if t == pos {
        assert s'.mem.returned[|s.mem.returned|].0 == t;
      } else {
        assert BeingRead(ph', t) == BeingRead(ph, t);
        assert forall i :: 0 <= i < |s.mem.returned| ==> s'.mem.returned[i] == s.mem.returned[i];
        assert IsReturned(s, t) ==> IsReturned(s', t);
      }
    }
  }

  lemma ClaimStepKeepsInv(s: State, ph: seq<Phase>, tid: nat, c: Choice) returns (ph': seq<Phase>)
    requires Inv(s, ph) && tid < |s.pcs| && (s.pcs[tid].PushClaim? || s.pcs[tid].PopClaim?)
    ensures Inv(Step(s, tid, c), ph')
  {
    var n, pc := |s.mem.slots|, s.pcs[tid];
    assert PcOk(s, ph, tid);
    ph' := ph;
    if pc.PushClaim? {
      if s.mem.tail == pc.pos && c != SpuriousFailure {
        PushClaimKeepsInv(s, ph, tid);
        ph' := ph[SlotOf(pc.pos, n) := Writing(pc.pos, tid)];
      } else {
        LocalMoveKeepsInv(s, ph, tid, PushProbe(pc.v, s.mem.tail));
      }
    } else {
      if s.mem.head == pc.pos && c != SpuriousFailure {
        PopClaimKeepsInv(s, ph, tid);
        ph' := ph[SlotOf(pc.pos, n) := Reading(pc.pos, tid)];
      } else {
        LocalMoveKeepsInv(s, ph, tid, PopProbe(s.mem.head));
      }
    }
  }

  lemma StepKeepsInv(s: State, ph: seq<Phase>, tid: nat, c: Choice) returns (ph': seq<Phase>)
    requires Inv(s, ph)
    ensures Inv(Step(s, tid, c), ph')
  {
    ph' := ph;
    if tid >= |s.pcs| { return; }
    var n, pc := |s.mem.slots|, s.pcs[tid];
    if pc.PushClaim? || pc.PopClaim? {
      ph' := ClaimStepKeepsInv(s, ph, tid, c);
    } else if pc.PushWrite? {
      PushWriteKeepsInv(s, ph, tid, c);
    } else if pc.PopTake? {
      PopTakeKeepsInv(s, ph, tid, c);
    } else if pc.PushPublish? {
      PushPublishKeepsInv(s, ph, tid, c);
      ph' := ph[SlotOf(pc.pos, n) := Full(pc.pos)];
    } else if pc.PopRelease? {
      PopReleaseKeepsInv(s, ph, tid, c);
      ph' := ph[SlotOf(pc.pos, n) := Free(pc.pos + n)];
    } else {
      LocalStepKeepsInv(s, ph, tid, c);
    }
  }

  lemma ProbeKeepsInv(s: State, ph: seq<Phase>, tid: nat, c: Choice)
    requires Inv(s, ph) && tid < |s.pcs| && (s.pcs[tid].PushProbe? || s.pcs[tid].PopProbe?)
    ensures Inv(Step(s, tid, c), ph)
  {
    var pc := s.pcs[tid];
    var sequence := s.mem.slots[SlotOf(pc.pos, |ph|)].sequence;
    assert PcOk(s, ph, tid);
    if pc.PushProbe? {
      PushProbeMeans(s, ph, pc.pos);
      LocalMoveKeepsInv(s, ph, tid, AfterPushProbe(pc.v, pc.pos, sequence));
    } else {
      PopProbeMeans(s, ph, pc.pos);
      LocalMoveKeepsInv(s, ph, tid, AfterPopProbe(pc.pos, sequence));
    }
  }

  lemma LocalStepKeepsInv(s: State, ph: seq<Phase>, tid: nat, c: Choice)
    requires Inv(s, ph) && tid < |s.pcs| && Local(s.pcs[tid])
    requires !s.pcs[tid].PushClaim? && !s.pcs[tid].PopClaim?
    ensures Inv(Step(s, tid, c), ph)
  {
    var pc := s.pcs[tid];
    if pc.PushProbe? || pc.PopProbe? {
      ProbeKeepsInv(s, ph, tid, c);
    } else if pc.PushLoad? {
      LocalMoveKeepsInv(s, ph, tid, PushProbe(pc.v, s.mem.tail));
    } else if pc.PopLoad? {
      LocalMoveKeepsInv(s, ph, tid, PopProbe(s.mem.head));
    } else {
      LocalMoveKeepsInv(s, ph, tid, Call(pc, c));
    }
  }

  /** In every interleaving of any number of threads the invariant holds. */
  lemma {:induction false} ReachableInv(n: nat, threads: nat, sched: Schedule) returns (ph: seq<Phase>)
    requires n >= 2
    ensures Inv(Exec(Init(n, threads), sched), ph)
    decreases |sched|
  {
    if sched == [] {
      InitInv(n, threads);
      ph := InitPhases(n);
    } else {
      var last := |sched| - 1;
      var before := ReachableInv(n, threads, sched[..last]);
      ph := StepKeepsInv(Exec(Init(n, threads), sched[..last]), before, sched[last].0, sched[last].1);
    }
  }

  // ----- Main results -----

  // Where the value of a claimed push ticket can be.
  ghost predicate InProducer(s: State, t: nat)
    requires t < |s.mem.pushed|
  {
    exists tid :: 0 <= tid < |s.pcs| &&
      (s.pcs[tid] == PushWrite(s.mem.pushed[t], t) || s.pcs[tid] == PushPublish(s.mem.pushed[t], t))
  }

  ghost predicate InSlot(s: State, t: nat)
    requires |s.mem.slots| > 0 && t < |s.mem.pushed|
  {
    s.mem.head <= t && s.mem.slots[SlotOf(t, |s.mem.slots|)] == Slot(t + 1, Some(s.mem.pushed[t]))
  }

  ghost predicate InConsumer(s: State, t: nat)
    requires t < |s.mem.pushed|
  {
    exists tid :: 0 <= tid < |s.pcs| &&
      (s.pcs[tid] == PopTake(t) || s.pcs[tid] == PopRelease(t, s.mem.pushed[t]))
  }

  predicate ExactlyOne(a: bool, b: bool, c: bool, d: bool) {
    (if a then 1 else 0) + (if b then 1 else 0) + (if c then 1 else 0) + (if d then 1 else 0) == 1
  }

  // No value is lost and none is in two places.
  ghost predicate Conserved(s: State)
    requires |s.mem.slots| > 0
  {
    forall t: nat :: t < |s.mem.pushed| ==>
      ExactlyOne(InProducer(s, t), InSlot(s, t), InConsumer(s, t), IsReturned(s, t))
  }

  lemma TicketPhase(s: State, ph: seq<Phase>, t: nat)
    requires Inv(s, ph) && t < s.mem.tail
    ensures var p := ph[SlotOf(t, |ph|)];
            && (t >= s.mem.head ==> (p.Writing? || p.Full?) && p.t == t)
            && (p.Free? || p.Writing? || p.Full? ==> p.t >= s.mem.head)
  {
    var n := |ph|;
    var p := ph[SlotOf(t, n)];
    assert SlotOk(s, SlotOf(t, n), p);
    if t >= s.mem.head {
      if p.t <= t { SameSlotSameTicket(p.t, t, n); } else { SameSlotSameTicket(t, p.t, n); }
    }
  }

  lemma OwnersByPhase(s: State, ph: seq<Phase>, t: nat)
    requires Inv(s, ph) && t < s.mem.tail
    ensures InProducer(s, t) <==> ph[SlotOf(t, |ph|)].Writing? && ph[SlotOf(t, |ph|)].t == t
    ensures InConsumer(s, t) <==> BeingRead(ph, t)
  {
    var p := ph[SlotOf(t, |ph|)];
    assert SlotOk(s, SlotOf(t, |ph|), p);
    assert p.Writing? && p.t == t ==>
        s.pcs[p.owner] == PushWrite(s.mem.pushed[t], t) || s.pcs[p.owner] == PushPublish(s.mem.pushed[t], t);
    assert p.Reading? && p.t == t ==>
        s.pcs[p.owner] == PopTake(t) || s.pcs[p.owner] == PopRelease(t, s.mem.pushed[t]);
    if InProducer(s, t) {
      var tid :| 0 <= tid < |s.pcs| &&
        (s.pcs[tid] == PushWrite(s.mem.pushed[t], t) || s.pcs[tid] == PushPublish(s.mem.pushed[t], t));
      assert PcOk(s, ph, tid);
    }
    if InConsumer(s, t) {
      var tid :| 0 <= tid < |s.pcs| && (s.pcs[tid] == PopTake(t) || s.pcs[tid] == PopRelease(t, s.mem.pushed[t]));
      assert PcOk(s, ph, tid);
    }
  }

  lemma InvConserves(s: State, ph: seq<Phase>)
    requires Inv(s, ph)
    ensures Conserved(s)
  {
    forall t: nat | t < |s.mem.pushed|
      ensures ExactlyOne(InProducer(s, t), InSlot(s, t), InConsumer(s, t), IsReturned(s, t))
    {
      TicketPhase(s, ph, t);
      OwnersByPhase(s, ph, t);
      assert SlotOk(s, SlotOf(t, |ph|), ph[SlotOf(t, |ph|)]);
      assert t >= s.mem.head ==> !IsReturned(s, t);
    }
  }

  lemma InvIsSafe(s: State, ph: seq<Phase>)
    requires Inv(s, ph)
    ensures Safe(s)
  {
    forall tid | 0 <= tid < |s.pcs| ensures StorageReady(s.mem, s.pcs[tid])
    {
      assert PcOk(s, ph, tid);
      if s.pcs[tid].PushWrite? || s.pcs[tid].PopTake? {
        assert SlotOk(s, SlotOf(s.pcs[tid].pos, |ph|), ph[SlotOf(s.pcs[tid].pos, |ph|)]);
      }
    }
  }

  // ----- What callers see -----

  datatype Op = Push(v: int) | Pop

  // The call a thread is in, and the tickets claimed by its steps so far.
  datatype Pending = NoCall | InCall(op: Op, tickets: seq<nat>)

  datatype Finished = Finished(call: Pending, result: Pc)

  datatype Calls = Calls(pending: seq<Pending>, finished: seq<Finished>)

  // The tickets a step claims for an operation.
  function Claimed(m: Memory, m': Memory, op: Op): seq<nat> {
    if op.Push? then (if m'.tail != m.tail then [m.tail] else [])
    else (if m'.head != m.head then [m.head] else [])
  }

  function Moved(p: Pending, m: Memory, m': Memory): Pending {
    if p.NoCall? then p else p.(tickets := p.tickets + Claimed(m, m', p.op))
  }

  function Called(p: Pending, c: Choice): Pending {
    match c
    case CallPush(v) => InCall(Push(v), [])
    case CallPop => InCall(Pop, [])
    case _ => p
  }

  // The record of calls after one step of a thread: a call begins when a thread
  // that is in none makes it, and ends when the thread can make one again, with
  // the result it then shows.
  function Observed(h: Calls, tid: nat, c: Choice, m: Memory, pc: Pc, m': Memory, pc': Pc): Calls
    requires tid < |h.pending|
  {
    var p := h.pending[tid];
    Calls(h.pending[tid := After(p, c, m, pc, m', pc')], h.finished + Ended(p, m, pc, m', pc'))
  }

  function After(p: Pending, c: Choice, m: Memory, pc: Pc, m': Memory, pc': Pc): Pending {
    if CanCall(pc) then Called(p, c) else if CanCall(pc') then NoCall else Moved(p, m, m')
  }

  function Ended(p: Pending, m: Memory, pc: Pc, m': Memory, pc': Pc): seq<Finished> {
    if !CanCall(pc) && CanCall(pc') then [Finished(Moved(p, m, m'), pc')] else []
  }

  // The calls of a run.
  function CallsOf(n: nat, threads: nat, sched: Schedule): (h: Calls)
    requires n > 0
    ensures |h.pending| == threads
    decreases |sched|
  {
    if sched == [] then Calls(seq(threads, _ => NoCall), [])
    else
      var before, (tid, c) := sched[..|sched| - 1], sched[|sched| - 1];
      var h, s := CallsOf(n, threads, before), Exec(Init(n, threads), before);
      ThreadCount(n, threads, before);
      if tid >= threads then h
      else
        var s' := Step(s, tid, c);
        Observed(h, tid, c, s.mem, s.pcs[tid], s'.mem, s'.pcs[tid])
  }

  // A finished push returned true exactly if it claimed a ticket, just one, at
  // which its own argument is queued; a finished pop returned the value queued
  // at the one ticket it claimed, or nothing if it claimed none.
  ghost predicate CallOk(pushed: seq<int>, f: Finished) {
    match f.call
    case NoCall => false
    case InCall(Push(v), tickets) =>
      f.result.PushReturn? && if f.result.ok then HoldsAt(pushed, tickets, v) else tickets == []
    case InCall(Pop, tickets) =>
      f.result.PopReturn? && if f.result.r.Some? then HoldsAt(pushed, tickets, f.result.r.value) else tickets == []
  }

  predicate HoldsAt(pushed: seq<int>, tickets: seq<nat>, v: int) {
    |tickets| == 1 && tickets[0] < |pushed| && pushed[tickets[0]] == v
  }

  // The call a thread is in, as its program counter shows it.
  ghost predicate PendingOk(pushed: seq<int>, p: Pending, pc: Pc) {
    match p
    case NoCall => CanCall(pc)
    case InCall(Push(v), tickets) =>
      if pc.PushWrite? || pc.PushPublish? then pc.v == v && tickets == [pc.pos] && HoldsAt(pushed, tickets, v)
      else (pc.PushLoad? || pc.PushProbe? || pc.PushClaim?) && pc.v == v && tickets == []
    case InCall(Pop, tickets) =>
      if pc.PopTake? || pc.PopRelease? then
        tickets == [pc.pos] && pc.pos < |pushed| && (pc.PopRelease? ==> HoldsAt(pushed, tickets, pc.v))
      else (pc.PopLoad? || pc.PopProbe? || pc.PopClaim?) && tickets == []
  }

  // The values pops returned, with their tickets.
  function Popped(finished: seq<Finished>): seq<(nat, int)> {
    if finished == [] then []
    else
      var f := finished[|finished| - 1];
      Popped(finished[..|finished| - 1]) +
      if f.call.InCall? && |f.call.tickets| == 1 && f.result.PopReturn? && f.result.r.Some?
      then [(f.call.tickets[0], f.result.r.value)] else []
  }

  // The argument of a push that returned true; of one that holds a ticket.
  function Accepted(f: Finished): multiset<int> {
    if f.call.InCall? && f.call.op.Push? && f.result == PushReturn(true) then multiset{f.call.op.v} else multiset{}
  }

  function InHand(p: Pending): multiset<int> {
    if p.InCall? && p.op.Push? && p.tickets != [] then multiset{p.op.v} else multiset{}
  }

  function PushTickets(p: Pending): multiset<nat> {
    if p.InCall? && p.op.Push? then multiset(p.tickets) else multiset{}
  }

  function PopTickets(p: Pending): multiset<nat> {
    if p.InCall? && p.op.Pop? then multiset(p.tickets) else multiset{}
  }

  function Upto(n: nat): (r: seq<nat>)
    ensures |r| == n
  {
    seq(n, i => i)
  }

  function FinishedPush(f: Finished): multiset<nat> { PushTickets(f.call) }

  function FinishedPop(f: Finished): multiset<nat> { PopTickets(f.call) }

  // Every call is accounted for: those that finished did what they returned;
  // the values accepted or still in producers' hands are the values queued; and
  // every ticket was claimed by one call.
  ghost predicate Accounted(m: Memory, h: Calls) {
    && (forall i :: 0 <= i < |h.finished| ==> CallOk(m.pushed, h.finished[i]))
    && Popped(h.finished) == m.returned
    && multiset(m.pushed) == Bag(h.finished, Accepted) + Bag(h.pending, InHand)
    && multiset(Upto(m.tail)) == Bag(h.finished, FinishedPush) + Bag(h.pending, PushTickets)
    && multiset(Upto(m.head)) == Bag(h.finished, FinishedPop) + Bag(h.pending, PopTickets)
  }

  ghost predicate Attributed(s: State, h: Calls) {
    && |h.pending| == |s.pcs|
    && forall tid :: 0 <= tid < |s.pcs| ==> PendingOk(s.mem.pushed, h.pending[tid], s.pcs[tid])
  }

  // What the invariant says about the thread that moves.
  ghost predicate Sound(m: Memory, pc: Pc, pc': Pc) {
    && |m.slots| > 0 && m.head <= m.tail == |m.pushed|
    && (pc.PopTake? ==> pc.pos < |m.pushed| && pc' == PopRelease(pc.pos, m.pushed[pc.pos]))
    && (pc.PopClaim? && pc'.PopTake? ==> m.head < m.tail)
  }

  lemma InvIsSound(s: State, ph: seq<Phase>, tid: nat, c: Choice)
    requires Inv(s, ph) && tid < |s.pcs|
    ensures Sound(s.mem, s.pcs[tid], Step(s, tid, c).pcs[tid])
  {
    hide SlotOf, SlotOk, PcOk, ReturnedOk;
    InvStepRefines(s, ph, tid, c);
  }

  // What a step adds to the queued values and to the tickets is what it adds
  // to the calls, pending and finished together.
  ghost predicate Balanced(p: Pending, q: Pending, ended: seq<Finished>, m: Memory, m': Memory) {
    && m.pushed <= m'.pushed && m.tail <= m'.tail && m.head <= m'.head
    && m'.returned == m.returned + Popped(ended)
    && InHand(q) + Bag(ended, Accepted) == InHand(p) + multiset(m'.pushed[|m.pushed|..])
    && PushTickets(q) + Bag(ended, FinishedPush) == PushTickets(p) + multiset(Upto(m'.tail)[m.tail..])
    && PopTickets(q) + Bag(ended, FinishedPop) == PopTickets(p) + multiset(Upto(m'.head)[m.head..])
  }

  lemma OneEnded(f: Finished)
    ensures Bag([f], Accepted) == Accepted(f) && Bag([f], FinishedPush) == PushTickets(f.call)
    ensures Bag([f], FinishedPop) == PopTickets(f.call)
    ensures Popped([f]) ==
            if f.call.InCall? && |f.call.tickets| == 1 && f.result.PopReturn? && f.result.r.Some?
            then [(f.call.tickets[0], f.result.r.value)] else []
  {
    assert [f][..0] == [];
  }

  lemma NoneEnded()
    ensures Bag([], Accepted) == multiset{} && Bag([], FinishedPush) == multiset{} == Bag([], FinishedPop)
    ensures Popped([]) == []
  {
  }

  // Steps that move no counter and queue nothing.
  lemma SameBalanced(p: Pending, q: Pending, m: Memory, m': Memory)
    requires m' == m.(slots := m'.slots) && |m.pushed| == m.tail
    requires InHand(p) == InHand(q) && PushTickets(p) == PushTickets(q) && PopTickets(p) == PopTickets(q)
    ensures Balanced(p, q, [], m, m')
  {
    hide InHand, PushTickets, PopTickets;
    NoneEnded();
  }

  lemma EndBalanced(p: Pending, m: Memory, m': Memory, pc': Pc)
    requires m' == m.(slots := m'.slots, returned := m'.returned)
    requires m'.returned == m.returned + Popped([Finished(p, pc')])
    requires Accepted(Finished(p, pc')) == InHand(p)
    ensures Balanced(p, NoCall, [Finished(p, pc')], m, m')
  {
    hide Popped, Accepted;
    OneEnded(Finished(p, pc'));
  }

  lemma PushClaimBalanced(m: Memory, v: int)
    requires |m.pushed| == m.tail
    ensures Balanced(InCall(Push(v), []), InCall(Push(v), [m.tail]), [], m,
                     m.(tail := m.tail + 1, pushed := m.pushed + [v]))
  {
    NoneEnded();
    assert Upto(m.tail + 1)[m.tail..] == [m.tail];
    assert (m.pushed + [v])[m.tail..] == [v];
  }

  lemma PopClaimBalanced(m: Memory)
    ensures Balanced(InCall(Pop, []), InCall(Pop, [m.head]), [], m, m.(head := m.head + 1))
  {
    NoneEnded();
    assert Upto(m.head + 1)[m.head..] == [m.head];
  }

  // What a step does to the call of the thread that moves.
  ghost predicate CallTo(p: Pending, q: Pending, ended: seq<Finished>, m: Memory, m': Memory, pc': Pc) {
    && Balanced(p, q, ended, m, m') && PendingOk(m'.pushed, q, pc')
    && forall i :: 0 <= i < |ended| ==> CallOk(m'.pushed, ended[i])
  }

  ghost predicate CallStep(m: Memory, pc: Pc, c: Choice, p: Pending)
    requires |m.slots| > 0
  {
    var r := Act(m, pc, c);
    CallTo(p, After(p, c, m, pc, r.0, r.1), Ended(p, m, pc, r.0, r.1), m, r.0, r.1)
  }

  lemma CallGoesOn(p: Pending, m: Memory, m': Memory, pc': Pc)
    requires m' == m.(slots := m'.slots) && |m.pushed| == m.tail && PendingOk(m.pushed, p, pc')
    ensures CallTo(p, p, [], m, m', pc') && Moved(p, m, m') == p
  {
    hide Balanced, PendingOk;
    SameBalanced(p, p, m, m');
    if p.InCall? { assert p.tickets + [] == p.tickets; }
  }

  lemma CallEnds(p: Pending, m: Memory, m': Memory, pc': Pc)
    requires m' == m.(slots := m'.slots, returned := m'.returned) && CanCall(pc')
    requires m'.returned == m.returned + Popped([Finished(p, pc')])
    requires Accepted(Finished(p, pc')) == InHand(p) && CallOk(m.pushed, Finished(p, pc'))
    ensures CallTo(p, NoCall, [Finished(p, pc')], m, m', pc') && Moved(p, m, m') == p
  {
    hide Balanced, CallOk, Accepted, InHand, Popped;
    EndBalanced(p, m, m', pc');
    if p.InCall? { assert p.tickets + [] == p.tickets; }
  }

  lemma BeginStep(m: Memory, pc: Pc, c: Choice, p: Pending)
    requires |m.slots| > 0 && |m.pushed| == m.tail && PendingOk(m.pushed, p, pc) && CanCall(pc)
    ensures CallStep(m, pc, c, p)
  {
    hide Balanced, PendingOk, InHand, PushTickets, PopTickets;
    NewCall(m.pushed, pc, c, p);
    SameBalanced(p, Called(p, c), m, m);
  }

  lemma NewCall(pushed: seq<int>, pc: Pc, c: Choice, p: Pending)
    requires PendingOk(pushed, p, pc) && CanCall(pc)
    ensures PendingOk(pushed, Called(p, c), Call(pc, c))
    ensures var q := Called(p, c);
            InHand(q) == InHand(p) && PushTickets(q) == PushTickets(p) && PopTickets(q) == PopTickets(p)
  {
  }

  // A call that ends without a ticket.
  lemma FailedCall(pushed: seq<int>, p: Pending, pc': Pc)
    requires p.InCall? && p.tickets == []
    requires pc' == if p.op.Push? then PushReturn(false) else PopReturn(None)
    ensures CallOk(pushed, Finished(p, pc')) && Accepted(Finished(p, pc')) == InHand(p)
    ensures Popped([Finished(p, pc')]) == []
  {
    OneEnded(Finished(p, pc'));
  }

  lemma SearchStep(m: Memory, pc: Pc, c: Choice, p: Pending)
    requires |m.slots| > 0 && |m.pushed| == m.tail && PendingOk(m.pushed, p, pc)
    requires pc.PushLoad? || pc.PushProbe? || pc.PopLoad? || pc.PopProbe?
    ensures CallStep(m, pc, c, p)
  {
    hide CallTo, SlotOf, Popped, CallOk, Accepted, InHand;
    var pc' := Act(m, pc, c).1;
    if CanCall(pc') {
      FailedCall(m.pushed, p, pc');
      CallEnds(p, m, m, pc');
    } else {
      CallGoesOn(p, m, m, pc');
    }
  }

  lemma PushClaimStep(m: Memory, pc: Pc, c: Choice, p: Pending)
    requires |m.slots| > 0 && |m.pushed| == m.tail && PendingOk(m.pushed, p, pc) && pc.PushClaim?
    ensures CallStep(m, pc, c, p)
  {
    hide Balanced, SlotOf;
    if m.tail == pc.pos && c != SpuriousFailure {
      PushClaimBalanced(m, pc.v);
      assert p.tickets + [m.tail] == [m.tail];
    } else {
      CallGoesOn(p, m, m, PushProbe(pc.v, m.tail));
    }
  }

  lemma PopClaimStep(m: Memory, pc: Pc, c: Choice, p: Pending)
    requires |m.slots| > 0 && Sound(m, pc, Act(m, pc, c).1) && PendingOk(m.pushed, p, pc) && pc.PopClaim?
    ensures CallStep(m, pc, c, p)
  {
    hide Balanced, SlotOf;
    if m.head == pc.pos && c != SpuriousFailure {
      PopClaimBalanced(m);
      assert p.tickets + [m.head] == [m.head];
    } else {
      CallGoesOn(p, m, m, PopProbe(m.head));
    }
  }

  lemma SlotStep(m: Memory, pc: Pc, c: Choice, p: Pending)
    requires |m.slots| > 0 && Sound(m, pc, Act(m, pc, c).1) && PendingOk(m.pushed, p, pc)
    requires pc.PushWrite? || pc.PopTake?
    ensures CallStep(m, pc, c, p)
  {
    hide CallTo, SlotOf;
    var r := Act(m, pc, c);
    CallGoesOn(p, m, r.0, r.1);
  }

  lemma PublishStep(m: Memory, pc: Pc, c: Choice, p: Pending)
    requires |m.slots| > 0 && PendingOk(m.pushed, p, pc) && pc.PushPublish?
    ensures CallStep(m, pc, c, p)
  {
    hide CallTo, SlotOf, Popped, CallOk, Accepted, InHand;
    AcceptedCall(m.pushed, p);
    CallEnds(p, m, Act(m, pc, c).0, PushReturn(true));
  }

  lemma AcceptedCall(pushed: seq<int>, p: Pending)
    requires p.InCall? && p.op.Push? && HoldsAt(pushed, p.tickets, p.op.v)
    ensures var f := Finished(p, PushReturn(true));
            CallOk(pushed, f) && Accepted(f) == InHand(p) && Popped([f]) == []
  {
    OneEnded(Finished(p, PushReturn(true)));
  }

  lemma ReleaseStep(m: Memory, pc: Pc, c: Choice, p: Pending)
    requires |m.slots| > 0 && PendingOk(m.pushed, p, pc) && pc.PopRelease?
    ensures CallStep(m, pc, c, p)
  {
    hide CallTo, SlotOf, Popped, CallOk, Accepted, InHand;
    PoppedCall(m.pushed, p, pc.v);
    CallEnds(p, m, Act(m, pc, c).0, PopReturn(Some(pc.v)));
  }

  lemma PoppedCall(pushed: seq<int>, p: Pending, v: int)
    requires p.InCall? && p.op.Pop? && HoldsAt(pushed, p.tickets, v)
    ensures var f := Finished(p, PopReturn(Some(v)));
            CallOk(pushed, f) && Accepted(f) == InHand(p) && Popped([f]) == [(p.tickets[0], v)]
  {
    OneEnded(Finished(p, PopReturn(Some(v))));
  }

  lemma StepOfCall(m: Memory, pc: Pc, c: Choice, p: Pending)
    requires |m.slots| > 0 && Sound(m, pc, Act(m, pc, c).1) && PendingOk(m.pushed, p, pc)
    ensures CallStep(m, pc, c, p)
  {
    hide CallStep, PendingOk, Act;
    if CanCall(pc) {
      BeginStep(m, pc, c, p);
    } else if pc.PushClaim? {
      PushClaimStep(m, pc, c, p);
    } else if pc.PopClaim? {
      PopClaimStep(m, pc, c, p);
    } else if pc.PushLoad? || pc.PushProbe? || pc.PopLoad? || pc.PopProbe? {
      SearchStep(m, pc, c, p);
    } else if pc.PushWrite? || pc.PopTake? {
      SlotStep(m, pc, c, p);
    } else if pc.PushPublish? {
      PublishStep(m, pc, c, p);
    } else {
      ReleaseStep(m, pc, c, p);
    }
  }

  lemma SplitUpto(k: nat, n: nat)
    requires k <= n
    ensures multiset(Upto(n)) == multiset(Upto(k)) + multiset(Upto(n)[k..])
  {
    assert Upto(n) == Upto(k) + Upto(n)[k..];
  }

  lemma {:induction false} PoppedConcat(a: seq<Finished>, b: seq<Finished>)
    ensures Popped(a + b) == Popped(a) + Popped(b)
    decreases |b|
  {
    if b == [] {
      assert a + b == a;
    } else {
      var n := |b| - 1;
      PoppedConcat(a, b[..n]);
      assert (a + b)[..|a| + n] == a + b[..n];
    }
  }

  lemma PendingBag<E>(h: Calls, tid: nat, q: Pending, ended: seq<Finished>, f: Pending -> multiset<E>,
                      g: Finished -> multiset<E>, gain: multiset<E>)
    requires tid < |h.pending| && f(q) + Bag(ended, g) == f(h.pending[tid]) + gain
    ensures Bag(h.finished + ended, g) + Bag(h.pending[tid := q], f) ==
            (Bag(h.finished, g) + Bag(h.pending, f)) + gain
  {
    hide Bag;
    BagConcat(h.finished, ended, g);
    BagUpdate(h.pending, tid, q, f);
    Balance(Bag(h.pending, f), Bag(h.finished, g), Bag(h.pending[tid := q], f), Bag(ended, g),
            f(h.pending[tid]), f(q), gain);
  }

  lemma StepAccounts(m: Memory, h: Calls, tid: nat, q: Pending, ended: seq<Finished>, m': Memory)
    requires tid < |h.pending| && Accounted(m, h) && Balanced(h.pending[tid], q, ended, m, m')
    requires forall i :: 0 <= i < |ended| ==> CallOk(m'.pushed, ended[i])
    ensures m.pushed <= m'.pushed
    ensures Accounted(m', Calls(h.pending[tid := q], h.finished + ended))
  {
    hide CallOk, InHand, PushTickets, PopTickets, Accepted, FinishedPush, FinishedPop, Popped, Upto, Bag;
    PendingBag(h, tid, q, ended, InHand, Accepted, multiset(m'.pushed[|m.pushed|..]));
    PendingBag(h, tid, q, ended, PushTickets, FinishedPush, multiset(Upto(m'.tail)[m.tail..]));
    PendingBag(h, tid, q, ended, PopTickets, FinishedPop, multiset(Upto(m'.head)[m.head..]));
    SplitUpto(m.tail, m'.tail);
    SplitUpto(m.head, m'.head);
    assert m'.pushed == m.pushed + m'.pushed[|m.pushed|..];
    PoppedConcat(h.finished, ended);
    forall i | 0 <= i < |h.finished + ended| ensures CallOk(m'.pushed, (h.finished + ended)[i]) {
      if i < |h.finished| {
        StillOk(m.pushed, m'.pushed, h.finished[i]);
      } else {
        assert CallOk(m'.pushed, ended[i - |h.finished|]);
      }
    }
  }

  lemma StillOk(pushed: seq<int>, pushed': seq<int>, f: Finished)
    requires pushed <= pushed' && CallOk(pushed, f)
    ensures CallOk(pushed', f)
  {
  }

  lemma StillPending(pushed: seq<int>, pushed': seq<int>, p: Pending, pc: Pc)
    requires pushed <= pushed' && PendingOk(pushed, p, pc)
    ensures PendingOk(pushed', p, pc)
  {
  }

  lemma {:induction false} CallsAccounted(n: nat, threads: nat, sched: Schedule)
    requires n >= 2
    ensures var s, h := Exec(Init(n, threads), sched), CallsOf(n, threads, sched);
            Attributed(s, h) && Accounted(s.mem, h)
    decreases |sched|
  {
    hide Inv, PendingOk, Accounted, Act, Balanced, Sound;
    ThreadCount(n, threads, sched);
    if sched == [] {
      NoCalls(n, threads);
    } else {
      var before := sched[..|sched| - 1];
      var (tid, c) := sched[|sched| - 1];
      CallsAccounted(n, threads, before);
      ThreadCount(n, threads, before);
      if tid < threads {
        var s, h := Exec(Init(n, threads), before), CallsOf(n, threads, before);
        var ph := ReachableInv(n, threads, before);
        InvIsSound(s, ph, tid, c);
        var p, pc := h.pending[tid], s.pcs[tid];
        var (m', pc') := Act(s.mem, pc, c);
        StepOfCall(s.mem, pc, c, p);
        StepAccounts(s.mem, h, tid, After(p, c, s.mem, pc, m', pc'), Ended(p, s.mem, pc, m', pc'), m');
        forall k | 0 <= k < threads && k != tid
          ensures PendingOk(m'.pushed, h.pending[k], s.pcs[k])
        {
          StillPending(s.mem.pushed, m'.pushed, h.pending[k], s.pcs[k]);
        }
      }
    }
  }

  lemma NoCalls(n: nat, threads: nat)
    requires n >= 2
    ensures Attributed(Init(n, threads), CallsOf(n, threads, []))
    ensures Accounted(Init(n, threads).mem, CallsOf(n, threads, []))
  {
    var h := CallsOf(n, threads, []);
    NoneEnded();
    BagEmpty(h.pending, InHand);
    BagEmpty(h.pending, PushTickets);
    BagEmpty(h.pending, PopTickets);
  }

  /** For capacity at least 2, in every interleaving of any number of threads:
      the ring holds at most `n` values, pops return the value of their own
      ticket and never one ticket twice, no producer overwrites an unread
      value, every pushed value is in exactly one place, and every call is
      accounted for by what it returned. */
  lemma Linearity(n: nat, threads: nat, sched: Schedule)
    requires n >= 2
    ensures var s, h := Exec(Init(n, threads), sched), CallsOf(n, threads, sched);
            && s.mem.head <= s.mem.tail == |s.mem.pushed|
            && |Queue(s)| <= n
            && Safe(s)
            && Conserved(s)
            && Accounted(s.mem, h) && Attributed(s, h)
  {
    hide Accounted, Attributed;
    var ph := ReachableInv(n, threads, sched);
    InvIsSafe(Exec(Init(n, threads), sched), ph);
    InvConserves(Exec(Init(n, threads), sched), ph);
    CallsAccounted(n, threads, sched);
  }

  // What a step of one thread does to the abstract queue.
  ghost predicate RefinesQueue(m: Memory, pc: Pc, m': Memory, pc': Pc) {
    && m.head <= m.tail <= |m.pushed| && m'.head <= m'.tail <= |m'.pushed|
    && var q, q' := m.pushed[m.head..m.tail], m'.pushed[m'.head..m'.tail];
       if !pc.PushWrite? && pc'.PushWrite? then q' == q + [pc'.v]
       else if !pc.PopTake? && pc'.PopTake? then
         q != [] && q' == q[1..] && pc'.pos < |m.pushed| && m.pushed[pc'.pos] == q[0]
       else
         && q' == q
         && (pc.PopTake? ==> pc.pos < |m.pushed| && pc' == PopRelease(pc.pos, m.pushed[pc.pos]))
         && (pc.PopRelease? ==> pc' == PopReturn(Some(pc.v)))
  }

  lemma InvStepRefines(s: State, ph: seq<Phase>, tid: nat, c: Choice)
    requires Inv(s, ph) && tid < |s.pcs|
    ensures RefinesQueue(s.mem, s.pcs[tid], Step(s, tid, c).mem, Step(s, tid, c).pcs[tid])
  {
    hide SlotOf, SlotOk, PcOk, ReturnedOk, RefinesQueue, Act;
    var pc := s.pcs[tid];
    if pc.PopTake? || (pc.PopClaim? && pc.pos == s.mem.head) {
      InvPopRefines(s, ph, tid, c);
    } else {
      ActRefines(s.mem, pc, c);
    }
  }

  lemma ActRefines(m: Memory, pc: Pc, c: Choice)
    requires |m.slots| > 0 && m.head <= m.tail == |m.pushed|
    requires !pc.PopTake? && !(pc.PopClaim? && pc.pos == m.head)
    ensures RefinesQueue(m, pc, Act(m, pc, c).0, Act(m, pc, c).1)
  {
    hide SlotOf;
    if pc.PushClaim? {
      assert (m.pushed + [pc.v])[m.head..m.tail + 1] == m.pushed[m.head..m.tail] + [pc.v];
    }
  }

  lemma InvPopRefines(s: State, ph: seq<Phase>, tid: nat, c: Choice)
    requires Inv(s, ph) && tid < |s.pcs|
    requires s.pcs[tid].PopTake? || (s.pcs[tid].PopClaim? && s.pcs[tid].pos == s.mem.head)
    ensures RefinesQueue(s.mem, s.pcs[tid], Step(s, tid, c).mem, Step(s, tid, c).pcs[tid])
  {
    hide SlotOf;
    assert PcOk(s, ph, tid);
    var i := SlotOf(s.pcs[tid].pos, |ph|);
    assert SlotOk(s, i, ph[i]);
  }

  /** Each step leaves the abstract queue alone, appends the value of the
      thread whose claim of `tail_` succeeds, or removes the oldest value for
      the thread whose claim of `head_` succeeds; and that thread's pop goes
      on to return exactly the value it removed. */
  lemma StepRefinesQueue(n: nat, threads: nat, sched: Schedule, tid: nat, c: Choice)
    requires n >= 2 && tid < threads
    ensures var s := Exec(Init(n, threads), sched);
            && |s.pcs| == threads
            && RefinesQueue(s.mem, s.pcs[tid], Step(s, tid, c).mem, Step(s, tid, c).pcs[tid])
  {
    ThreadCount(n, threads, sched);
    var ph := ReachableInv(n, threads, sched);
    InvStepRefines(Exec(Init(n, threads), sched), ph, tid, c);
  }

  lemma {:induction false} ThreadCount(n: nat, threads: nat, sched: Schedule)
    requires n > 0
    ensures |Exec(Init(n, threads), sched).pcs| == threads
    decreases |sched|
  {
    if sched != [] { ThreadCount(n, threads, sched[..|sched| - 1]); }
  }

  lemma InvPushFails(s: State, ph: seq<Phase>, tid: nat)
    requires Inv(s, ph) && tid < |s.pcs| && s.pcs[tid].PushProbe?
    ensures var pos, tail := s.pcs[tid].pos, s.mem.tail;
            s.mem.slots[SlotOf(pos, |ph|)].sequence < pos <==>
            pos == tail && tail >= |ph| && !IsReturned(s, tail - |ph|)
  {
    var n, pos := |ph|, s.pcs[tid].pos;
    var p := ph[SlotOf(pos, n)];
    assert PcOk(s, ph, tid);
    PushProbeMeans(s, ph, pos);
    assert SlotOk(s, SlotOf(pos, n), p);
    if pos == s.mem.tail && pos >= n {
      LapKeepsSlot(pos - n, n);
      assert BeingRead(ph, pos - n) <==> p.Reading? && p.t == pos - n;
      if p.Free? { SameSlotSameTicket(pos, p.t, n); }
    }
  }

  /** Whatever a call is doing, its next step reports "full" exactly when it is
      the load of a slot's sequence, for the current tail, and the ticket one
      lap behind has not been released. */
  lemma PushFailsIffLapBehindUnreleased(n: nat, threads: nat, sched: Schedule, tid: nat, c: Choice)
    requires n >= 2
    requires tid < |Exec(Init(n, threads), sched).pcs|
    requires !CanCall(Exec(Init(n, threads), sched).pcs[tid])
    ensures var s := Exec(Init(n, threads), sched);
            Step(s, tid, c).pcs[tid] == PushReturn(false) <==>
            && s.pcs[tid].PushProbe? && s.pcs[tid].pos == s.mem.tail
            && s.mem.tail >= n && !IsReturned(s, s.mem.tail - n)
  {
    hide SlotOf, Inv;
    var ph := ReachableInv(n, threads, sched);
    var s := Exec(Init(n, threads), sched);
    assert |ph| == n by { ShapeOf(s, ph); RingSize(n, threads, sched); }
    if s.pcs[tid].PushProbe? { InvPushFails(s, ph, tid); }
  }

  lemma ShapeOf(s: State, ph: seq<Phase>)
    requires Inv(s, ph)
    ensures Shape(s, ph)
  {
  }

  lemma RingSize(n: nat, threads: nat, sched: Schedule)
    requires n > 0
    ensures |Exec(Init(n, threads), sched).mem.slots| == n
  {
  }

  /** Likewise for "empty": the load of a slot's sequence, for the current head,
      where no published value is: nothing is queued, or the producer that
      claimed this ticket has not published yet. */
  lemma PopFailsIffHeadUnpublished(n: nat, threads: nat, sched: Schedule, tid: nat, c: Choice)
    requires n >= 2
    requires tid < |Exec(Init(n, threads), sched).pcs|
    requires !CanCall(Exec(Init(n, threads), sched).pcs[tid])
    ensures var s := Exec(Init(n, threads), sched);
            && s.mem.head <= s.mem.tail == |s.mem.pushed|
            && (Step(s, tid, c).pcs[tid] == PopReturn(None) <==>
                  && s.pcs[tid].PopProbe? && s.pcs[tid].pos == s.mem.head
                  && (s.mem.head == s.mem.tail || InProducer(s, s.mem.head)))
  {
    hide SlotOf, Inv, InProducer;
    var ph := ReachableInv(n, threads, sched);
    var s := Exec(Init(n, threads), sched);
    ShapeOf(s, ph);
    if s.pcs[tid].PopProbe? { InvPopFails(s, ph, tid); }
  }

  lemma InvPopFails(s: State, ph: seq<Phase>, tid: nat)
    requires Inv(s, ph) && tid < |s.pcs| && s.pcs[tid].PopProbe?
    ensures var pos := s.pcs[tid].pos;
            s.mem.slots[SlotOf(pos, |ph|)].sequence < pos + 1 <==>
            pos == s.mem.head && (s.mem.head == s.mem.tail || InProducer(s, s.mem.head))
  {
    var n, pos := |ph|, s.pcs[tid].pos;
    assert PcOk(s, ph, tid);
    PopProbeMeans(s, ph, pos);
    var p := ph[SlotOf(pos, n)];
    assert SlotOk(s, SlotOf(pos, n), p);
    if pos == s.mem.head < s.mem.tail {
      TicketPhase(s, ph, pos);
      OwnersByPhase(s, ph, pos);
    } else if pos == s.mem.head {
      if p.Free? { SameSlotSameTicket(pos, p.t, n); }
    }
  }

  ghost predicate AlwaysSafe(n: nat)
    requires n > 0
  {
    forall threads: nat, sched: Schedule :: Safe(Exec(Init(n, threads), sched))
  }

  // One producer on a ring of capacity 1: the second push claims the slot
  // that still holds the first value.
  const OVERRUN: Schedule := Alone(0, CallPush(7)) + Alone(0, CallPush(8))[..4]

  // One whole call of one thread: the call and at most five steps.
  function Alone(tid: nat, call: Choice): Schedule {
    [(tid, call), (tid, Go), (tid, Go), (tid, Go), (tid, Go), (tid, Go)]
  }

  lemma ExecStep(s: State, sched: Schedule, e: (nat, Choice))
    requires |s.mem.slots| > 0
    ensures Exec(s, sched + [e]) == Step(Exec(s, sched), e.0, e.1)
  {
  }

  lemma {:induction false} ExecConcat(s: State, a: Schedule, b: Schedule)
    requires |s.mem.slots| > 0
    ensures Exec(s, a + b) == Exec(Exec(s, a), b)
    decreases |b|
  {
    if b == [] {
      assert a + b == a;
    } else {
      var last := |b| - 1;
      ExecConcat(s, a, b[..last]);
      assert a + b == (a + b[..last]) + [b[last]];
      ExecStep(s, a + b[..last], b[last]);
    }
  }

  function ActAlone(m: Memory, pc: Pc, call: Choice, steps: nat): (r: (Memory, Pc))
    requires |m.slots| > 0
    ensures |r.0.slots| == |m.slots|
  {
    if steps == 0 then (m, pc)
    else
      var (m', pc') := ActAlone(m, pc, call, steps - 1);
      Act(m', pc', if steps == 1 then call else Go)
  }

  lemma {:induction false} ExecAlone(s: State, tid: nat, call: Choice, steps: nat)
    requires |s.mem.slots| > 0 && tid < |s.pcs| && steps <= 6
    ensures var (m, pc) := ActAlone(s.mem, s.pcs[tid], call, steps);
            Exec(s, Alone(tid, call)[..steps]) == State(m, s.pcs[tid := pc])
  {
    if steps > 0 {
      ExecAlone(s, tid, call, steps - 1);
      var e := Alone(tid, call);
      assert e[..steps] == e[..steps - 1] + [e[steps - 1]];
      ExecStep(s, e[..steps - 1], e[steps - 1]);
    } else {
      assert s.pcs[tid := s.pcs[tid]] == s.pcs;
    }
  }

  lemma CapacityOneOverruns()
    ensures var s := Exec(Init(1, 1), OVERRUN);
            && |s.pcs| == 1 && s.pcs[0] == PushWrite(8, 1)
            && s.mem.slots[0].storage == Some(7) && s.mem.returned == []
  {
    var s0 := Init(1, 1);
    PushAloneAct(s0.mem, s0.pcs[0], 7);
    ExecAlone(s0, 0, CallPush(7), 6);
    var s := Exec(s0, Alone(0, CallPush(7))[..6]);
    assert s.mem.slots == [Slot(1, Some(7))];
    PushAloneAct(s.mem, s.pcs[0], 8);
    ExecAlone(s, 0, CallPush(8), 4);
    assert Alone(0, CallPush(7))[..6] == Alone(0, CallPush(7));
    ExecConcat(s0, Alone(0, CallPush(7)), Alone(0, CallPush(8))[..4]);
  }

  /** The ring is safe in every interleaving exactly when its capacity is not 1. */
  lemma SafeIffCapacityAtLeastTwo(n: nat)
    requires n > 0
    ensures AlwaysSafe(n) <==> n >= 2
  {
    if n >= 2 {
      forall threads: nat, sched: Schedule ensures Safe(Exec(Init(n, threads), sched)) {
        Linearity(n, threads, sched);
      }
    } else {
      CapacityOneOverruns();
      assert !StorageReady(Exec(Init(1, 1), OVERRUN).mem, Exec(Init(1, 1), OVERRUN).pcs[0]);
      assert !Safe(Exec(Init(1, 1), OVERRUN));
    }
  }

  /** The constructor rounds its argument up, so the queue is safe exactly
      when two or more slots were requested. */
  method Construct(request: nat, threads: nat) returns (s: State)
    requires request <= Pow2(MAX_SHIFT)
    ensures IsPow2(|s.mem.slots|) && |s.mem.slots| >= request
    ensures s == Init(|s.mem.slots|, threads)
    ensures AlwaysSafe(|s.mem.slots|) <==> request >= 2
  {
    var n := RoundUpPow2(request);
    s := Init(n, threads);
    SafeIffCapacityAtLeastTwo(n);
  }

  // ----- A thread that is not disturbed finishes its call -----

  // The slots at the tail and at the head are never ahead of them.
  lemma SlotsNotAhead(s: State, ph: seq<Phase>)
    requires Inv(s, ph)
    ensures s.mem.slots[SlotOf(s.mem.tail, |ph|)].sequence <= s.mem.tail
    ensures s.mem.slots[SlotOf(s.mem.head, |ph|)].sequence <= s.mem.head + 1
  {
    var n, tail, head := |ph|, s.mem.tail, s.mem.head;
    var p, q := ph[SlotOf(tail, n)], ph[SlotOf(head, n)];
    assert SlotOk(s, SlotOf(tail, n), p) && SlotOk(s, SlotOf(head, n), q);
    if p.Free? { SameSlotSameTicket(tail, p.t, n); }
    if !q.Reading? { SameSlotSameTicket(head, q.t, n); }
  }

  // How many steps of its own a call still needs at most.
  function Rank(m: Memory, pc: Pc): nat {
    match pc
    case PushLoad(_) => 5
    case PushProbe(_, pos) => if pos == m.tail then 4 else 6
    case PushClaim(_, pos) => if pos == m.tail then 3 else 5
    case PushWrite(_, _) => 2
    case PushPublish(_, _) => 1
    case PopLoad => 5
    case PopProbe(pos) => if pos == m.head then 4 else 6
    case PopClaim(pos) => if pos == m.head then 3 else 5
    case PopTake(_) => 2
    case PopRelease(_, _) => 1
    case _ => 0
  }

  lemma RankFalls(m: Memory, pc: Pc)
    requires |m.slots| > 0 && !CanCall(pc)
    requires m.slots[SlotOf(m.tail, |m.slots|)].sequence <= m.tail
    requires m.slots[SlotOf(m.head, |m.slots|)].sequence <= m.head + 1
    ensures Rank(Act(m, pc, Go).0, Act(m, pc, Go).1) < Rank(m, pc)
  {
    hide SlotOf;
  }

  function Solo(tid: nat, steps: nat): Schedule { seq(steps, _ => (tid, Go)) }

  lemma {:induction false} SoloFinishes(s: State, ph: seq<Phase>, tid: nat, steps: nat)
    requires Inv(s, ph) && tid < |s.pcs| && Rank(s.mem, s.pcs[tid]) <= steps
    ensures var s' := Exec(s, Solo(tid, steps)); tid < |s'.pcs| && CanCall(s'.pcs[tid])
    decreases steps
  {
    hide SlotOf, Inv, Act;
    ShapeOf(s, ph);
    if steps == 0 {
      RankZero(s.mem, s.pcs[tid]);
    } else {
      var s', rest := Step(s, tid, Go), Solo(tid, steps - 1);
      var ph' := StepKeepsInv(s, ph, tid, Go);
      if CanCall(s.pcs[tid]) {
        ReturnedStays(s.mem, s.pcs[tid]);
      } else {
        SlotsNotAhead(s, ph);
        RankFalls(s.mem, s.pcs[tid]);
      }
      SoloFinishes(s', ph', tid, steps - 1);
      assert Solo(tid, steps) == [(tid, Go)] + rest;
      ExecConcat(s, [(tid, Go)], rest);
      ExecStep(s, [], (tid, Go));
      assert [] + [(tid, Go)] == [(tid, Go)];
    }
  }

  lemma RankZero(m: Memory, pc: Pc)
    requires Rank(m, pc) == 0
    ensures CanCall(pc)
  {
  }

  lemma ReturnedStays(m: Memory, pc: Pc)
    requires |m.slots| > 0 && CanCall(pc)
    ensures Act(m, pc, Go) == (m, pc) && Rank(m, pc) == 0
  {
  }

  /** From every reachable state, whatever the other threads have left half
      done, six steps of one thread finish its call. */
  lemma FinishesAlone(n: nat, threads: nat, sched: Schedule, tid: nat)
    requires n >= 2 && tid < threads
    ensures var s := Exec(Exec(Init(n, threads), sched), Solo(tid, 6));
            |s.pcs| == threads && CanCall(s.pcs[tid])
  {
    hide Inv;
    ThreadCount(n, threads, sched);
    var ph := ReachableInv(n, threads, sched);
    var s := Exec(Init(n, threads), sched);
    SoloFinishes(s, ph, tid, 6);
    ExecConcat(Init(n, threads), sched, Solo(tid, 6));
    ThreadCount(n, threads, sched + Solo(tid, 6));
  }

  // ----- One thread running alone -----

  ghost predicate Quiet(s: State) {
    forall k :: 0 <= k < |s.pcs| ==> CanCall(s.pcs[k])
  }

  // With no call in progress no slot is claimed, so each holds a queued value
  // or is free for its next ticket.
  lemma QuietSlots(s: State, ph: seq<Phase>, t: nat)
    requires Inv(s, ph) && Quiet(s) && s.mem.head <= t < s.mem.head + |ph|
    ensures s.mem.slots[SlotOf(t, |ph|)] ==
            (if t < s.mem.tail then Slot(t + 1, Some(s.mem.pushed[t])) else Slot(t, None))
  {
    var n := |ph|;
    var p := ph[SlotOf(t, n)];
    assert SlotOk(s, SlotOf(t, n), p);
    if p.t <= t { SameSlotSameTicket(p.t, t, n); } else { SameSlotSameTicket(t, p.t, n); }
  }

  predicate CanCall(pc: Pc) { pc.Idle? || pc.PushReturn? || pc.PopReturn? }

  lemma PushAloneAct(m: Memory, pc: Pc, v: int)
    requires |m.slots| > 0 && CanCall(pc)
    requires m.slots[SlotOf(m.tail, |m.slots|)].sequence == m.tail
    ensures ActAlone(m, pc, CallPush(v), 4) ==
            (m.(tail := m.tail + 1, pushed := m.pushed + [v]), PushWrite(v, m.tail))
    ensures ActAlone(m, pc, CallPush(v), 6) ==
            (SetSlot(m, m.tail, Slot(m.tail + 1, Some(v))).(tail := m.tail + 1, pushed := m.pushed + [v]),
             PushReturn(true))
  {
    assert ActAlone(m, pc, CallPush(v), 1) == (m, PushLoad(v));
    assert ActAlone(m, pc, CallPush(v), 2) == (m, PushProbe(v, m.tail));
    assert ActAlone(m, pc, CallPush(v), 3) == (m, PushClaim(v, m.tail));
    var m4 := m.(tail := m.tail + 1, pushed := m.pushed + [v]);
    assert ActAlone(m, pc, CallPush(v), 4) == (m4, PushWrite(v, m.tail));
    var m5 := SetSlot(m4, m.tail, Slot(m.tail, Some(v)));
    assert ActAlone(m, pc, CallPush(v), 5) == (m5, PushPublish(v, m.tail));
    assert SetSlot(m5, m.tail, Slot(m.tail + 1, Some(v))) == SetSlot(m4, m.tail, Slot(m.tail + 1, Some(v)));
  }

  lemma PushAloneFull(m: Memory, pc: Pc, v: int)
    requires |m.slots| > 0 && CanCall(pc)
    requires m.slots[SlotOf(m.tail, |m.slots|)].sequence < m.tail
    ensures ActAlone(m, pc, CallPush(v), 6) == (m, PushReturn(false))
  {
    assert ActAlone(m, pc, CallPush(v), 1) == (m, PushLoad(v));
    assert ActAlone(m, pc, CallPush(v), 2) == (m, PushProbe(v, m.tail));
    assert ActAlone(m, pc, CallPush(v), 3) == (m, PushReturn(false));
    assert ActAlone(m, pc, CallPush(v), 4) == (m, PushReturn(false));
    assert ActAlone(m, pc, CallPush(v), 5) == (m, PushReturn(false));
  }

  lemma PopAloneClaims(m: Memory, pc: Pc, v: int)
    requires |m.slots| > 0 && CanCall(pc)
    requires m.slots[SlotOf(m.head, |m.slots|)] == Slot(m.head + 1, Some(v))
    ensures ActAlone(m, pc, CallPop, 4) == (m.(head := m.head + 1), PopTake(m.head))
  {
    assert ActAlone(m, pc, CallPop, 1) == (m, PopLoad);
    assert ActAlone(m, pc, CallPop, 2) == (m, PopProbe(m.head));
    assert ActAlone(m, pc, CallPop, 3) == (m, PopClaim(m.head));
  }

  lemma PopAloneAct(m: Memory, pc: Pc, v: int)
    requires |m.slots| > 0 && CanCall(pc)
    requires m.slots[SlotOf(m.head, |m.slots|)] == Slot(m.head + 1, Some(v))
    ensures ActAlone(m, pc, CallPop, 6) ==
            (SetSlot(m, m.head, Slot(m.head + |m.slots|, None)).(
               head := m.head + 1, returned := m.returned + [(m.head, v)]),
             PopReturn(Some(v)))
  {
    hide SlotOf;
    PopAloneClaims(m, pc, v);
    var m4 := m.(head := m.head + 1);
    var m5 := SetSlot(m4, m.head, Slot(m.head + 1, None));
    assert ActAlone(m, pc, CallPop, 5) == (m5, PopRelease(m.head, v));
    assert SetSlot(m5, m.head, Slot(m.head + |m.slots|, None)) == SetSlot(m4, m.head, Slot(m.head + |m.slots|, None));
  }

  lemma PopAloneEmpty(m: Memory, pc: Pc)
    requires |m.slots| > 0 && CanCall(pc)
    requires m.slots[SlotOf(m.head, |m.slots|)].sequence < m.head + 1
    ensures ActAlone(m, pc, CallPop, 6) == (m, PopReturn(None))
  {
    assert ActAlone(m, pc, CallPop, 1) == (m, PopLoad);
    assert ActAlone(m, pc, CallPop, 2) == (m, PopProbe(m.head));
    assert ActAlone(m, pc, CallPop, 3) == (m, PopReturn(None));
    assert ActAlone(m, pc, CallPop, 4) == (m, PopReturn(None));
    assert ActAlone(m, pc, CallPop, 5) == (m, PopReturn(None));
  }

  lemma QuietPush(s: State, ph: seq<Phase>, tid: nat, v: int)
    requires Inv(s, ph) && Quiet(s) && tid < |s.pcs|
    ensures var room := s.mem.tail - s.mem.head < |ph|;
            var (m, pc) := ActAlone(s.mem, s.pcs[tid], CallPush(v), 6);
            && pc == PushReturn(room)
            && m.head == s.mem.head
            && m.tail == (if room then s.mem.tail + 1 else s.mem.tail)
            && m.pushed == (if room then s.mem.pushed + [v] else s.mem.pushed)
  {
    if s.mem.tail - s.mem.head < |ph| {
      QuietSlots(s, ph, s.mem.tail);
      PushAloneAct(s.mem, s.pcs[tid], v);
    } else {
      QuietSlots(s, ph, s.mem.head);
      LapKeepsSlot(s.mem.head, |ph|);
      PushAloneFull(s.mem, s.pcs[tid], v);
    }
  }

  lemma QuietPop(s: State, ph: seq<Phase>, tid: nat)
    requires Inv(s, ph) && Quiet(s) && tid < |s.pcs|
    ensures var some := s.mem.head < s.mem.tail;
            var (m, pc) := ActAlone(s.mem, s.pcs[tid], CallPop, 6);
            && pc == PopReturn(if some then Some(s.mem.pushed[s.mem.head]) else None)
            && m.head == (if some then s.mem.head + 1 else s.mem.head)
            && m.tail == s.mem.tail && m.pushed == s.mem.pushed
  {
    QuietSlots(s, ph, s.mem.head);
    if s.mem.head < s.mem.tail {
      PopAloneAct(s.mem, s.pcs[tid], s.mem.pushed[s.mem.head]);
    } else {
      PopAloneEmpty(s.mem, s.pcs[tid]);
    }
  }

  /** With no other call in progress, `try_push` succeeds exactly when fewer
      than `n` values are queued, and then queues its value. */
  lemma PushAloneIsBoundedFifo(n: nat, threads: nat, sched: Schedule, tid: nat, v: int)
    requires n >= 2 && tid < threads
    requires Quiet(Exec(Init(n, threads), sched))
    ensures var s := Exec(Init(n, threads), sched);
            var s' := Exec(s, Alone(tid, CallPush(v)));
            && |s'.pcs| == threads
            && s.mem.head <= s.mem.tail <= |s.mem.pushed| && s'.mem.head <= s'.mem.tail <= |s'.mem.pushed|
            && s'.pcs[tid] == PushReturn(|Queue(s)| < n)
            && Queue(s') == (if |Queue(s)| < n then Queue(s) + [v] else Queue(s))
  {
    ThreadCount(n, threads, sched);
    var ph := ReachableInv(n, threads, sched);
    var s := Exec(Init(n, threads), sched);
    QuietPush(s, ph, tid, v);
    ExecAlone(s, tid, CallPush(v), 6);
    assert Alone(tid, CallPush(v))[..6] == Alone(tid, CallPush(v));
  }

  /** With no other call in progress, `try_pop` returns the oldest queued
      value, and nothing exactly when nothing is queued. */
  lemma PopAloneIsBoundedFifo(n: nat, threads: nat, sched: Schedule, tid: nat)
    requires n >= 2 && tid < threads
    requires Quiet(Exec(Init(n, threads), sched))
    ensures var s := Exec(Init(n, threads), sched);
            var s' := Exec(s, Alone(tid, CallPop));
            && |s'.pcs| == threads
            && s.mem.head <= s.mem.tail <= |s.mem.pushed| && s'.mem.head <= s'.mem.tail <= |s'.mem.pushed|
            && s'.pcs[tid] == PopReturn(if Queue(s) == [] then None else Some(Queue(s)[0]))
            && Queue(s') == (if Queue(s) == [] then [] else Queue(s)[1..])
  {
    ThreadCount(n, threads, sched);
    var ph := ReachableInv(n, threads, sched);
    var s := Exec(Init(n, threads), sched);
    QuietPop(s, ph, tid);
    ExecAlone(s, tid, CallPop, 6);
    assert Alone(tid, CallPop)[..6] == Alone(tid, CallPop);
  }
}
