/** The single-producer single-consumer ring, as a transition system.  Each
    side keeps a possibly stale copy of the other side's index; every load and
    store of `try_push` and `try_pop` is one step, and a schedule interleaves
    the steps of the two sides.  Indices are unbounded naturals. */
module SpscQueue {
  import opened Options
  import opened RingArith

  datatype ProducerPc =
    | ProducerIdle
    | PushCheck(v: int)        // compare tail_ with the cached head
    | PushRefresh(v: int)      // load head_ into the cache and compare again
    | PushWrite(v: int)        // construct the value in the slot
    | PushStore(v: int)        // store tail_ + 1
    | PushReturn(ok: bool)

  datatype ConsumerPc =
    | ConsumerIdle
    | PopCheck                 // compare head_ with the cached tail
    | PopRefresh               // load tail_ into the cache and compare again
    | PopTake                  // move the value out of the slot
    | PopStore(v: int)         // store head_ + 1
    | PopReturn(r: Option<int>)

  // `pushed` and `popped` are history, appended when the store that makes the
  // operation visible happens.  No step reads them.
  datatype State = State(buffer: seq<Option<int>>, head: nat, tail: nat,
                         headCached: nat, tailCached: nat,
                         producer: ProducerPc, consumer: ConsumerPc,
                         pushed: seq<int>, popped: seq<int>)

  datatype Move = CallPush(v: int) | CallPop | Producer | Consumer

  function Init(n: nat): State {
    State(seq(n, i => None), 0, 0, 0, 0, ProducerIdle, ConsumerIdle, [], [])
  }

  // `tail_` is written by the producer alone, so its own load needs no step.
  function ProducerStep(s: State): (r: State)
    requires |s.buffer| > 0
    ensures |r.buffer| == |s.buffer|
  {
    match s.producer
    case PushCheck(v) =>
      if s.tail + 1 - s.headCached > |s.buffer| then s.(producer := PushRefresh(v)) else s.(producer := PushWrite(v))
    case PushRefresh(v) =>
      if s.tail + 1 - s.head > |s.buffer| then s.(headCached := s.head, producer := PushReturn(false))
      else s.(headCached := s.head, producer := PushWrite(v))
    case PushWrite(v) =>
      s.(buffer := s.buffer[SlotOf(s.tail, |s.buffer|) := Some(v)], producer := PushStore(v))
    case PushStore(v) =>
      s.(tail := s.tail + 1, pushed := s.pushed + [v], producer := PushReturn(true))
    case _ => s
  }

  function ConsumerStep(s: State): (r: State)
    requires |s.buffer| > 0
    ensures |r.buffer| == |s.buffer|
  {
    match s.consumer
    case PopCheck =>
      if s.head >= s.tailCached then s.(consumer := PopRefresh) else s.(consumer := PopTake)
    case PopRefresh =>
      if s.head >= s.tail then s.(tailCached := s.tail, consumer := PopReturn(None))
      else s.(tailCached := s.tail, consumer := PopTake)
    case PopTake =>
      var slot := s.buffer[SlotOf(s.head, |s.buffer|)];
      s.(buffer := s.buffer[SlotOf(s.head, |s.buffer|) := None],
         consumer := PopStore(if slot.Some? then slot.value else 0))
    case PopStore(v) =>
      s.(head := s.head + 1, popped := s.popped + [v], consumer := PopReturn(Some(v)))
    case _ => s
  }

  function Step(s: State, m: Move): (r: State)
    requires |s.buffer| > 0
    ensures |r.buffer| == |s.buffer|
  {
    match m
    case CallPush(v) =>
      if s.producer.ProducerIdle? || s.producer.PushReturn? then s.(producer := PushCheck(v)) else s
    case CallPop =>
      if s.consumer.ConsumerIdle? || s.consumer.PopReturn? then s.(consumer := PopCheck) else s
    case Producer => ProducerStep(s)
    case Consumer => ConsumerStep(s)
  }

  function Exec(s: State, moves: seq<Move>): (r: State)
    requires |s.buffer| > 0
    ensures |r.buffer| == |s.buffer|
    decreases |moves|
  {
    if moves == [] then s else Step(Exec(s, moves[..|moves| - 1]), moves[|moves| - 1])
  }

  // The abstract queue: stored by the producer, not yet released by the consumer.
  function Queue(s: State): seq<int>
    requires s.head <= s.tail <= |s.pushed|
  {
    s.pushed[s.head..s.tail]
  }

  // What the slot of ticket t holds, for t within one lap of the head.
  function Expected(s: State, t: nat): Option<int>
    requires t < s.tail ==> t < |s.pushed|
  {
    if t == s.head && s.consumer.PopStore? then None
    else if t < s.tail then Some(s.pushed[t])
    else if t == s.tail && s.producer.PushStore? then Some(s.producer.v)
    else None
  }

  ghost predicate Inv(s: State) {
    var n := |s.buffer|;
    && n > 0
    && s.headCached <= s.head <= s.tailCached <= s.tail == |s.pushed|
    && s.tail <= s.headCached + n
    && s.popped == s.pushed[..s.head]
    && (s.producer.PushWrite? || s.producer.PushStore? ==> s.tail < s.headCached + n)
    && (s.consumer.PopTake? || s.consumer.PopStore? ==> s.head < s.tailCached)
    && (s.consumer.PopStore? ==> s.consumer.v == s.pushed[s.head])
    && forall t: nat :: s.head <= t < s.head + n ==> s.buffer[SlotOf(t, n)] == Expected(s, t)
  }

  lemma ProducerKeepsInv(s: State)
    requires Inv(s)
    ensures Inv(ProducerStep(s))
  {
    var s', n := ProducerStep(s), |s.buffer|;
    forall t: nat | s'.head <= t < s'.head + n ensures s'.buffer[SlotOf(t, n)] == Expected(s', t) {
      assert s.buffer[SlotOf(t, n)] == Expected(s, t);
      if s.producer.PushWrite? { NearbyTicketsShareSlotIffEqual(t, s.tail, n); }
    }
  }

  lemma ConsumerKeepsInv(s: State)
    requires Inv(s)
    ensures Inv(ConsumerStep(s))
  {
    var s', n := ConsumerStep(s), |s.buffer|;
    forall t: nat | s'.head <= t < s'.head + n ensures s'.buffer[SlotOf(t, n)] == Expected(s', t) {
      if t == s.head + n {
        LapKeepsSlot(s.head, n);
        assert s.buffer[SlotOf(s.head, n)] == Expected(s, s.head);
      } else {
        assert s.buffer[SlotOf(t, n)] == Expected(s, t);
        if s.consumer.PopTake? { NearbyTicketsShareSlotIffEqual(t, s.head, n); }
      }
    }
    if s.consumer.PopTake? { assert s.buffer[SlotOf(s.head, n)] == Expected(s, s.head); }
    if s.consumer.PopStore? { assert s'.popped == s.pushed[..s.head + 1]; }
  }

  lemma {:induction false} ReachableInv(n: nat, moves: seq<Move>)
    requires n > 0
    ensures Inv(Exec(Init(n), moves))
    decreases |moves|
  {
    if moves != [] {
      var s := Exec(Init(n), moves[..|moves| - 1]);
      ReachableInv(n, moves[..|moves| - 1]);
      match moves[|moves| - 1]
      case Producer => ProducerKeepsInv(s);
      case Consumer => ConsumerKeepsInv(s);
      case _ => CallKeepsInv(s, moves[|moves| - 1]);
    }
  }

  lemma CallKeepsInv(s: State, m: Move)
    requires Inv(s) && (m.CallPush? || m.CallPop?)
    ensures Inv(Step(s, m))
  {
  }

  // ----- Main results -----

  ghost predicate NoOverwrite(s: State)
    requires |s.buffer| > 0
  {
    && (s.producer.PushWrite? ==> s.buffer[SlotOf(s.tail, |s.buffer|)] == None)
    && (s.consumer.PopTake? ==> s.buffer[SlotOf(s.head, |s.buffer|)].Some?)
  }

  // What callers see: the calls in progress, the arguments of the pushes that
  // returned true, and the values that pops returned.
  datatype Calls = Calls(pushing: Option<int>, popping: bool, accepted: seq<int>, got: seq<int>)

  predicate ProducerFree(p: ProducerPc) { p.ProducerIdle? || p.PushReturn? }

  predicate ConsumerFree(c: ConsumerPc) { c.ConsumerIdle? || c.PopReturn? }

  function Observed(h: Calls, m: Move, s: State, s': State): Calls {
    match m
    case CallPush(v) => if ProducerFree(s.producer) then h.(pushing := Some(v)) else h
    case CallPop => if ConsumerFree(s.consumer) then h.(popping := true) else h
    case Producer =>
      if ProducerFree(s.producer) || !ProducerFree(s'.producer) then h
      else
        h.(pushing := None,
           accepted := h.accepted +
                       if s'.producer == PushReturn(true) && h.pushing.Some? then [h.pushing.value] else [])
    case Consumer =>
      if ConsumerFree(s.consumer) || !ConsumerFree(s'.consumer) then h
      else
        h.(popping := false,
           got := h.got + if s'.consumer.PopReturn? && s'.consumer.r.Some? then [s'.consumer.r.value] else [])
  }

  function CallsOf(n: nat, moves: seq<Move>): Calls
    requires n > 0
    decreases |moves|
  {
    if moves == [] then Calls(None, false, [], [])
    else
      var before, m := moves[..|moves| - 1], moves[|moves| - 1];
      Observed(CallsOf(n, before), m, Exec(Init(n), before), Exec(Init(n), moves))
  }

  // The pushes that returned true are those whose values were queued, in order,
  // the values returned are those removed, in order, and each side is in the
  // call it made.
  ghost predicate Accounted(s: State, h: Calls) {
    && h.accepted == s.pushed && h.got == s.popped
    && (h.pushing == None <==> ProducerFree(s.producer)) && (h.popping <==> !ConsumerFree(s.consumer))
    && (h.pushing.Some? ==> !ProducerFree(s.producer) && s.producer.v == h.pushing.value)
  }

  lemma {:induction false} CallsAccounted(n: nat, moves: seq<Move>)
    requires n > 0
    ensures Accounted(Exec(Init(n), moves), CallsOf(n, moves))
    decreases |moves|
  {
    hide Step, Accounted, Observed;
    if moves == [] {
      NoCalls(n);
    } else {
      var before := moves[..|moves| - 1];
      CallsAccounted(n, before);
      StepAccounts(Exec(Init(n), before), CallsOf(n, before), moves[|moves| - 1]);
    }
  }

  lemma NoCalls(n: nat)
    ensures Accounted(Init(n), Calls(None, false, [], []))
  {
  }

  lemma StepAccounts(s: State, h: Calls, m: Move)
    requires |s.buffer| > 0 && Accounted(s, h)
    ensures Accounted(Step(s, m), Observed(h, m, s, Step(s, m)))
  {
    hide SlotOf;
  }

  /** In every interleaving, for every capacity: the values popped are the
      values pushed, in order, at most `n` are queued, no unread slot is
      written and no empty slot read; and these are the values of the calls that
      reported success. */
  lemma IsFifo(n: nat, moves: seq<Move>)
    requires n > 0
    ensures var s, h := Exec(Init(n), moves), CallsOf(n, moves);
            && s.head <= s.tail == |s.pushed|
            && s.pushed == s.popped + Queue(s)
            && |Queue(s)| <= n
            && NoOverwrite(s)
            && Accounted(s, h)
  {
    hide Accounted, Inv, NoOverwrite;
    CallsAccounted(n, moves);
    ReachableInv(n, moves);
    InvIsFifo(Exec(Init(n), moves));
  }

  lemma InvIsFifo(s: State)
    requires Inv(s)
    ensures s.head <= s.tail == |s.pushed| && s.pushed == s.popped + Queue(s) && |Queue(s)| <= |s.buffer|
    ensures |s.buffer| > 0 && NoOverwrite(s)
  {
    var n := |s.buffer|;
    if s.producer.PushWrite? { assert s.buffer[SlotOf(s.tail, n)] == Expected(s, s.tail); }
    if s.consumer.PopTake? { assert s.buffer[SlotOf(s.head, n)] == Expected(s, s.head); }
  }

  lemma ProducerRefines(s: State)
    requires Inv(s)
    ensures var s' := ProducerStep(s);
            && s'.head <= s'.tail <= |s'.pushed|
            && Queue(s') == if s.producer.PushStore? then Queue(s) + [s.producer.v] else Queue(s)
  {
  }

  lemma ConsumerRefines(s: State)
    requires Inv(s)
    ensures var s' := ConsumerStep(s);
            && s'.head <= s'.tail <= |s'.pushed|
            && (s.consumer.PopStore? ==> Queue(s) != [] && s'.consumer == PopReturn(Some(Queue(s)[0])))
            && Queue(s') == if s.consumer.PopStore? then Queue(s)[1..] else Queue(s)
  {
  }

  /** Every step leaves the abstract queue alone, except that the producer's
      store of `tail_` appends its value and the consumer's store of `head_`
      removes the oldest value, which is the one it goes on to return. */
  lemma StepRefinesQueue(n: nat, moves: seq<Move>, m: Move)
    requires n > 0
    ensures var s := Exec(Init(n), moves);
            var s' := Step(s, m);
            && s.head <= s.tail <= |s.pushed| && s'.head <= s'.tail <= |s'.pushed|
            && Queue(s') == (if m == Producer && s.producer.PushStore? then Queue(s) + [s.producer.v]
                             else if m == Consumer && s.consumer.PopStore? then Queue(s)[1..]
                             else Queue(s))
            && (m == Consumer && s.consumer.PopStore? ==>
                  Queue(s) != [] && s'.consumer == PopReturn(Some(Queue(s)[0])))
  {
    ReachableInv(n, moves);
    var s := Exec(Init(n), moves);
    match m
    case Producer => ProducerRefines(s);
    case Consumer => ConsumerRefines(s);
    case _ =>
  }

  /** However stale the caches are, a push in progress next reports "full"
      exactly when it loads `head_` afresh and the ring holds `n` values, a pop
      "empty" exactly when it loads `tail_` afresh and the ring holds none, and a
      check that trusts its cache is right to go ahead. */
  lemma ReportsAreFresh(n: nat, moves: seq<Move>)
    requires n > 0
    ensures var s := Exec(Init(n), moves);
            && s.head <= s.tail <= |s.pushed|
            && (!ProducerFree(s.producer) ==>
                  (ProducerStep(s).producer == PushReturn(false) <==> s.producer.PushRefresh? && |Queue(s)| == n))
            && (s.producer.PushCheck? && ProducerStep(s).producer.PushWrite? ==> |Queue(s)| < n)
            && (!ConsumerFree(s.consumer) ==>
                  (ConsumerStep(s).consumer == PopReturn(None) <==> s.consumer.PopRefresh? && Queue(s) == []))
            && (s.consumer.PopCheck? && ConsumerStep(s).consumer.PopTake? ==> Queue(s) != [])
  {
    ReachableInv(n, moves);
  }

  // A whole call of one side, with the other side standing still.
  function PushAlone(s: State, v: int): State
    requires |s.buffer| > 0
  {
    ProducerStep(ProducerStep(ProducerStep(ProducerStep(Step(s, CallPush(v))))))
  }

  function PopAlone(s: State): State
    requires |s.buffer| > 0
  {
    ConsumerStep(ConsumerStep(ConsumerStep(ConsumerStep(Step(s, CallPop)))))
  }

  lemma PushAloneEnds(s: State, v: int)
    requires Inv(s) && (s.producer.ProducerIdle? || s.producer.PushReturn?)
    ensures var s', room := PushAlone(s, v), s.tail - s.head < |s.buffer|;
            && s'.producer == PushReturn(room)
            && s'.head == s.head
            && s'.tail == (if room then s.tail + 1 else s.tail)
            && s'.pushed == (if room then s.pushed + [v] else s.pushed)
  {
  }

  lemma PopAloneEnds(s: State)
    requires Inv(s) && (s.consumer.ConsumerIdle? || s.consumer.PopReturn?)
    ensures var s', some := PopAlone(s), s.head < s.tail;
            && s'.consumer == PopReturn(if some then Some(s.pushed[s.head]) else None)
            && s'.head == (if some then s.head + 1 else s.head)
            && s'.tail == s.tail && s'.pushed == s.pushed
  {
  }

  /** A push that runs without interference succeeds exactly when the ring is
      not full, and then appends its value. */
  lemma PushAloneIsBoundedFifo(n: nat, moves: seq<Move>, v: int)
    requires n > 0
    requires Exec(Init(n), moves).producer.ProducerIdle? || Exec(Init(n), moves).producer.PushReturn?
    ensures var s := Exec(Init(n), moves);
            var s' := PushAlone(s, v);
            && s.head <= s.tail <= |s.pushed| && s'.head <= s'.tail <= |s'.pushed|
            && s'.producer == PushReturn(|Queue(s)| < n)
            && Queue(s') == (if |Queue(s)| < n then Queue(s) + [v] else Queue(s))
  {
    ReachableInv(n, moves);
    PushAloneEnds(Exec(Init(n), moves), v);
  }

  /** A pop that runs without interference returns the oldest value, and
      nothing exactly when the ring is empty. */
  lemma PopAloneIsBoundedFifo(n: nat, moves: seq<Move>)
    requires n > 0
    requires Exec(Init(n), moves).consumer.ConsumerIdle? || Exec(Init(n), moves).consumer.PopReturn?
    ensures var s := Exec(Init(n), moves);
            var s' := PopAlone(s);
            && s.head <= s.tail <= |s.pushed| && s'.head <= s'.tail <= |s'.pushed|
            && s'.consumer == PopReturn(if Queue(s) == [] then None else Some(Queue(s)[0]))
            && Queue(s') == (if Queue(s) == [] then [] else Queue(s)[1..])
  {
    ReachableInv(n, moves);
    PopAloneEnds(Exec(Init(n), moves));
  }
}
