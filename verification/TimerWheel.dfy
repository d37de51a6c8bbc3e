/** What timers mean: a map from timer id to absolute deadline, in ticks. */
module Timers {
  import opened RingArith

  datatype Timer<C> = Timer(deadline: nat, callback: C)

  datatype Clock<C> = Clock(tickMs: nat, now: nat, nextId: nat, pending: map<nat, Timer<C>>)

  datatype Op<C> = Add(delay: nat, callback: C) | Cancel(id: nat) | Tick

  predicate Ok<C>(s: Clock<C>) {
    && s.tickMs > 0
    && forall id :: id in s.pending ==> id < s.nextId && s.now < s.pending[id].deadline
  }

  // At least one tick ahead.
  function TicksFor(delay: nat, tickMs: nat): nat
    requires tickMs > 0
  {
    if delay / tickMs == 0 then 1 else delay / tickMs
  }

  function Added<C>(s: Clock<C>, delay: nat, callback: C): Clock<C>
    requires s.tickMs > 0
  {
    s.(nextId := s.nextId + 1,
       pending := s.pending[s.nextId := Timer(s.now + TicksFor(delay, s.tickMs), callback)])
  }

  function Cancelled<C>(s: Clock<C>, id: nat): Clock<C> {
    s.(pending := s.pending - {id})
  }

  predicate IsDue<C>(s: Clock<C>, id: nat) {
    id in s.pending && s.pending[id].deadline == s.now + 1
  }

  // The timers below `bound` due on the next tick, in the order added.
  function DueBelow<C>(s: Clock<C>, bound: nat): seq<nat> {
    if bound == 0 then []
    else DueBelow(s, bound - 1) + if IsDue(s, bound - 1) then [bound - 1] else []
  }

  function Due<C>(s: Clock<C>): seq<nat> { DueBelow(s, s.nextId) }

  function Ticked<C>(s: Clock<C>): Clock<C> {
    s.(now := s.now + 1,
       pending := map id | id in s.pending && s.pending[id].deadline != s.now + 1 :: s.pending[id])
  }

  function Next<C>(s: Clock<C>, op: Op<C>): Clock<C>
    requires s.tickMs > 0
  {
    match op
    case Add(delay, callback) => Added(s, delay, callback)
    case Cancel(id) => Cancelled(s, id)
    case Tick => Ticked(s)
  }

  lemma NextOk<C>(s: Clock<C>, op: Op<C>)
    requires Ok(s)
    ensures Ok(Next(s, op))
  {
  }

  predicate Increasing(ids: seq<nat>) {
    forall i, j :: 0 <= i < j < |ids| ==> ids[i] < ids[j]
  }

  lemma {:induction false} DueBelowIs<C>(s: Clock<C>, bound: nat)
    ensures Increasing(DueBelow(s, bound))
    ensures forall id: nat :: id in DueBelow(s, bound) <==> id < bound && IsDue(s, id)
  {
    if bound > 0 {
      DueBelowIs(s, bound - 1);
      var before := DueBelow(s, bound - 1);
      assert forall i :: 0 <= i < |before| ==> before[i] in before;
    }
  }

  lemma {:induction false} IncreasingUnique(a: seq<nat>, b: seq<nat>)
    requires Increasing(a) && Increasing(b)
    requires forall x: nat :: x in a <==> x in b
    ensures a == b
    decreases |a|
  {
    hide Increasing;
    assert (a != [] ==> a[0] in a) && (b != [] ==> b[0] in b);
    if a != [] && b != [] {
      var m, n := |a| - 1, |b| - 1;
      assert a[m] in b && b[n] in a;
      Last(a, b[n]);
      Last(b, a[m]);
      forall x: nat ensures x in a[..m] <==> x in b[..n] {
        Last(a, x);
        Last(b, x);
      }
      IncreasingUnique(a[..m], b[..n]);
      assert a == a[..m] + [a[m]] && b == b[..n] + [b[n]];
    }
  }

  lemma Last(a: seq<nat>, x: nat)
    requires Increasing(a) && a != []
    ensures Increasing(a[..|a| - 1])
    ensures x in a ==> x <= a[|a| - 1]
    ensures x in a[..|a| - 1] <==> x in a && x < a[|a| - 1]
  {
  }

  // ----- Whole runs -----

  function Run<C>(s: Clock<C>, ops: seq<Op<C>>): Clock<C>
    requires s.tickMs > 0
    decreases |ops|
  {
    if ops == [] then s else Run(Next(s, ops[0]), ops[1..])
  }

  function Ticks<C>(ops: seq<Op<C>>): nat {
    if ops == [] then 0 else (if ops[0].Tick? then 1 else 0) + Ticks(ops[1..])
  }

  // The times at which timer `id` fires during a run.
  function FiringsOf<C>(s: Clock<C>, ops: seq<Op<C>>, id: nat): seq<nat>
    requires s.tickMs > 0
    decreases |ops|
  {
    if ops == [] then []
    else (if ops[0].Tick? && id in Due(s) then [s.now + 1] else []) + FiringsOf(Next(s, ops[0]), ops[1..], id)
  }

  // A cancellation of `id` comes before the d-th tick.
  predicate CancelledBefore<C>(ops: seq<Op<C>>, id: nat, d: nat)
    decreases |ops|
  {
    ops != [] && d > 0 &&
    (ops[0] == Op<C>.Cancel(id) || CancelledBefore(ops[1..], id, if ops[0].Tick? then d - 1 else d))
  }

  // A timer that is not pending and whose id was given out never fires again.
  lemma {:induction false} GoneForGood<C>(s: Clock<C>, ops: seq<Op<C>>, id: nat)
    requires Ok(s) && id < s.nextId && id !in s.pending
    ensures FiringsOf(s, ops, id) == [] && id !in Run(s, ops).pending
    decreases |ops|
  {
    if ops != [] {
      DueBelowIs(s, s.nextId);
      NextOk(s, ops[0]);
      GoneForGood(Next(s, ops[0]), ops[1..], id);
    }
  }

  // A pending timer is due on the tick of its deadline, and stays pending until
  // then or until it is cancelled.
  lemma PendingStep<C>(s: Clock<C>, op: Op<C>, id: nat)
    requires Ok(s) && id in s.pending
    ensures var s', d := Next(s, op), s.pending[id].deadline - s.now;
            && d > 0 && s'.now == s.now + (if op.Tick? then 1 else 0) && id < s'.nextId
            && s.tickMs == s'.tickMs > 0
            && (id in Due(s) <==> d == 1)
            && (id in s'.pending <==> op != Op<C>.Cancel(id) && !(op.Tick? && d == 1))
            && (id in s'.pending ==> s'.pending[id] == s.pending[id])
  {
    DueBelowIs(s, s.nextId);
  }

  /** Over every run, a pending timer fires exactly once, on the tick of its
      deadline, unless it is cancelled before that tick; and it stays pending
      exactly until then. */
  lemma {:induction false} FiresOnceAtDeadline<C>(s: Clock<C>, ops: seq<Op<C>>, id: nat)
    requires Ok(s) && id in s.pending
    ensures var d := s.pending[id].deadline - s.now;
            && FiringsOf(s, ops, id) ==
               (if !CancelledBefore(ops, id, d) && Ticks(ops) >= d then [s.now + d] else [])
            && (id in Run(s, ops).pending <==> !CancelledBefore(ops, id, d) && Ticks(ops) < d)
    decreases |ops|
  {
    hide Due, Next;
    if ops != [] {
      hide Ok;
      PendingStep(s, ops[0], id);
      NextOk(s, ops[0]);
      var s' := Next(s, ops[0]);
      if id in s'.pending {
        FiresOnceAtDeadline(s', ops[1..], id);
      } else {
        GoneForGood(s', ops[1..], id);
      }
    }
  }

  // n whole ticks make up the delay, or n is the one tick that is the least.
  predicate RoundsTo(delay: nat, tickMs: nat, n: nat) {
    n >= 1 && (n == 1 || n * tickMs <= delay) && delay < (n + 1) * tickMs
  }

  lemma RoundsToIff(delay: nat, tickMs: nat, n: nat)
    requires tickMs > 0
    ensures RoundsTo(delay, tickMs, n) <==> n == TicksFor(delay, tickMs)
  {
    var q, r := delay / tickMs, delay % tickMs;
    assert delay == q * tickMs + r;
    assert (q + 1) * tickMs == q * tickMs + tickMs;
    if RoundsTo(delay, tickMs, n) {
      assert (n + 1) * tickMs == n * tickMs + tickMs;
      if n > 1 || n * tickMs <= delay {
        DivModUnique(delay, tickMs, n, delay - n * tickMs);
      } else {
        DivModUnique(delay, tickMs, 0, delay);
      }
    }
    if q == 0 { assert 2 * tickMs == tickMs + tickMs; }
  }

  /** A timer added with a delay fires exactly once, on the n-th tick after it
      was added, where n whole ticks make up the delay but at least one, unless
      cancelled before that tick. */
  lemma AddedTimerFires<C>(s: Clock<C>, delay: nat, callback: C, ops: seq<Op<C>>, n: nat)
    requires Ok(s) && RoundsTo(delay, s.tickMs, n)
    ensures FiringsOf(Added(s, delay, callback), ops, s.nextId) ==
            if !CancelledBefore(ops, s.nextId, n) && Ticks(ops) >= n then [s.now + n] else []
  {
    hide TicksFor, RoundsTo;
    RoundsToIff(delay, s.tickMs, n);
    NextOk(s, Add(delay, callback));
    FiresOnceAtDeadline(Added(s, delay, callback), ops, s.nextId);
  }
}

/** A hashed wheel: slot j holds the timers whose tick is congruent to j, each
    with the number of whole revolutions still to pass. */
module TimerWheels {
  import opened Options
  import opened Timers
  import RingArith

  datatype Entry<C> = Entry(id: nat, revolutions: nat, callback: C)

  // ----- Arithmetic of the wheel -----

  // Ticks from the current slot to slot j.
  function Distance(j: nat, current: nat, n: nat): nat
    requires j < n && current < n
  {
    if j >= current then j - current else j + n - current
  }

  function Laps(revolutions: nat, n: nat): nat {
    if revolutions == 0 then 0 else n + Laps(revolutions - 1, n)
  }

  lemma {:induction false} LapsIsProduct(revolutions: nat, n: nat)
    ensures Laps(revolutions, n) == revolutions * n
  {
    if revolutions > 0 { LapsIsProduct(revolutions - 1, n); }
  }

  // The slot and revolutions chosen for a timer `ticks` ahead.
  lemma SlotForTicks(current: nat, ticks: nat, n: nat)
    requires current < n && ticks > 0
    ensures Distance((current + ticks - 1) % n, current, n) + Laps((ticks - 1) / n, n) + 1 == ticks
  {
    var t := ticks - 1;
    var q, r := t / n, t % n;
    LapsIsProduct(q, n);
    assert t == q * n + r;
    var slot := if current + r < n then current + r else current + r - n;
    var laps := if current + r < n then q else q + 1;
    assert current + t == laps * n + slot;
    RingArith.DivModUnique(current + t, n, laps, slot);
  }

  // ----- Buckets -----

  ghost predicate Ordered<C>(b: seq<Entry<C>>) {
    forall i, j :: 0 <= i < j < |b| ==> b[i].id < b[j].id
  }

  function DueIn<C>(b: seq<Entry<C>>): seq<Entry<C>> {
    if b == [] then []
    else
      var n := |b| - 1;
      DueIn(b[..n]) + if b[n].revolutions == 0 then [b[n]] else []
  }

  function KeptIn<C>(b: seq<Entry<C>>): seq<Entry<C>> {
    if b == [] then []
    else
      var n := |b| - 1;
      KeptIn(b[..n]) + if b[n].revolutions == 0 then [] else [b[n].(revolutions := b[n].revolutions - 1)]
  }

  function Older<C>(e: Entry<C>): Entry<C> { e.(revolutions := e.revolutions + 1) }

  lemma OrderedSnoc<C>(b: seq<Entry<C>>, x: Entry<C>)
    requires Ordered(b) && forall e :: e in b ==> e.id < x.id
    ensures Ordered(b + [x])
  {
  }

  lemma {:induction false} DueInIs<C>(b: seq<Entry<C>>)
    requires Ordered(b)
    ensures Ordered(DueIn(b))
    ensures forall e :: e in DueIn(b) ==> e in b && e.revolutions == 0
    ensures forall e :: e in b && e.revolutions == 0 ==> e in DueIn(b)
  {
    if b != [] {
      var n, init := |b| - 1, b[..|b| - 1];
      DueInIs(init);
      assert b == init + [b[n]];
      if b[n].revolutions == 0 {
        forall e | e in DueIn(init) ensures e.id < b[n].id { assert e in init; }
        OrderedSnoc(DueIn(init), b[n]);
      }
    }
  }

  lemma {:induction false} KeptInIs<C>(b: seq<Entry<C>>)
    requires Ordered(b)
    ensures Ordered(KeptIn(b))
    ensures forall e :: e in KeptIn(b) <==> Older(e) in b
  {
    if b != [] {
      var n := |b| - 1;
      KeptInIs(b[..n]);
      assert b == b[..n] + [b[n]];
      if b[n].revolutions > 0 {
        var last := b[n].(revolutions := b[n].revolutions - 1);
        forall e | e in KeptIn(b[..n]) ensures e.id < last.id { assert Older(e) in b[..n]; }
        OrderedSnoc(KeptIn(b[..n]), last);
        forall e ensures e in KeptIn(b) <==> Older(e) in b { assert Older(e) == b[n] <==> e == last; }
      }
    }
  }

  // ----- The wheel represents the clock -----

  // The entry of a timer, in slot j.
  ghost predicate EntryOk<C>(e: Entry<C>, j: nat, current: nat, n: nat, idToSlot: map<nat, nat>, s: Clock<C>)
    requires j < n && current < n
  {
    && e.id in s.pending && e.id in idToSlot && idToSlot[e.id] == j
    && s.pending[e.id] == Timer(s.now + 1 + Distance(j, current, n) + Laps(e.revolutions, n), e.callback)
  }

  ghost predicate SlotOk<C>(b: seq<Entry<C>>, j: nat, current: nat, n: nat, idToSlot: map<nat, nat>, s: Clock<C>)
    requires j < n && current < n
  {
    Ordered(b) && forall e :: e in b ==> EntryOk(e, j, current, n, idToSlot, s)
  }

  ghost predicate Placed<C>(id: nat, slots: seq<seq<Entry<C>>>, idToSlot: map<nat, nat>) {
    && id in idToSlot && idToSlot[id] < |slots|
    && exists e :: e in slots[idToSlot[id]] && e.id == id
  }

  ghost predicate Represents<C>(slots: seq<seq<Entry<C>>>, current: nat, idToSlot: map<nat, nat>, s: Clock<C>) {
    && Ok(s) && current < |slots|
    && (forall j :: 0 <= j < |slots| ==> SlotOk(slots[j], j, current, |slots|, idToSlot, s))
    && (forall id :: id in s.pending ==> Placed(id, slots, idToSlot))
    && idToSlot.Keys == s.pending.Keys
  }

  // Clocks that agree on the timers of a bucket.
  ghost predicate Agree<C>(b: seq<Entry<C>>, idToSlot: map<nat, nat>, s: Clock<C>,
                           idToSlot': map<nat, nat>, s': Clock<C>) {
    && s'.now == s.now
    && forall e :: e in b && e.id in s.pending && e.id in idToSlot ==>
         && e.id in s'.pending && s'.pending[e.id] == s.pending[e.id]
         && e.id in idToSlot' && idToSlot'[e.id] == idToSlot[e.id]
  }

  lemma SlotKept<C>(b: seq<Entry<C>>, b': seq<Entry<C>>, j: nat, current: nat, n: nat,
                    idToSlot: map<nat, nat>, s: Clock<C>, idToSlot': map<nat, nat>, s': Clock<C>)
    requires j < n && current < n && SlotOk(b, j, current, n, idToSlot, s)
    requires Ordered(b') && (forall e :: e in b' ==> e in b) && Agree(b', idToSlot, s, idToSlot', s')
    ensures SlotOk(b', j, current, n, idToSlot', s')
  {
  }

  lemma SlotGrows<C>(b: seq<Entry<C>>, x: Entry<C>, j: nat, current: nat, n: nat, idToSlot: map<nat, nat>, s: Clock<C>)
    requires j < n && current < n && SlotOk(b, j, current, n, idToSlot, s) && EntryOk(x, j, current, n, idToSlot, s)
    requires forall e :: e in b ==> e.id < x.id
    ensures SlotOk(b + [x], j, current, n, idToSlot, s)
  {
  }

  lemma AddRepresents<C>(slots: seq<seq<Entry<C>>>, current: nat, idToSlot: map<nat, nat>, s: Clock<C>,
                         delay: nat, callback: C)
    requires Represents(slots, current, idToSlot, s)
    ensures var ticks := TicksFor(delay, s.tickMs);
            var j := (current + ticks - 1) % |slots|;
            var e := Entry(s.nextId, (ticks - 1) / |slots|, callback);
            Represents(slots[j := slots[j] + [e]], current, idToSlot[s.nextId := j], Added(s, delay, callback))
  {
    hide Ordered, Distance, Laps, SlotOk;
    var n, ticks := |slots|, TicksFor(delay, s.tickMs);
    var j := (current + ticks - 1) % n;
    var e := Entry(s.nextId, (ticks - 1) / n, callback);
    SlotForTicks(current, ticks, n);
    var slots', idToSlot', s' := slots[j := slots[j] + [e]], idToSlot[s.nextId := j], Added(s, delay, callback);
    NextOk(s, Add(delay, callback));
    forall k | 0 <= k < n ensures SlotOk(slots'[k], k, current, n, idToSlot', s') {
      SlotBelow(slots[k], k, current, n, idToSlot, s);
      SlotKept(slots[k], slots[k], k, current, n, idToSlot, s, idToSlot', s');
      if k == j { SlotGrows(slots[j], e, j, current, n, idToSlot', s'); }
    }
    forall id | id in s'.pending ensures Placed(id, slots', idToSlot') {
      if id == s.nextId {
        assert e in slots'[j];
      } else {
        assert Placed(id, slots, idToSlot);
        var f :| f in slots[idToSlot[id]] && f.id == id;
        assert f in slots'[idToSlot'[id]];
      }
    }
  }

  // The timers of a slot are pending, so their ids were given out.
  lemma SlotBelow<C>(b: seq<Entry<C>>, j: nat, current: nat, n: nat, idToSlot: map<nat, nat>, s: Clock<C>)
    requires j < n && current < n && SlotOk(b, j, current, n, idToSlot, s) && Ok(s)
    ensures Ordered(b) && forall e :: e in b ==> e.id < s.nextId && e.id in idToSlot && idToSlot[e.id] == j
  {
  }

  lemma Without<C>(b: seq<Entry<C>>, k: nat)
    requires Ordered(b) && k < |b|
    ensures var b' := b[..k] + b[k + 1..];
            Ordered(b') && forall e :: e in b' <==> e in b && e.id != b[k].id
  {
  }

  lemma CancelRepresents<C>(slots: seq<seq<Entry<C>>>, current: nat, idToSlot: map<nat, nat>, s: Clock<C>,
                            id: nat, k: nat)
    requires Represents(slots, current, idToSlot, s)
    requires id in idToSlot && idToSlot[id] < |slots|
    requires k < |slots[idToSlot[id]]| && slots[idToSlot[id]][k].id == id
    ensures var b := slots[idToSlot[id]];
            Represents(slots[idToSlot[id] := b[..k] + b[k + 1..]], current, idToSlot - {id}, Cancelled(s, id))
  {
    hide Ordered, Distance, Laps, SlotOk;
    var j := idToSlot[id];
    var b := slots[j];
    var b', s' := b[..k] + b[k + 1..], Cancelled(s, id);
    var slots', idToSlot' := slots[j := b'], idToSlot - {id};
    SlotBelow(b, j, current, |slots|, idToSlot, s);
    Without(b, k);
    NextOk(s, Op<C>.Cancel(id));
    forall l | 0 <= l < |slots| ensures SlotOk(slots'[l], l, current, |slots|, idToSlot', s') {
      SlotBelow(slots[l], l, current, |slots|, idToSlot, s);
      SlotKept(slots[l], slots'[l], l, current, |slots|, idToSlot, s, idToSlot', s');
    }
    forall other | other in s'.pending ensures Placed(other, slots', idToSlot') {
      assert Placed(other, slots, idToSlot);
      var f :| f in slots[idToSlot[other]] && f.id == other;
      assert f in slots'[idToSlot'[other]];
    }
  }

  // Exactly the entries of the current slot without revolutions left are due.
  lemma DueIsInSlot<C>(slots: seq<seq<Entry<C>>>, current: nat, idToSlot: map<nat, nat>, s: Clock<C>, id: nat)
    requires Represents(slots, current, idToSlot, s)
    ensures IsDue(s, id) <==> exists e :: e in slots[current] && e.revolutions == 0 && e.id == id
  {
  }

  function IdsOf<C>(b: seq<Entry<C>>): seq<nat> {
    seq(|b|, i requires 0 <= i < |b| => b[i].id)
  }

  /** The due entries of the current slot are the due timers, in the order added. */
  lemma DueInSlot<C>(slots: seq<seq<Entry<C>>>, current: nat, idToSlot: map<nat, nat>, s: Clock<C>)
    requires Represents(slots, current, idToSlot, s)
    ensures IdsOf(DueIn(slots[current])) == Due(s)
    ensures forall e :: e in DueIn(slots[current]) ==>
              IsDue(s, e.id) && e.id in s.pending && e.callback == s.pending[e.id].callback
  {
    var b := slots[current];
    var due := DueIn(b);
    assert SlotOk(b, current, current, |slots|, idToSlot, s);
    DueInIs(b);
    DueBelowIs(s, s.nextId);
    forall e | e in due ensures IsDue(s, e.id) && e.callback == s.pending[e.id].callback {
      assert EntryOk(e, current, current, |slots|, idToSlot, s);
    }
    forall id: nat ensures id in IdsOf(due) <==> id in Due(s) {
      DueIsInSlot(slots, current, idToSlot, s, id);
      if id in Due(s) {
        var e :| e in b && e.revolutions == 0 && e.id == id;
        assert e in due;
        var i :| 0 <= i < |due| && due[i] == e;
        assert IdsOf(due)[i] == id;
      }
      if id in IdsOf(due) {
        var i :| 0 <= i < |due| && IdsOf(due)[i] == id;
        assert due[i] in due;
      }
    }
    IncreasingUnique(IdsOf(due), Due(s));
  }

  lemma SlotTicked<C>(b: seq<Entry<C>>, j: nat, current: nat, n: nat, idToSlot: map<nat, nat>, s: Clock<C>,
                      idToSlot': map<nat, nat>)
    requires j < n && current < n && SlotOk(b, j, current, n, idToSlot, s)
    requires idToSlot' == map id | id in idToSlot && !IsDue(s, id) :: idToSlot[id]
    ensures SlotOk(if j == current then KeptIn(b) else b, j, if current + 1 < n then current + 1 else 0, n,
                   idToSlot', Ticked(s))
  {
    var current' := if current + 1 < n then current + 1 else 0;
    if j == current {
      KeptInIs(b);
      forall e | e in KeptIn(b) ensures EntryOk(e, j, current', n, idToSlot', Ticked(s)) {
        assert EntryOk(Older(e), j, current, n, idToSlot, s);
      }
    } else {
      forall e | e in b ensures EntryOk(e, j, current', n, idToSlot', Ticked(s)) {
        assert EntryOk(e, j, current, n, idToSlot, s);
      }
    }
  }

  lemma TickRepresents<C>(slots: seq<seq<Entry<C>>>, current: nat, idToSlot: map<nat, nat>, s: Clock<C>)
    requires Represents(slots, current, idToSlot, s)
    ensures Represents(slots[current := KeptIn(slots[current])], (current + 1) % |slots|,
                       map id | id in idToSlot && !IsDue(s, id) :: idToSlot[id], Ticked(s))
  {
    hide SlotOk, KeptIn;
    var n, b := |slots|, slots[current];
    var slots', idToSlot' := slots[current := KeptIn(b)], map id | id in idToSlot && !IsDue(s, id) :: idToSlot[id];
    var current' := if current + 1 < n then current + 1 else 0;
    RingArith.DivModUnique(current + 1, n, if current + 1 < n then 0 else 1, current');
    NextOk(s, Op<C>.Tick);
    forall j | 0 <= j < n ensures SlotOk(slots'[j], j, current', n, idToSlot', Ticked(s)) {
      SlotTicked(slots[j], j, current, n, idToSlot, s, idToSlot');
    }
    SlotBelow(b, current, current, n, idToSlot, s);
    KeptInIs(b);
    forall id | id in Ticked(s).pending ensures Placed(id, slots', idToSlot') {
      assert Placed(id, slots, idToSlot);
      var f :| f in slots[idToSlot[id]] && f.id == id;
      if idToSlot[id] == current {
        DueIsInSlot(slots, current, idToSlot, s, id);
        var e := f.(revolutions := f.revolutions - 1);
        assert Older(e) == f && e in slots'[current];
      }
    }
  }

  class TimerWheel<C(==)> {
    const tickMs: nat
    var slots: seq<seq<Entry<C>>>
    var currentSlot: nat
    var nextId: nat
    var idToSlot: map<nat, nat>
    ghost var clock: Clock<C>

    ghost predicate Valid()
      reads this
    {
      Represents(slots, currentSlot, idToSlot, clock) && clock.nextId == nextId && clock.tickMs == tickMs
    }

    constructor (numSlots: nat, tickMs: nat)
      requires numSlots > 0 && tickMs > 0
      ensures Valid() && clock == Clock(tickMs, 0, 1, map[])
    {
      this.tickMs := tickMs;
      slots := seq(numSlots, _ => []);
      currentSlot, nextId, idToSlot := 0, 1, map[];
      clock := Clock(tickMs, 0, 1, map[]);
    }

    method AddTimer(delay: nat, callback: C) returns (id: nat)
      requires Valid()
      modifies this
      ensures Valid() && clock == Added(old(clock), delay, callback) && id == old(clock.nextId)
    {
      hide Represents;
      WheelRuns();
      var ticks := delay / tickMs;
      if ticks == 0 { ticks := 1; }
      var slot := (currentSlot + ticks - 1) % |slots|;
      var revolutions := (ticks - 1) / |slots|;
      AddRepresents(slots, currentSlot, idToSlot, clock, delay, callback);
      id := nextId;
      nextId := nextId + 1;
      slots := slots[slot := slots[slot] + [Entry(id, revolutions, callback)]];
      idToSlot := idToSlot[id := slot];
      clock := Added(clock, delay, callback);
    }

    /** Cancels exactly a timer that is still pending. */
    method Cancel(id: nat) returns (found: bool)
      requires Valid()
      modifies this
      ensures Valid() && clock == Cancelled(old(clock), id)
      ensures found <==> id in old(clock.pending)
    {
      if id !in idToSlot {
        assert clock.pending - {id} == clock.pending;
        return false;
      }
      assert Placed(id, slots, idToSlot);
      var slot := idToSlot[id];
      var bucket := slots[slot];
      var k := 0;
      while k < |bucket| && bucket[k].id != id
        invariant k <= |bucket| && forall i :: 0 <= i < k ==> bucket[i].id != id
      {
        k := k + 1;
      }
      if k == |bucket| { return false; }
      CancelRepresents(slots, currentSlot, idToSlot, clock, id, k);
      slots := slots[slot := bucket[..k] + bucket[k + 1..]];
      idToSlot := idToSlot - {id};
      clock := Cancelled(clock, id);
      return true;
    }

    /** One tick fires the callbacks of exactly the timers whose deadline it is,
        in the order they were added. */
    method Tick() returns (due: seq<C>)
      requires Valid()
      modifies this
      ensures Valid() && clock == Ticked(old(clock))
      ensures |due| == |Due(old(clock))|
      ensures forall i :: 0 <= i < |due| ==>
                Due(old(clock))[i] in old(clock).pending && due[i] == old(clock).pending[Due(old(clock))[i]].callback
    {
      hide Represents, Due, IsDue;
      WheelRuns();
      var bucket := slots[currentSlot];
      var remaining := [];
      due := [];
      var ids := idToSlot;
      for k := 0 to |bucket|
        invariant due == CallbacksOf(DueIn(bucket[..k])) && remaining == KeptIn(bucket[..k])
        invariant ids == WithoutIds(idToSlot, DueIn(bucket[..k]))
      {
        assert bucket[..k + 1][..k] == bucket[..k];
        var e := bucket[k];
        if e.revolutions == 0 {
          due := due + [e.callback];
          ids := ids - {e.id};
        } else {
          remaining := remaining + [e.(revolutions := e.revolutions - 1)];
        }
      }
      assert bucket[..|bucket|] == bucket;
      TickErases();
      TickRepresents(slots, currentSlot, idToSlot, clock);
      DueInSlot(slots, currentSlot, idToSlot, clock);
      forall i | 0 <= i < |due|
        ensures Due(clock)[i] in clock.pending && due[i] == clock.pending[Due(clock)[i]].callback
      {
        assert DueIn(bucket)[i] in DueIn(bucket) && IdsOf(DueIn(bucket))[i] == Due(clock)[i];
      }
      idToSlot := ids;
      slots := slots[currentSlot := remaining];
      currentSlot := (currentSlot + 1) % |slots|;
      clock := Ticked(clock);
    }

    lemma WheelRuns()
      requires Valid()
      ensures currentSlot < |slots| && clock.tickMs > 0
    {
    }

    lemma TickErases()
      requires Valid()
      ensures currentSlot < |slots|
      ensures WithoutIds(idToSlot, DueIn(slots[currentSlot])) ==
              map id | id in idToSlot && !IsDue(clock, id) :: idToSlot[id]
    {
      var due := DueIn(slots[currentSlot]);
      DueInSlot(slots, currentSlot, idToSlot, clock);
      DueBelowIs(clock, nextId);
      forall id: nat ensures (exists e :: e in due && e.id == id) <==> IsDue(clock, id) {
        if IsDue(clock, id) {
          assert id in IdsOf(due);
          var i :| 0 <= i < |due| && IdsOf(due)[i] == id;
          assert due[i] in due;
        }
      }
    }
  }

  ghost function WithoutIds<C>(ids: map<nat, nat>, b: seq<Entry<C>>): map<nat, nat> {
    map id | id in ids && !(exists e :: e in b && e.id == id) :: ids[id]
  }

  function CallbacksOf<C>(b: seq<Entry<C>>): seq<C> {
    seq(|b|, i requires 0 <= i < |b| => b[i].callback)
  }
}
