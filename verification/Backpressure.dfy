/** Publishers that check the lag of the slowest group and then append, in
    every interleaving. */
module Backpressure {
  import opened Options
  import opened OffsetStores
  import RingArith

  // A publisher between two calls, one that has read the least committed
  // offset (none if no group is registered), and one that passed the check with
  // a batch of `count` records.
  datatype Pc = Idle | Checking(least: Option<nat>) | Admitted(count: nat)

  datatype State = State(hwm: nat, committed: seq<U64>, publishers: seq<Pc>)

  datatype Action =
    | ReadLeast(i: nat)
    | Compare(i: nat, count: nat)
    | Append(i: nat, stored: nat)
    | Commit(group: nat, offset: U64)

  // The limits of a partition: the lag at which it refuses, and the largest batch.
  datatype Limits = Limits(maxLag: nat, maxBatch: nat)

  function Values(committed: seq<U64>): set<U64> { set c | c in committed }

  // What the offset store answers for the registered groups.
  ghost function LeastCommitted(committed: seq<U64>): Option<U64> { Least(Values(committed)) }

  ghost function Slowest(committed: seq<U64>): (r: U64)
    requires committed != []
    ensures r in committed && forall i :: 0 <= i < |committed| ==> r <= committed[i]
    ensures LeastCommitted(committed) == Some(r)
  {
    assert forall i :: 0 <= i < |committed| ==> committed[i] in Values(committed);
    assert committed[0] in Values(committed);
    LeastCommitted(committed).value
  }

  // No limit is configured by 0, or before any group is registered.
  predicate OverLimit(maxLag: nat, least: Option<nat>, hwm: nat) {
    maxLag != 0 && least.Some? && Lag(hwm, least.value) >= maxLag
  }

  function Lag(hwm: nat, least: nat): nat { if hwm > least then hwm - least else 0 }

  /** The check refuses exactly when a limit is set and some group has the
      limit or more still to read; so never without a limit, and never without
      a group. */
  lemma OverLimitIff(maxLag: nat, values: set<U64>, hwm: nat)
    ensures OverLimit(maxLag, Least(values), hwm) <==> maxLag > 0 && exists v :: v in values && v + maxLag <= hwm
  {
    if v :| v in values && v + maxLag <= hwm { assert Least(values).Some?; }
  }

  // One atomic step.  Steps a publisher is not ready for, batches over the
  // limit and commits that go backwards do nothing.  An append that fails
  // midway has stored only part of its batch.
  ghost function Step(l: Limits, s: State, a: Action): (r: State)
    ensures |r.committed| == |s.committed| && |r.publishers| == |s.publishers|
  {
    match a
    case ReadLeast(i) =>
      if i < |s.publishers| && s.publishers[i].Idle?
      then s.(publishers := s.publishers[i := Checking(LeastCommitted(s.committed))]) else s
    case Compare(i, count) =>
      if i < |s.publishers| && s.publishers[i].Checking? && count <= l.maxBatch then
        if OverLimit(l.maxLag, s.publishers[i].least, s.hwm)
        then s.(publishers := s.publishers[i := Idle])
        else s.(publishers := s.publishers[i := Admitted(count)])
      else s
    case Append(i, stored) =>
      if i < |s.publishers| && s.publishers[i].Admitted? && stored <= s.publishers[i].count
      then s.(hwm := s.hwm + stored, publishers := s.publishers[i := Idle]) else s
    case Commit(g, offset) =>
      if g < |s.committed| && s.committed[g] <= offset
      then s.(committed := s.committed[g := offset]) else s
  }

  ghost function Run(l: Limits, s: State, actions: seq<Action>): (r: State)
    ensures |r.committed| == |s.committed|
    decreases |actions|
  {
    if actions == [] then s else Run(l, Step(l, s, actions[0]), actions[1..])
  }

  // Records admitted but not yet appended, and how many publishers hold them.
  function Reserved(ps: seq<Pc>): nat {
    if ps == [] then 0 else (if ps[0].Admitted? then ps[0].count else 0) + Reserved(ps[1..])
  }

  function Holders(ps: seq<Pc>): nat {
    if ps == [] then 0 else (if ps[0].Admitted? then 1 else 0) + Holders(ps[1..])
  }

  // At most m publishers are between check and append, throughout a run.
  ghost predicate AtMost(l: Limits, s: State, actions: seq<Action>, m: nat)
    decreases |actions|
  {
    Holders(s.publishers) <= m && (actions != [] ==> AtMost(l, Step(l, s, actions[0]), actions[1..], m))
  }

  ghost predicate Inv(l: Limits, s: State, m: nat)
    requires s.committed != []
  {
    && s.hwm + Reserved(s.publishers) <= l.maxLag - 1 + Slowest(s.committed) + m * l.maxBatch
    && forall i :: 0 <= i < |s.publishers| ==>
         && (s.publishers[i].Checking? ==>
               s.publishers[i].least.Some? && s.publishers[i].least.value <= Slowest(s.committed))
         && (s.publishers[i].Admitted? ==> s.publishers[i].count <= l.maxBatch)
  }

  lemma {:induction false} ReservedUpdate(ps: seq<Pc>, i: nat, p: Pc)
    requires i < |ps|
    ensures Reserved(ps[i := p]) == Reserved(ps) - (if ps[i].Admitted? then ps[i].count else 0)
                                  + (if p.Admitted? then p.count else 0)
    decreases |ps|
  {
    if i > 0 {
      ReservedUpdate(ps[1..], i - 1, p);
      assert ps[i := p][1..] == ps[1..][i - 1 := p];
    }
  }

  lemma {:induction false} ReservedBound(ps: seq<Pc>, n: nat)
    requires forall i :: 0 <= i < |ps| && ps[i].Admitted? ==> ps[i].count <= n
    ensures Reserved(ps) <= Holders(ps) * n
  {
    if ps != [] {
      ReservedBound(ps[1..], n);
      assert Holders(ps) * n == (if ps[0].Admitted? then n else 0) + Holders(ps[1..]) * n;
    }
  }

  lemma StepInv(l: Limits, s: State, a: Action, m: nat)
    requires s.committed != [] && l.maxLag > 0 && Inv(l, s, m)
    requires Holders(Step(l, s, a).publishers) <= m
    ensures Inv(l, Step(l, s, a), m)
  {
    match a
    case Commit(g, offset) =>
    case ReadLeast(i) =>
      if i < |s.publishers| { ReservedUpdate(s.publishers, i, Checking(LeastCommitted(s.committed))); }
    case Append(i, stored) => if i < |s.publishers| { ReservedUpdate(s.publishers, i, Idle); }
    case Compare(i, count) => CompareInv(l, s, i, count, m);
  }

  lemma CompareInv(l: Limits, s: State, i: nat, count: nat, m: nat)
    requires s.committed != [] && l.maxLag > 0 && Inv(l, s, m)
    requires Holders(Step(l, s, Compare(i, count)).publishers) <= m
    ensures Inv(l, Step(l, s, Compare(i, count)), m)
  {
    var s' := Step(l, s, Compare(i, count));
    if s' != s {
      ReservedUpdate(s.publishers, i, s'.publishers[i]);
      ReservedBound(s'.publishers, l.maxBatch);
      RingArith.MulMonotone(Holders(s'.publishers), m, l.maxBatch);
    }
  }

  /** The concurrent backpressure bound: in every run with at most m publishers
      between check and append, lag never exceeds maxLag + m * maxBatch - 1. */
  lemma {:induction false} LagIsBounded(l: Limits, s: State, actions: seq<Action>, m: nat)
    requires s.committed != [] && l.maxLag > 0 && AtMost(l, s, actions, m) && Inv(l, s, m)
    ensures var r := Run(l, s, actions);
            Lag(r.hwm, Slowest(r.committed)) <= l.maxLag + m * l.maxBatch - 1
    decreases |actions|
  {
    if actions != [] {
      StepInv(l, s, actions[0], m);
      LagIsBounded(l, Step(l, s, actions[0]), actions[1..], m);
    }
  }

  /** A start with every publisher idle is covered exactly when its lag is
      within the bound. */
  lemma StartWithinBound(l: Limits, hwm: nat, committed: seq<U64>, publishers: nat, m: nat)
    requires committed != [] && l.maxLag > 0
    ensures Inv(l, State(hwm, committed, seq(publishers, _ => Idle)), m) <==>
            Lag(hwm, Slowest(committed)) <= l.maxLag + m * l.maxBatch - 1
  {
    NoneReserved(publishers);
  }

  lemma {:induction false} NoneReserved(n: nat)
    ensures Reserved(seq(n, _ => Idle)) == 0 && Holders(seq(n, _ => Idle)) == 0
  {
    if n > 0 {
      NoneReserved(n - 1);
      assert seq(n, _ => Idle)[1..] == seq(n - 1, _ => Idle);
    }
  }

  // With m publishers in all there are never more than m past the check.
  lemma {:induction false} AtMostAll(l: Limits, s: State, actions: seq<Action>)
    ensures AtMost(l, s, actions, |s.publishers|)
    decreases |actions|
  {
    HoldersBound(s.publishers);
    if actions != [] { AtMostAll(l, Step(l, s, actions[0]), actions[1..]); }
  }

  lemma {:induction false} HoldersBound(ps: seq<Pc>)
    ensures Holders(ps) <= |ps|
  {
    if ps != [] { HoldersBound(ps[1..]); }
  }

  // ----- Partitions without a limit, or without groups, never refuse -----

  // A publisher that compares now is admitted.
  ghost predicate NeverRefuses(l: Limits, s: State) {
    forall i, count: nat :: 0 <= i < |s.publishers| && s.publishers[i].Checking? && count <= l.maxBatch ==>
      Step(l, s, Compare(i, count)).publishers[i] == Admitted(count)
  }

  /** In every run that starts with idle publishers, no publish is refused if no
      limit is set or no group is registered. */
  lemma {:induction false} NotRefusedUnlimited(l: Limits, s: State, actions: seq<Action>)
    requires l.maxLag == 0 || s.committed == []
    requires forall i :: 0 <= i < |s.publishers| && s.publishers[i].Checking? ==>
               l.maxLag == 0 || s.publishers[i].least == None
    ensures NeverRefuses(l, Run(l, s, actions))
    decreases |actions|
  {
    if actions != [] { NotRefusedUnlimited(l, Step(l, s, actions[0]), actions[1..]); }
  }

  // ----- The bound is attained -----

  // m publishers check one after the other, then append one after the other.
  function CheckAll(from: nat, m: nat, n: nat): seq<Action>
    decreases m - from
  {
    if from >= m then [] else [ReadLeast(from), Compare(from, n)] + CheckAll(from + 1, m, n)
  }

  function AppendAll(from: nat, m: nat, n: nat): seq<Action>
    decreases m - from
  {
    if from >= m then [] else [Append(from, n)] + AppendAll(from + 1, m, n)
  }

  // The first `done` publishers are at p, the others at q.
  function Split(done: nat, m: nat, p: Pc, q: Pc): (r: seq<Pc>)
    ensures |r| == m
  {
    seq(m, i => if i < done then p else q)
  }

  lemma {:induction false} RunConcat(l: Limits, s: State, a: seq<Action>, b: seq<Action>)
    ensures Run(l, s, a + b) == Run(l, Run(l, s, a), b)
    decreases |a|
  {
    if a == [] {
      assert a + b == b;
    } else {
      assert (a + b)[1..] == a[1..] + b;
      RunConcat(l, Step(l, s, a[0]), a[1..], b);
    }
  }

  lemma {:induction false} AllChecked(l: Limits, from: nat, m: nat)
    requires l.maxLag > 0 && from <= m
    ensures var start := State(l.maxLag - 1, [0], Split(from, m, Admitted(l.maxBatch), Idle));
            Run(l, start, CheckAll(from, m, l.maxBatch)) ==
            State(l.maxLag - 1, [0], Split(m, m, Admitted(l.maxBatch), Idle))
    decreases m - from
  {
    if from < m {
      var s := State(l.maxLag - 1, [0], Split(from, m, Admitted(l.maxBatch), Idle));
      var s1 := Step(l, s, ReadLeast(from));
      var s2 := Step(l, s1, Compare(from, l.maxBatch));
      assert s2.publishers == Split(from + 1, m, Admitted(l.maxBatch), Idle);
      var pair := [ReadLeast(from), Compare(from, l.maxBatch)];
      assert Run(l, s, pair) == Run(l, s1, pair[1..]) == Run(l, s2, []);
      RunConcat(l, s, pair, CheckAll(from + 1, m, l.maxBatch));
      AllChecked(l, from + 1, m);
    }
  }

  lemma {:induction false} AllAppended(l: Limits, hwm: nat, from: nat, m: nat)
    requires from <= m
    ensures Run(l, State(hwm, [0], Split(from, m, Idle, Admitted(l.maxBatch))), AppendAll(from, m, l.maxBatch)) ==
            State(hwm + (m - from) * l.maxBatch, [0], Split(m, m, Idle, Admitted(l.maxBatch)))
    decreases m - from
  {
    if from < m {
      var s := State(hwm, [0], Split(from, m, Idle, Admitted(l.maxBatch)));
      var s1 := Step(l, s, Append(from, l.maxBatch));
      assert s1.publishers == Split(from + 1, m, Idle, Admitted(l.maxBatch));
      AllAppended(l, hwm + l.maxBatch, from + 1, m);
      assert (m - from) * l.maxBatch == l.maxBatch + (m - from - 1) * l.maxBatch;
      assert AppendAll(from, m, l.maxBatch)[1..] == AppendAll(from + 1, m, l.maxBatch);
    }
  }

  /** The bound is tight: for all limits and every m, some run of m publishers
      reaches it. */
  lemma BoundIsReached(l: Limits, m: nat)
    requires l.maxLag > 0
    ensures var start := State(l.maxLag - 1, [0], Split(m, m, Idle, Idle));
            var r := Run(l, start, CheckAll(0, m, l.maxBatch) + AppendAll(0, m, l.maxBatch));
            && AtMost(l, start, CheckAll(0, m, l.maxBatch) + AppendAll(0, m, l.maxBatch), m)
            && Lag(r.hwm, Slowest(r.committed)) == l.maxLag + m * l.maxBatch - 1
  {
    var start := State(l.maxLag - 1, [0], Split(m, m, Idle, Idle));
    AtMostAll(l, start, CheckAll(0, m, l.maxBatch) + AppendAll(0, m, l.maxBatch));
    assert start.publishers == Split(0, m, Admitted(l.maxBatch), Idle);
    RunConcat(l, start, CheckAll(0, m, l.maxBatch), AppendAll(0, m, l.maxBatch));
    AllChecked(l, 0, m);
    assert Split(m, m, Admitted(l.maxBatch), Idle) == Split(0, m, Idle, Admitted(l.maxBatch));
    AllAppended(l, l.maxLag - 1, 0, m);
  }
}
