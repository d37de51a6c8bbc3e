/** What liveness means: a map from connection to the tick at which it is dead. */
module Liveness {
  datatype Live = Live(now: nat, timeout: nat, deadlines: map<int, nat>)

  datatype Event = Register(c: int) | Heartbeat(c: int) | Unregister(c: int) | Advance

  predicate Ok(l: Live) {
    l.timeout > 0 && forall c :: c in l.deadlines ==> l.now < l.deadlines[c]
  }

  function Touched(l: Live, c: int): Live {
    l.(deadlines := l.deadlines[c := l.now + l.timeout])
  }

  predicate Dies(l: Live, c: int) { c in l.deadlines && l.deadlines[c] == l.now + 1 }

  function Advanced(l: Live): Live {
    l.(now := l.now + 1, deadlines := map c | c in l.deadlines && !Dies(l, c) :: l.deadlines[c])
  }

  function Next(l: Live, e: Event): Live {
    match e
    case Register(c) => Touched(l, c)
    case Heartbeat(c) => if c in l.deadlines then Touched(l, c) else l
    case Unregister(c) => l.(deadlines := l.deadlines - {c})
    case Advance => Advanced(l)
  }

  function After(l: Live, events: seq<Event>): Live
    decreases |events|
  {
    if events == [] then l else After(Next(l, events[0]), events[1..])
  }

  // No connection is registered while it is tracked.
  predicate Allowed(l: Live, events: seq<Event>)
    decreases |events|
  {
    events != [] ==>
      (events[0].Register? ==> events[0].c !in l.deadlines) && Allowed(Next(l, events[0]), events[1..])
  }

  // The connections reported dead at each tick of a run.
  function Reports(l: Live, events: seq<Event>): seq<multiset<int>>
    decreases |events|
  {
    if events == [] then []
    else (if events[0].Advance? then [multiset(Dying(l))] else []) + Reports(Next(l, events[0]), events[1..])
  }

  function Dying(l: Live): set<int> { set c | c in l.deadlines && Dies(l, c) }

  // The ticks at which c is reported dead during a run.
  function DeathsOf(l: Live, events: seq<Event>, c: int): seq<nat>
    decreases |events|
  {
    if events == [] then []
    else (if events[0].Advance? && Dies(l, c) then [l.now + 1] else []) + DeathsOf(Next(l, events[0]), events[1..], c)
  }

  function Ticks(events: seq<Event>): nat {
    if events == [] then 0 else (if events[0].Advance? then 1 else 0) + Ticks(events[1..])
  }

  predicate Quiet(events: seq<Event>, c: int) {
    forall e :: e in events ==> e != Register(c) && e != Heartbeat(c) && e != Unregister(c)
  }

  lemma {:induction false} NeverWhileUntracked(l: Live, events: seq<Event>, c: int)
    requires Ok(l) && c !in l.deadlines && Register(c) !in events
    ensures DeathsOf(l, events, c) == []
    decreases |events|
  {
    if events != [] {
      assert events[0] in events;
      NeverWhileUntracked(Next(l, events[0]), events[1..], c);
    }
  }

  lemma {:induction false} DiesOnceAtDeadline(l: Live, events: seq<Event>, c: int)
    requires Ok(l) && c in l.deadlines && Quiet(events, c)
    ensures DeathsOf(l, events, c) == if Ticks(events) >= l.deadlines[c] - l.now then [l.deadlines[c]] else []
    decreases |events|
  {
    if events != [] {
      assert events[0] in events;
      var l' := Next(l, events[0]);
      assert forall e :: e in events[1..] ==> e in events;
      if c in l'.deadlines {
        DiesOnceAtDeadline(l', events[1..], c);
      } else {
        NeverWhileUntracked(l', events[1..], c);
      }
    }
  }

  /** In every run that registers only untracked connections, a connection is
      reported dead exactly `timeout` ticks after its last registration or
      heartbeat, once. */
  lemma DeadAfterSilence(l: Live, touch: Event, events: seq<Event>, c: int)
    requires Ok(l) && Allowed(l, [touch] + events) && Quiet(events, c)
    requires touch == Register(c) || (touch == Heartbeat(c) && c in l.deadlines)
    ensures DeathsOf(Next(l, touch), events, c) == if Ticks(events) >= l.timeout then [l.now + l.timeout] else []
  {
    DiesOnceAtDeadline(Next(l, touch), events, c);
  }

  /** In such a run a connection is never reported dead after unregistering,
      until it is registered again. */
  lemma NeverAfterUnregister(l: Live, events: seq<Event>, c: int)
    requires Ok(l) && Allowed(l, [Unregister(c)] + events) && Register(c) !in events
    ensures DeathsOf(Next(l, Unregister(c)), events, c) == []
  {
    NeverWhileUntracked(Next(l, Unregister(c)), events, c);
  }

  lemma {:induction false} AllowedConcat(l: Live, a: seq<Event>, b: seq<Event>)
    ensures Allowed(l, a + b) <==> Allowed(l, a) && Allowed(After(l, a), b)
    decreases |a|
  {
    if a == [] {
      assert a + b == b;
    } else {
      assert (a + b)[1..] == a[1..] + b;
      AllowedConcat(Next(l, a[0]), a[1..], b);
    }
  }

  function Advances(n: nat): (r: seq<Event>)
    ensures |r| == n
  {
    seq(n, _ => Advance)
  }

  lemma {:induction false} AdvancesAllowed(l: Live, n: nat)
    ensures Allowed(l, Advances(n)) && Ticks(Advances(n)) == n
    decreases n
  {
    if n > 0 {
      assert Advances(n)[1..] == Advances(n - 1);
      AdvancesAllowed(Next(l, Advance), n - 1);
    }
  }

  lemma {:induction false} TicksConcat(a: seq<Event>, b: seq<Event>)
    ensures Ticks(a + b) == Ticks(a) + Ticks(b)
  {
    if a == [] {
      assert a + b == b;
    } else {
      assert (a + b)[1..] == a[1..] + b;
      TicksConcat(a[1..], b);
    }
  }
}

/** The connection manager over a shared timer wheel: what it really does in
    every run, and exactly when that is what liveness means. */
module ConnectionManagers {
  import opened Timers
  import opened TimerWheels
  import opened Liveness

  // What a timer on the wheel calls: this manager, or another user of it.
  datatype Callback = Timeout(connection: int) | Other(tag: nat)

  datatype Manager = Manager(timeoutMs: nat, timers: map<int, nat>, clock: Clock<Callback>)

  // ----- What the manager does -----

  function Armed(m: Manager, c: int): Manager
    requires m.clock.tickMs > 0
  {
    m.(timers := m.timers[c := m.clock.nextId], clock := Added(m.clock, m.timeoutMs, Timeout(c)))
  }

  function Disarmed(m: Manager, c: int): Manager
    requires c in m.timers
  {
    m.(timers := m.timers - {c}, clock := Cancelled(m.clock, m.timers[c]))
  }

  // The callbacks of the due timers below `bound`, in the order added.
  function FiredBelow(s: Clock<Callback>, bound: nat): seq<Callback> {
    if bound == 0 then []
    else FiredBelow(s, bound - 1) + if IsDue(s, bound - 1) then [s.pending[bound - 1].callback] else []
  }

  function Fired(s: Clock<Callback>): seq<Callback> { FiredBelow(s, s.nextId) }

  // The connections named by fired callbacks.
  function Connections(due: seq<Callback>): seq<int> {
    if due == [] then []
    else
      var n := |due| - 1;
      Connections(due[..n]) + if due[n].Timeout? then [due[n].connection] else []
  }

  // The connections reported by the next tick.
  function ReportOf(m: Manager): seq<int> { Connections(Fired(m.clock)) }

  function Forgotten(timers: map<int, nat>, dead: seq<int>): map<int, nat> {
    map c | c in timers && c !in dead :: timers[c]
  }

  function Step(m: Manager, e: Event): (r: Manager)
    requires m.clock.tickMs > 0
    ensures r.clock.tickMs == m.clock.tickMs
  {
    match e
    case Register(c) => Armed(m, c)
    case Heartbeat(c) => if c in m.timers then Armed(Disarmed(m, c), c) else m
    case Unregister(c) => if c in m.timers then Disarmed(m, c) else m
    case Advance => m.(timers := Forgotten(m.timers, ReportOf(m)), clock := Ticked(m.clock))
  }

  // The connections reported dead at each tick of a run.
  function ReportsOf(m: Manager, events: seq<Event>): seq<multiset<int>>
    requires m.clock.tickMs > 0
    decreases |events|
  {
    if events == [] then []
    else (if events[0].Advance? then [multiset(ReportOf(m))] else []) + ReportsOf(Step(m, events[0]), events[1..])
  }

  // ----- Its state -----

  ghost predicate ConnectionOk(m: Manager, c: int) {
    c in m.timers && m.timers[c] in m.clock.pending && m.clock.pending[m.timers[c]].callback == Timeout(c)
  }

  // Every tracked connection has its timeout pending.
  ghost predicate Tracked(m: Manager) {
    Timers.Ok(m.clock) && forall c :: c in m.timers ==> ConnectionOk(m, c)
  }

  // A pending timeout that belongs to no tracked connection.
  ghost predicate Orphan(m: Manager, t: nat) {
    && t in m.clock.pending && m.clock.pending[t].callback.Timeout?
    && var c := m.clock.pending[t].callback.connection;
       !(c in m.timers && m.timers[c] == t)
  }

  // Tracked connections and pending timeouts correspond one to one.
  ghost predicate Matched(m: Manager) {
    Tracked(m) && forall t :: t in m.clock.pending ==> !Orphan(m, t)
  }

  ghost function LiveOf(m: Manager): Live
    requires Tracked(m)
  {
    Live(m.clock.now, TicksFor(m.timeoutMs, m.clock.tickMs),
         map c | c in m.timers :: m.clock.pending[m.timers[c]].deadline)
  }

  ghost predicate OrphanDue(m: Manager) { exists t: nat :: Orphan(m, t) && IsDue(m.clock, t) }

  // ----- One tick: reports are ideal exactly when no orphan is due -----

  // The due timers with a given callback.
  ghost function DueFor(s: Clock<Callback>, bound: nat, x: Callback): set<nat> {
    set id | id in s.pending && id < bound && IsDue(s, id) && s.pending[id].callback == x
  }

  predicate DueAs(s: Clock<Callback>, id: nat, x: Callback) { IsDue(s, id) && s.pending[id].callback == x }

  lemma DueForStep(s: Clock<Callback>, b: nat, x: Callback)
    ensures |DueFor(s, b + 1, x)| == |DueFor(s, b, x)| + if DueAs(s, b, x) then 1 else 0
  {
    if DueAs(s, b, x) {
      assert DueFor(s, b + 1, x) == DueFor(s, b, x) + {b};
    } else {
      assert DueFor(s, b + 1, x) == DueFor(s, b, x);
    }
  }

  lemma {:induction false} FiredCount(s: Clock<Callback>, bound: nat, x: Callback)
    ensures multiset(FiredBelow(s, bound))[x] == |DueFor(s, bound, x)|
  {
    hide DueFor;
    if bound > 0 {
      FiredCount(s, bound - 1, x);
      DueForStep(s, bound - 1, x);
    } else {
      NoneDue(s, x);
    }
  }

  lemma NoneDue(s: Clock<Callback>, x: Callback)
    ensures |DueFor(s, 0, x)| == 0
  {
  }

  lemma {:induction false} ConnectionsCount(due: seq<Callback>, c: int)
    ensures multiset(Connections(due))[c] == multiset(due)[Timeout(c)]
  {
    if due != [] {
      var n := |due| - 1;
      ConnectionsCount(due[..n], c);
      assert due == due[..n] + [due[n]];
    }
  }

  // How often a connection is reported: once per due timer that names it.
  lemma ReportCount(m: Manager, c: int)
    requires Timers.Ok(m.clock)
    ensures multiset(ReportOf(m))[c] == |DueFor(m.clock, m.clock.nextId, Timeout(c))|
  {
    ConnectionsCount(Fired(m.clock), c);
    FiredCount(m.clock, m.clock.nextId, Timeout(c));
  }

  // Its own timer, if due, and the due orphans that name it.
  lemma DueForConnection(m: Manager, c: int)
    requires Tracked(m)
    ensures var due := DueFor(m.clock, m.clock.nextId, Timeout(c));
            && (Dies(LiveOf(m), c) ==> m.timers[c] in due)
            && (forall t :: t in due ==> Orphan(m, t) || (Dies(LiveOf(m), c) && t == m.timers[c]))
            && (forall t :: Orphan(m, t) && IsDue(m.clock, t) && m.clock.pending[t].callback == Timeout(c) ==> t in due)
  {
  }

  lemma ReportIdealFor(m: Manager, c: int)
    requires Tracked(m)
    ensures !OrphanDue(m) ==> multiset(ReportOf(m))[c] == if Dies(LiveOf(m), c) then 1 else 0
    ensures (exists t: nat :: Orphan(m, t) && IsDue(m.clock, t) && m.clock.pending[t].callback == Timeout(c)) ==>
              multiset(ReportOf(m))[c] > if Dies(LiveOf(m), c) then 1 else 0
  {
    hide Tracked, LiveOf, ReportOf, Dies;
    TrackedOk(m);
    ReportCount(m, c);
    DueForConnection(m, c);
    var due := DueFor(m.clock, m.clock.nextId, Timeout(c));
    assert forall t :: t in due ==> IsDue(m.clock, t);
    if !OrphanDue(m) {
      assert due == if Dies(LiveOf(m), c) then {m.timers[c]} else {};
    }
    if t: nat :| Orphan(m, t) && IsDue(m.clock, t) && m.clock.pending[t].callback == Timeout(c) {
      OwnIsNoOrphan(m, c);
      Larger(due, if Dies(LiveOf(m), c) then {m.timers[c]} else {}, t);
    }
  }

  lemma TrackedOk(m: Manager)
    requires Tracked(m)
    ensures Timers.Ok(m.clock) && forall c :: Dies(LiveOf(m), c) ==> c in m.timers
  {
  }

  lemma OwnIsNoOrphan(m: Manager, c: int)
    requires Tracked(m)
    ensures c in m.timers ==> !Orphan(m, m.timers[c])
  {
  }

  lemma Larger(a: set<nat>, b: set<nat>, x: nat)
    requires b <= a && x in a && x !in b
    ensures |a| > |b|
  {
    assert |b + {x}| == |b| + 1;
    Subset(b + {x}, a);
  }

  lemma {:induction false} Subset(a: set<nat>, b: set<nat>)
    requires a <= b
    ensures |a| <= |b|
    decreases a
  {
    if a != {} {
      var x :| x in a;
      Subset(a - {x}, b - {x});
    }
  }

  /** A tick reports what liveness demands exactly when no orphan is due. */
  lemma ReportIdealIff(m: Manager)
    requires Tracked(m)
    ensures multiset(ReportOf(m)) == multiset(Dying(LiveOf(m))) <==> !OrphanDue(m)
  {
    hide Tracked, LiveOf, ReportOf;
    var l := LiveOf(m);
    forall c ensures multiset(Dying(l))[c] == if Dies(l, c) then 1 else 0 {}
    if OrphanDue(m) {
      var t: nat :| Orphan(m, t) && IsDue(m.clock, t);
      var c := m.clock.pending[t].callback.connection;
      ReportIdealFor(m, c);
    } else {
      forall c ensures multiset(ReportOf(m))[c] == multiset(Dying(l))[c] { ReportIdealFor(m, c); }
    }
  }

  // ----- One event -----

  // An event that fires no orphan does what liveness demands, and leaves every
  // orphan pending.
  lemma StepTracked(m: Manager, e: Event)
    requires Tracked(m) && (e.Advance? ==> !OrphanDue(m))
    ensures Tracked(Step(m, e)) && LiveOf(Step(m, e)) == Liveness.Next(LiveOf(m), e)
    ensures forall t :: Orphan(m, t) ==>
              Orphan(Step(m, e), t) && Step(m, e).clock.pending[t].deadline == m.clock.pending[t].deadline
  {
    hide Armed, Disarmed, Tracked, Orphan, LiveOf, OrphanDue;
    TrackedOk(m);
    match e
    case Register(c) => ArmTracked(m, c);
    case Heartbeat(c) =>
      TrackedIffLive(m, c);
      if c in m.timers {
        DisarmTracked(m, c);
        ArmTracked(Disarmed(m, c), c);
        TouchedAgain(LiveOf(m), c);
      }
    case Unregister(c) =>
      TrackedIffLive(m, c);
      if c in m.timers { DisarmTracked(m, c); }
    case Advance => TickTracked(m);
  }

  lemma TrackedIffLive(m: Manager, c: int)
    requires Tracked(m)
    ensures c in m.timers <==> c in LiveOf(m).deadlines
  {
  }

  lemma TouchedAgain(l: Live, c: int)
    ensures Touched(Liveness.Next(l, Unregister(c)), c) == Touched(l, c)
  {
  }

  lemma ArmTracked(m: Manager, c: int)
    requires Tracked(m)
    ensures Tracked(Armed(m, c)) && LiveOf(Armed(m, c)) == Touched(LiveOf(m), c)
    ensures forall t :: Orphan(m, t) ==>
              Orphan(Armed(m, c), t) && Armed(m, c).clock.pending[t].deadline == m.clock.pending[t].deadline
    ensures c in m.timers ==> Orphan(Armed(m, c), m.timers[c])
    ensures c !in m.timers ==> forall t :: Orphan(Armed(m, c), t) ==> Orphan(m, t)
  {
    hide LiveOf, TicksFor;
    var m' := Armed(m, c);
    assert Tracked(m') by {
      hide Orphan;
      NextOk(m.clock, Add(m.timeoutMs, Timeout(c)));
      forall d | d in m'.timers ensures ConnectionOk(m', d) {
        if d != c { assert ConnectionOk(m, d); }
      }
    }
    if c in m.timers { assert ConnectionOk(m, c); }
    ArmLive(m, c);
  }

  lemma ArmLive(m: Manager, c: int)
    requires Tracked(m) && Tracked(Armed(m, c))
    ensures LiveOf(Armed(m, c)) == Touched(LiveOf(m), c)
  {
    var m' := Armed(m, c);
    forall d | d in m'.timers ensures LiveOf(m').deadlines[d] == Touched(LiveOf(m), c).deadlines[d] {
      if d != c { assert ConnectionOk(m, d); }
    }
  }

  lemma DisarmTracked(m: Manager, c: int)
    requires Tracked(m) && c in m.timers
    ensures Tracked(Disarmed(m, c)) && LiveOf(Disarmed(m, c)) == Liveness.Next(LiveOf(m), Unregister(c))
    ensures forall t :: Orphan(m, t) <==> Orphan(Disarmed(m, c), t)
    ensures forall t :: Orphan(m, t) ==> Disarmed(m, c).clock.pending[t].deadline == m.clock.pending[t].deadline
  {
    var m' := Disarmed(m, c);
    assert ConnectionOk(m, c);
    forall d | d in m'.timers ensures ConnectionOk(m', d) { assert ConnectionOk(m, d); }
    var l, l' := Liveness.Next(LiveOf(m), Unregister(c)), LiveOf(m');
    assert l'.deadlines.Keys == l.deadlines.Keys;
    forall d | d in m'.timers ensures l.deadlines[d] == l'.deadlines[d] { assert ConnectionOk(m', d); }
  }

  lemma TickTracked(m: Manager)
    requires Tracked(m) && !OrphanDue(m)
    ensures Tracked(Step(m, Advance)) && LiveOf(Step(m, Advance)) == Advanced(LiveOf(m))
    ensures forall t :: Orphan(m, t) ==>
              Orphan(Step(m, Advance), t) && Step(m, Advance).clock.pending[t].deadline == m.clock.pending[t].deadline
    ensures forall t :: Orphan(Step(m, Advance), t) ==> Orphan(m, t)
  {
    hide ReportOf;
    var m', l := Step(m, Advance), LiveOf(m);
    forall c ensures c in ReportOf(m) <==> Dies(l, c) {
      ReportIdealFor(m, c);
      assert c in ReportOf(m) <==> multiset(ReportOf(m))[c] > 0;
    }
    forall c | c in m'.timers ensures ConnectionOk(m', c) { assert ConnectionOk(m, c) && !Dies(l, c); }
    TickLive(m);
    TickOrphans(m);
  }

  lemma TickLive(m: Manager)
    requires Tracked(m) && Tracked(Step(m, Advance)) && forall c :: c in ReportOf(m) <==> Dies(LiveOf(m), c)
    ensures LiveOf(Step(m, Advance)) == Advanced(LiveOf(m))
  {
    hide ReportOf;
    var m', l := Step(m, Advance), LiveOf(m);
    forall c ensures c in LiveOf(m').deadlines <==> c in Advanced(l).deadlines {
      if c in m.timers { assert ConnectionOk(m, c); }
    }
    forall c | c in m'.timers ensures LiveOf(m').deadlines[c] == Advanced(l).deadlines[c] {
      assert ConnectionOk(m, c) && ConnectionOk(m', c);
    }
  }

  lemma TickOrphans(m: Manager)
    requires Tracked(m) && !OrphanDue(m) && forall c :: c in ReportOf(m) <==> Dies(LiveOf(m), c)
    ensures forall t :: Orphan(m, t) <==> Orphan(Step(m, Advance), t)
    ensures forall t :: Orphan(m, t) ==> Step(m, Advance).clock.pending[t] == m.clock.pending[t]
  {
  }

  // ----- Whole runs -----

  lemma {:induction false} AllowedAgree(m: Manager, events: seq<Event>)
    requires Matched(m) && Allowed(LiveOf(m), events)
    ensures ReportsOf(m, events) == Reports(LiveOf(m), events)
    decreases |events|
  {
    hide Tracked, Orphan, LiveOf, ReportOf;
    TrackedOk(m);
    if events != [] {
      StepMatched(m, events[0]);
      ReportIdealIff(m);
      AllowedAgree(Step(m, events[0]), events[1..]);
    }
  }

  /** The correspondence is kept by every event except the registration of a
      tracked connection, which leaves the earlier timer without an owner. */
  lemma StepMatched(m: Manager, e: Event)
    requires Matched(m)
    ensures Tracked(Step(m, e)) && LiveOf(Step(m, e)) == Liveness.Next(LiveOf(m), e) && !OrphanDue(m)
    ensures Matched(Step(m, e)) <==> (e.Register? ==> e.c !in LiveOf(m).deadlines)
    ensures e.Register? && e.c in LiveOf(m).deadlines ==> e.c in m.timers && Orphan(Step(m, e), m.timers[e.c])
  {
    hide Tracked, LiveOf, Armed, Disarmed;
    StepTracked(m, e);
    match e
    case Register(c) =>
      TrackedIffLive(m, c);
      ArmTracked(m, c);
    case Heartbeat(c) =>
      if c in m.timers {
        DisarmTracked(m, c);
        ArmTracked(Disarmed(m, c), c);
        NotTracked(m, c);
      }
    case Unregister(c) => if c in m.timers { DisarmTracked(m, c); }
    case Advance => TickTracked(m);
  }

  lemma NotTracked(m: Manager, c: int)
    requires c in m.timers
    ensures c !in Disarmed(m, c).timers
  {
  }

  // An orphan fires in the end, and then the reports are not ideal.
  lemma {:induction false} OrphanDiverges(m: Manager, t: nat, events: seq<Event>)
    requires Tracked(m) && Orphan(m, t) && Liveness.Ticks(events) >= m.clock.pending[t].deadline - m.clock.now
    ensures ReportsOf(m, events) != Reports(LiveOf(m), events)
    decreases |events|
  {
    hide Tracked, LiveOf, ReportOf, Step, Dying;
    TrackedOk(m);
    if events != [] {
      ReportIdealIff(m);
      if events[0].Advance? && OrphanDue(m) {
        assert ReportsOf(m, events)[0] != Reports(LiveOf(m), events)[0];
      } else {
        StepTracked(m, events[0]);
        StepNow(m, events[0]);
        OrphanDiverges(Step(m, events[0]), t, events[1..]);
        DifferLater(m, events);
      }
    }
  }

  lemma DifferLater(m: Manager, events: seq<Event>)
    requires Tracked(m) && events != [] && (events[0].Advance? ==> multiset(ReportOf(m)) == multiset(Dying(LiveOf(m))))
    requires Tracked(Step(m, events[0])) && LiveOf(Step(m, events[0])) == Liveness.Next(LiveOf(m), events[0])
    requires ReportsOf(Step(m, events[0]), events[1..]) != Reports(LiveOf(Step(m, events[0])), events[1..])
    ensures ReportsOf(m, events) != Reports(LiveOf(m), events)
  {
    hide Tracked, LiveOf, ReportOf, Step, Dying;
    TrackedOk(m);
    TrackedOk(Step(m, events[0]));
    var a, b := ReportsOf(m, events), Reports(LiveOf(m), events);
    var n := if events[0].Advance? then 1 else 0;
    assert a[n..] == ReportsOf(Step(m, events[0]), events[1..]);
    assert b[n..] == Reports(LiveOf(Step(m, events[0])), events[1..]);
  }

  lemma StepNow(m: Manager, e: Event)
    requires m.clock.tickMs > 0
    ensures Step(m, e).clock.now == m.clock.now + if e.Advance? then 1 else 0
  {
  }

  lemma {:induction false} DoubleDiverges(m: Manager, events: seq<Event>) returns (n: nat)
    requires Matched(m) && !Allowed(LiveOf(m), events)
    ensures ReportsOf(m, events + Advances(n)) != Reports(LiveOf(m), events + Advances(n))
    decreases |events|
  {
    hide Tracked, LiveOf, ReportOf, Step, Orphan, Dying, Advances;
    TrackedOk(m);
    var e, rest := events[0], events[1..];
    var m' := Step(m, e);
    StepMatched(m, e);
    ReportIdealIff(m);
    TrackedOk(m');
    if e.Register? && e.c in LiveOf(m).deadlines {
      var t := m.timers[e.c];
      n := OrphanLeft(m', t);
      AdvancesAllowed(LiveOf(m'), n);
      TicksConcat(rest, Advances(n));
      OrphanDiverges(m', t, rest + Advances(n));
    } else {
      n := DoubleDiverges(m', rest);
    }
    assert (events + Advances(n))[1..] == rest + Advances(n);
    DifferLater(m, events + Advances(n));
  }

  lemma OrphanLeft(m: Manager, t: nat) returns (n: nat)
    requires Tracked(m) && Orphan(m, t)
    ensures t in m.clock.pending && n == m.clock.pending[t].deadline - m.clock.now
  {
    n := m.clock.pending[t].deadline - m.clock.now;
  }

  /** The manager reports what liveness demands, in a run and in every further
      run that registers only untracked connections, exactly when the run itself
      registers only untracked connections. */
  lemma ReportsAreIdealIff(m: Manager, events: seq<Event>)
    requires Matched(m)
    ensures Allowed(LiveOf(m), events) <==>
            forall more :: Allowed(After(LiveOf(m), events), more) ==>
              ReportsOf(m, events + more) == Reports(LiveOf(m), events + more)
  {
    hide Tracked, LiveOf, ReportOf, Step, Orphan, Advances, Reports, ReportsOf;
    TrackedOk(m);
    var l := LiveOf(m);
    if Allowed(l, events) {
      forall more | Allowed(After(l, events), more) ensures ReportsOf(m, events + more) == Reports(l, events + more) {
        AllowedConcat(l, events, more);
        AllowedAgree(m, events + more);
      }
    } else {
      var n := DoubleDiverges(m, events);
      AdvancesAllowed(After(l, events), n);
    }
  }

  // The ticks at which the manager reports c.
  function DeathsIn(m: Manager, events: seq<Event>, c: int): seq<nat>
    requires m.clock.tickMs > 0
    decreases |events|
  {
    if events == [] then []
    else (if events[0].Advance? && c in ReportOf(m) then [m.clock.now + 1] else []) +
         DeathsIn(Step(m, events[0]), events[1..], c)
  }

  /** In such runs the manager reports a connection at exactly the ticks that
      liveness demands. */
  lemma {:induction false} DeathsAreIdeal(m: Manager, events: seq<Event>, c: int)
    requires Matched(m) && Allowed(LiveOf(m), events)
    ensures DeathsIn(m, events, c) == DeathsOf(LiveOf(m), events, c)
    decreases |events|
  {
    hide Tracked, Orphan, LiveOf, ReportOf, OrphanDue;
    TrackedOk(m);
    if events != [] {
      StepMatched(m, events[0]);
      ReportIdealFor(m, c);
      assert c in ReportOf(m) <==> multiset(ReportOf(m))[c] > 0;
      LiveNow(m);
      DeathsAreIdeal(Step(m, events[0]), events[1..], c);
    }
  }

  lemma LiveNow(m: Manager)
    requires Tracked(m)
    ensures LiveOf(m).now == m.clock.now && Liveness.Ok(LiveOf(m))
    ensures LiveOf(m).timeout == TicksFor(m.timeoutMs, m.clock.tickMs)
  {
  }

  // A pending timeout that nothing cancels is reported on the tick of its deadline.
  lemma {:induction false} PendingIsReported(m: Manager, t: nat, c: int, n: nat)
    requires Timers.Ok(m.clock) && t in m.clock.pending && m.clock.pending[t] == Timer(m.clock.now + n, Timeout(c))
    ensures m.clock.now + n in DeathsIn(m, Advances(n), c)
    decreases n
  {
    hide ReportOf;
    var m' := Step(m, Advance);
    assert Advances(n)[1..] == Advances(n - 1);
    if n == 1 {
      assert IsDue(m.clock, t);
      ReportCount(m, c);
      assert t in DueFor(m.clock, m.clock.nextId, Timeout(c));
    } else {
      NextOk(m.clock, Op<Callback>.Tick);
      PendingIsReported(m', t, c, n - 1);
    }
  }

  /** A connection registered twice and then unregistered is still reported
      dead, when its first timeout comes; liveness demands no report. */
  lemma DeadAfterUnregister(m: Manager, c: int)
    requires Matched(m) && c !in m.timers
    ensures var m' := Step(Step(Step(m, Register(c)), Register(c)), Unregister(c));
            var l' := After(LiveOf(m), [Register(c), Register(c), Unregister(c)]);
            var n := TicksFor(m.timeoutMs, m.clock.tickMs);
            && m.clock.now + n in DeathsIn(m', Advances(n), c)
            && DeathsOf(l', Advances(n), c) == []
  {
    hide DeathsIn, ReportOf, Tracked, TicksFor, After, Step, DeathsOf, LiveOf, Advances;
    TrackedOk(m);
    TwiceThenOut(m, c);
    PendingIsReported(Step(Step(Step(m, Register(c)), Register(c)), Unregister(c)), m.clock.nextId, c,
                      TicksFor(m.timeoutMs, m.clock.tickMs));
    IdealSilence(m, c, TicksFor(m.timeoutMs, m.clock.tickMs));
  }

  lemma TwiceThenOut(m: Manager, c: int)
    requires Timers.Ok(m.clock) && c !in m.timers
    ensures var s := Step(Step(Step(m, Register(c)), Register(c)), Unregister(c)).clock;
            && Timers.Ok(s) && s.now == m.clock.now && m.clock.nextId in s.pending
            && s.pending[m.clock.nextId] == Timer(m.clock.now + TicksFor(m.timeoutMs, m.clock.tickMs), Timeout(c))
  {
  }

  lemma IdealSilence(m: Manager, c: int, n: nat)
    requires Tracked(m)
    ensures DeathsOf(After(LiveOf(m), [Register(c), Register(c), Unregister(c)]), Advances(n), c) == []
  {
    hide Tracked, LiveOf;
    LiveNow(m);
    var l := LiveOf(m);
    var events := [Register(c), Register(c), Unregister(c)];
    var l2 := Liveness.Next(Liveness.Next(l, Register(c)), Register(c));
    assert events[1..] == [Register(c), Unregister(c)] && events[1..][1..] == [Unregister(c)];
    assert After(l, events) == After(l2, [Unregister(c)]) == After(Liveness.Next(l2, Unregister(c)), []);
    NeverWhileUntracked(Liveness.Next(l2, Unregister(c)), Advances(n), c);
  }

  /** In every run that registers only untracked connections, the manager
      reports a connection exactly n ticks after its last registration or
      heartbeat, once, where n whole ticks make up the timeout but at least one. */
  lemma ReportedAfterSilence(m: Manager, touch: Event, events: seq<Event>, c: int, n: nat)
    requires RoundsTo(m.timeoutMs, m.clock.tickMs, n)
    requires Matched(m) && Allowed(LiveOf(m), [touch] + events) && Quiet(events, c)
    requires touch == Register(c) || (touch == Heartbeat(c) && c in m.timers)
    ensures DeathsIn(Step(m, touch), events, c) == if Liveness.Ticks(events) >= n then [m.clock.now + n] else []
  {
    hide Tracked, Orphan, LiveOf, DeathsIn, DeathsOf, TicksFor, RoundsTo;
    TrackedOk(m);
    RoundsToIff(m.timeoutMs, m.clock.tickMs, n);
    TrackedIffLive(m, c);
    LiveNow(m);
    assert ([touch] + events)[1..] == events;
    StepMatched(m, touch);
    DeathsAreIdeal(Step(m, touch), events, c);
    DeadAfterSilence(LiveOf(m), touch, events, c);
  }

  class ConnectionManager {
    const wheel: TimerWheel<Callback>
    const timeoutMs: nat
    var timers: map<int, nat>

    ghost function Model(): Manager
      reads this, wheel
    {
      Manager(timeoutMs, timers, wheel.clock)
    }

    // No timer of this manager is on the wheel yet.
    constructor (wheel: TimerWheel<Callback>, timeoutMs: nat)
      requires wheel.Valid() && forall t :: t in wheel.clock.pending ==> wheel.clock.pending[t].callback.Other?
      ensures this.wheel == wheel && this.timeoutMs == timeoutMs
      ensures Model() == Manager(timeoutMs, map[], wheel.clock) && Matched(Model())
    {
      this.wheel, this.timeoutMs, timers := wheel, timeoutMs, map[];
    }

    lemma ClockOk()
      requires wheel.Valid()
      ensures Timers.Ok(wheel.clock)
    {
    }

    method ArmTimer(c: int)
      requires wheel.Valid()
      modifies this, wheel
      ensures wheel.Valid() && old(wheel.clock.tickMs) > 0 && Model() == Armed(old(Model()), c)
    {
      ClockOk();
      var t := wheel.AddTimer(timeoutMs, Timeout(c));
      timers := timers[c := t];
    }

    /** Registering keeps tracked connections and pending timeouts in
        correspondence exactly when the connection is not tracked yet: otherwise
        its earlier timer stays on the wheel. */
    method RegisterConnection(c: int)
      requires wheel.Valid()
      modifies this, wheel
      ensures wheel.Valid() && old(wheel.clock.tickMs) > 0 && Model() == Step(old(Model()), Register(c))
      ensures old(Matched(Model())) ==> (Matched(Model()) <==> c !in old(timers))
    {
      ClockOk();
      ghost var before := Model();
      ArmTimer(c);
      if Matched(before) {
        StepMatched(before, Register(c));
        TrackedIffLive(before, c);
      }
    }

    method UnregisterConnection(c: int)
      requires wheel.Valid()
      modifies this, wheel
      ensures wheel.Valid() && old(wheel.clock.tickMs) > 0 && Model() == Step(old(Model()), Unregister(c))
      ensures old(Matched(Model())) ==> Matched(Model())
    {
      ClockOk();
      ghost var before := Model();
      if c in timers {
        var found := wheel.Cancel(timers[c]);
        timers := timers - {c};
      }
      if Matched(before) { StepMatched(before, Unregister(c)); }
    }

    /** A heartbeat restarts the timeout of a tracked connection and is ignored
        for any other. */
    method OnHeartbeatReceived(c: int)
      requires wheel.Valid()
      modifies this, wheel
      ensures wheel.Valid() && old(wheel.clock.tickMs) > 0 && Model() == Step(old(Model()), Heartbeat(c))
      ensures old(Matched(Model())) ==> Matched(Model())
    {
      hide Represents, TicksFor, Matched, Added;
      ClockOk();
      ghost var before := Model();
      if c in timers {
        var found := wheel.Cancel(timers[c]);
        ghost var others := timers - {c};
        ArmTimer(c);
        assert timers == others[c := timers[c]];
      }
      if Matched(before) { StepMatched(before, Heartbeat(c)); }
    }

    method HandleTimeout(c: int)
      modifies this
      ensures timers == old(timers) - {c}
    {
      timers := timers - {c};
    }

    /** A tick of the wheel reports the connections of the timers due, and
        forgets them. */
    method Tick() returns (dead: seq<int>)
      requires wheel.Valid()
      modifies this, wheel
      ensures wheel.Valid() && old(wheel.clock.tickMs) > 0 && Model() == Step(old(Model()), Advance)
      ensures dead == ReportOf(old(Model()))
      ensures old(Matched(Model())) ==>
                Matched(Model()) && multiset(dead) == multiset(Dying(LiveOf(old(Model()))))
    {
      hide Represents, Due, Matched;
      ClockOk();
      ghost var before := Model();
      var due := wheel.Tick();
      FiredIs(before.clock, due);
      dead := [];
      for i := 0 to |due|
        invariant wheel.clock == Ticked(before.clock) && wheel.Valid()
        invariant dead == Connections(due[..i]) && timers == Forgotten(before.timers, dead)
      {
        assert due[..i + 1][..i] == due[..i];
        if due[i].Timeout? {
          HandleTimeout(due[i].connection);
          dead := dead + [due[i].connection];
        }
      }
      assert due[..|due|] == due;
      if Matched(before) {
        MatchedIsTracked(before);
        StepMatched(before, Advance);
        ReportIdealIff(before);
      }
    }
  }

  lemma MatchedIsTracked(m: Manager)
    requires Matched(m)
    ensures Tracked(m)
  {
  }

  // The wheel fires what the model says.
  lemma FiredIs(s: Clock<Callback>, due: seq<Callback>)
    requires |due| == |Due(s)|
    requires forall i :: 0 <= i < |due| ==> Due(s)[i] in s.pending && due[i] == s.pending[Due(s)[i]].callback
    ensures due == Fired(s)
  {
    FiredBelowIs(s, s.nextId);
  }

  lemma {:induction false} FiredBelowIs(s: Clock<Callback>, bound: nat)
    ensures |FiredBelow(s, bound)| == |DueBelow(s, bound)|
    ensures forall i :: 0 <= i < |DueBelow(s, bound)| ==>
              DueBelow(s, bound)[i] in s.pending && FiredBelow(s, bound)[i] == s.pending[DueBelow(s, bound)[i]].callback
  {
    if bound > 0 { FiredBelowIs(s, bound - 1); }
  }
}
