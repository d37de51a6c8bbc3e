/** What consumer groups deliver, over whole runs of a broker whose topics and
    groups share one offset store. */
module Delivery {
  import opened Options
  import opened Crc32
  import opened OffsetKeys
  import opened OffsetStores

  datatype PolledRecord = PolledRecord(partition: int, offset: nat, payload: Bytes)

  // The records of partition p with offsets from a up to b.
  function Expected(p: int, log: seq<Bytes>, a: nat, b: nat): seq<PolledRecord>
    requires a < b ==> b <= |log|
    decreases b
  {
    if a >= b then [] else Expected(p, log, a, b - 1) + [PolledRecord(p, b - 1, log[b - 1])]
  }

  // The polled records that come from partition p.
  function Of(results: seq<PolledRecord>, p: int): seq<PolledRecord> {
    if results == [] then []
    else
      var n := |results| - 1;
      Of(results[..n], p) + if results[n].partition == p then [results[n]] else []
  }

  // Partition p moved from a to b and exactly the records between were polled.
  ghost predicate Advanced(p: int, log: seq<Bytes>, a: nat, b: nat, results: seq<PolledRecord>) {
    a <= b && (a < b ==> b <= |log|) && Of(results, p) == Expected(p, log, a, b)
  }

  /** What one poll may return: for every assigned partition the next records
      in order, no more than `max` in all, and fewer only if every partition
      has run dry. */
  ghost predicate Polled(logs: map<int, seq<Bytes>>, cursors: map<int, nat>, max: nat,
                         results: seq<PolledRecord>, cursors': map<int, nat>) {
    && cursors.Keys == cursors'.Keys <= logs.Keys
    && (forall p :: p in cursors ==> Advanced(p, logs[p], cursors[p], cursors'[p], results))
    && (forall r :: r in results ==> r.partition in cursors)
    && |results| <= max
    && (|results| < max ==> forall p :: p in cursors ==> |logs[p]| <= cursors'[p])
  }

  lemma OfSnoc(results: seq<PolledRecord>, r: PolledRecord, p: int)
    ensures Of(results + [r], p) == Of(results, p) + if r.partition == p then [r] else []
  {
  }

  lemma OfNone(p: int)
    ensures Of([], p) == []
  {
  }

  lemma {:induction false} OfConcat(a: seq<PolledRecord>, b: seq<PolledRecord>, p: int)
    ensures Of(a + b, p) == Of(a, p) + Of(b, p)
    decreases |b|
  {
    hide Of;
    OfNone(p);
    if b == [] {
      assert a + b == a && Of(a, p) + [] == Of(a, p);
    } else {
      var init, last := b[..|b| - 1], b[|b| - 1];
      OfConcat(a, init, p);
      assert init + [last] == b && (a + init) + [last] == a + b;
      OfSnoc(init, last, p);
      OfSnoc(a + init, last, p);
    }
  }

  lemma {:induction false} OfIn(results: seq<PolledRecord>, p: int, r: PolledRecord)
    requires r in Of(results, p)
    ensures r in results
  {
    var n := |results| - 1;
    if r in Of(results[..n], p) { OfIn(results[..n], p, r); }
  }

  lemma {:induction false} ExpectedConcat(p: int, log: seq<Bytes>, a: nat, b: nat, c: nat)
    requires a <= b <= c && (a < c ==> c <= |log|)
    ensures Expected(p, log, a, b) + Expected(p, log, b, c) == Expected(p, log, a, c)
    decreases c
  {
    if b < c { ExpectedConcat(p, log, a, b, c - 1); }
  }

  lemma {:induction false} ExpectedGrows(p: int, log: seq<Bytes>, log': seq<Bytes>, a: nat, b: nat)
    requires log <= log' && (a < b ==> b <= |log|)
    ensures Expected(p, log, a, b) == Expected(p, log', a, b)
    decreases b
  {
    if a < b { ExpectedGrows(p, log, log', a, b - 1); }
  }

  lemma {:induction false} ExpectedIn(p: int, log: seq<Bytes>, a: nat, b: nat, o: nat)
    requires a <= o < b <= |log|
    ensures PolledRecord(p, o, log[o]) in Expected(p, log, a, b)
    decreases b
  {
    if o < b - 1 { ExpectedIn(p, log, a, b - 1, o); }
  }

  // ----- Members of a group -----

  predicate Owns(index: int, groupSize: int, p: nat)
    requires groupSize > 0
  {
    p % groupSize == index
  }

  // The partitions of member `index`.
  function Share(index: int, groupSize: int, n: nat): set<int>
    requires groupSize > 0
  {
    set p: int | 0 <= p < n && Owns(index, groupSize, p)
  }

  /** The shares of the members 0 to groupSize - 1 split the partitions: each
      partition is in the share of exactly one member. */
  lemma SharesSplit(groupSize: int, n: nat, p: int, j: int)
    requires groupSize > 0 && 0 <= p < n
    ensures exists i :: 0 <= i < groupSize && p in Share(i, groupSize, n)
    ensures p in Share(j, groupSize, n) ==> 0 <= j < groupSize && j == p % groupSize
  {
    assert p in Share(p % groupSize, groupSize, n);
  }

  // ----- What members do to the shared store -----

  // The store after a consumer registered its group for its partitions below n.
  function RegisteredFor(s: Store, topic: string, group: string, groupSize: int, index: int, n: nat): Store
    requires groupSize > 0
  {
    if n == 0 then s
    else
      var before := RegisteredFor(s, topic, group, groupSize, index, n - 1);
      if Owns(index, groupSize, n - 1) then Registered(before, topic, n - 1, group) else before
  }

  // Registering leaves every committed offset as it is.
  lemma {:induction false} RegisteringKeepsOffsets(s: Store, topic: string, group: string, groupSize: int, index: int,
                                                   n: nat, k: Key)
    requires groupSize > 0
    ensures OffsetOf(RegisteredFor(s, topic, group, groupSize, index, n), k) == OffsetOf(s, k)
  {
    hide EntryKey, PartitionKey;
    if n > 0 { RegisteringKeepsOffsets(s, topic, group, groupSize, index, n - 1, k); }
  }

  /** And it registers the group for exactly the partitions of the share. */
  lemma {:induction false} RegisteringJoins(s: Store, topic: string, group: string, groupSize: int, index: int, n: nat,
                                            p: Part, g: string)
    requires groupSize > 0
    ensures g in GroupsOf(RegisteredFor(s, topic, group, groupSize, index, n).groups, PartString(p)) <==>
            || g in GroupsOf(s.groups, PartString(p))
            || (p.topic == topic && g == group && p.partition in Share(index, groupSize, n))
  {
    hide EntryKey, PartitionKey;
    if n > 0 {
      RegisteringJoins(s, topic, group, groupSize, index, n - 1, p, g);
      if PartString(p) == PartString(Part(topic, n - 1)) {
        PartitionKeyInjective(p.topic, p.partition, topic, n - 1);
      }
    }
  }

  // The store after a consumer committed its cursors one after the other.
  function CommittedFor(s: Store, topic: string, group: string, cursors: map<int, U64>, order: seq<int>): Store
    requires forall p :: p in order ==> p in cursors
    decreases |order|
  {
    if order == [] then s
    else
      var n := |order| - 1;
      assert order[n] in order;
      Committed(CommittedFor(s, topic, group, cursors, order[..n]), topic, order[n], group, cursors[order[n]])
  }

  // ----- Runs of a broker -----

  // A consumer instance: where it started, where it is, what it has returned.
  datatype Member = Member(
    topic: string, group: string, groupSize: int, index: int,
    start: map<int, U64>, cursors: map<int, U64>, returned: seq<PolledRecord>)

  // The partitions of every topic, one shared offset store, and every consumer
  // instance of every group that was ever started.
  datatype World = World(logs: map<string, seq<seq<Bytes>>>, store: Store, members: seq<Member>)

  datatype Event =
    | Publish(topic: string, p: int, payload: Bytes)
    | Start(topic: string, group: string, groupSize: int, index: int)
    | Poll(m: nat, max: nat, results: seq<PolledRecord>, cursors': map<int, U64>)
    | CommitAll(m: nat, order: seq<int>)

  function LogsFor(w: World, topic: string): (r: map<int, seq<Bytes>>)
    requires topic in w.logs
    ensures forall p: int :: p in r <==> 0 <= p < |w.logs[topic]|
  {
    map p: int | 0 <= p < |w.logs[topic]| :: w.logs[topic][p]
  }

  ghost predicate Enabled(w: World, e: Event) {
    match e
    case Publish(topic, p, _) => topic in w.logs && 0 <= p < |w.logs[topic]|
    case Start(topic, _, groupSize, _) => topic in w.logs && groupSize > 0
    case Poll(m, max, results, cursors') =>
      && m < |w.members| && w.members[m].topic in w.logs
      && Polled(LogsFor(w, w.members[m].topic), w.members[m].cursors, max, results, cursors')
    case CommitAll(m, order) => m < |w.members| && forall p :: p in order ==> p in w.members[m].cursors
  }

  ghost function Next(w: World, e: Event): World
    requires Enabled(w, e)
  {
    match e
    case Publish(topic, p, payload) => w.(logs := w.logs[topic := w.logs[topic][p := w.logs[topic][p] + [payload]]])
    case Start(topic, group, groupSize, index) =>
      var n := |w.logs[topic]|;
      var at := map p | p in Share(index, groupSize, n) :: OffsetOf(w.store, Key(topic, p, group));
      w.(store := RegisteredFor(w.store, topic, group, groupSize, index, n),
         members := w.members + [Member(topic, group, groupSize, index, at, at, [])])
    case Poll(m, max, results, cursors') =>
      w.(members := w.members[m := w.members[m].(cursors := cursors', returned := w.members[m].returned + results)])
    case CommitAll(m, order) =>
      var c := w.members[m];
      w.(store := CommittedFor(w.store, c.topic, c.group, c.cursors, order))
  }

  ghost predicate Run(w: World, events: seq<Event>)
    decreases |events|
  {
    events != [] ==> Enabled(w, events[0]) && Run(Next(w, events[0]), events[1..])
  }

  ghost function After(w: World, events: seq<Event>): World
    requires Run(w, events)
    decreases |events|
  {
    if events == [] then w else After(Next(w, events[0]), events[1..])
  }

  // A broker with empty partitions and no consumer yet.
  function EmptyWorld(counts: map<string, nat>): World {
    World(map t | t in counts :: seq(counts[t], _ => []), NO_STORE, [])
  }

  // ----- What holds in every run -----

  ghost predicate DeliveredTo(w: World, topic: string, group: string, r: PolledRecord) {
    exists i :: 0 <= i < |w.members| && w.members[i].topic == topic && w.members[i].group == group &&
                r in w.members[i].returned
  }

  // Every offset of a partition below `bound` exists and was delivered to the group.
  ghost predicate DeliveredBelow(w: World, k: Key, bound: nat) {
    bound > 0 ==>
      && k.topic in w.logs && 0 <= k.partition < |w.logs[k.topic]| && bound <= |w.logs[k.topic][k.partition]|
      && forall o: nat :: o < bound ==>
           DeliveredTo(w, k.topic, k.group, PolledRecord(k.partition, o, w.logs[k.topic][k.partition][o]))
  }

  // What an instance returned is, partition by partition, consecutive records
  // from where it started.
  ghost predicate Consecutive(w: World, m: Member) {
    && m.topic in w.logs && m.groupSize > 0
    && m.start.Keys == m.cursors.Keys == Share(m.index, m.groupSize, |w.logs[m.topic]|)
    && (forall r :: r in m.returned ==> r.partition in m.cursors)
    && forall p :: p in m.cursors ==> Advanced(p, w.logs[m.topic][p], m.start[p], m.cursors[p], m.returned)
  }

  ghost predicate CursorsDelivered(w: World, m: Member) {
    forall p :: p in m.cursors ==> DeliveredBelow(w, Key(m.topic, p, m.group), m.cursors[p])
  }

  // A partition that exists.
  predicate Real(w: World, k: Key) { k.topic in w.logs && 0 <= k.partition < |w.logs[k.topic]| }

  ghost predicate AllConsecutive(w: World) {
    forall i :: 0 <= i < |w.members| ==> Consecutive(w, w.members[i])
  }

  ghost predicate AllDelivered(w: World) {
    && (forall k: Key :: Real(w, k) ==> DeliveredBelow(w, k, OffsetOf(w.store, k)))
    && (forall i :: 0 <= i < |w.members| ==> CursorsDelivered(w, w.members[i]))
  }

  // No topic spells a partition that another topic has.
  ghost predicate Apart(w: World) {
    forall t, t', p: int :: t in w.logs && t' in w.logs && t != t' && 0 <= p < |w.logs[t]| && |w.logs[t']| > 0 ==>
      !Spells(t, p, t')
  }

  lemma RealKeysApart(w: World, k: Key, k': Key)
    requires Apart(w) && Real(w, k) && Real(w, k') && KeyString(k) == KeyString(k')
    ensures k == k'
  {
    var s, s' := KeyString(k), KeyString(k');
    assert k.topic == s[..|k.topic|] && k'.topic == s'[..|k'.topic|];
    if |k.topic| < |k'.topic| {
      CollisionIsUnder(k.topic, k.partition, k.group, k'.topic, k'.partition, k'.group);
    } else if |k'.topic| < |k.topic| {
      CollisionIsUnder(k'.topic, k'.partition, k'.group, k.topic, k.partition, k.group);
    } else {
      EntryKeyInjective(k.topic, k.partition, k.group, k'.partition, k'.group);
    }
  }

  // ----- Nothing is undone -----

  ghost predicate Grows(w: World, w': World) {
    && w.logs.Keys == w'.logs.Keys
    && (forall t :: t in w.logs ==> |w.logs[t]| == |w'.logs[t]|)
    && (forall t, p :: t in w.logs && 0 <= p < |w.logs[t]| ==> w.logs[t][p] <= w'.logs[t][p])
    && |w.members| <= |w'.members|
    && (forall i :: 0 <= i < |w.members| ==>
          && w.members[i].topic == w'.members[i].topic && w.members[i].group == w'.members[i].group
          && w.members[i].returned <= w'.members[i].returned)
  }

  lemma NextGrows(w: World, e: Event)
    requires Enabled(w, e)
    ensures Grows(w, Next(w, e))
  {
  }

  lemma StillDelivered(w: World, w': World, k: Key, bound: nat)
    requires Grows(w, w') && DeliveredBelow(w, k, bound)
    ensures DeliveredBelow(w', k, bound)
  {
  }

  // ----- Consecutive records -----

  lemma StillConsecutive(w: World, w': World, m: Member)
    requires Grows(w, w') && Consecutive(w, m)
    ensures Consecutive(w', m)
  {
    forall p | p in m.cursors ensures Advanced(p, w'.logs[m.topic][p], m.start[p], m.cursors[p], m.returned) {
      assert w.logs[m.topic][p] <= w'.logs[m.topic][p];
      ExpectedGrows(p, w.logs[m.topic][p], w'.logs[m.topic][p], m.start[p], m.cursors[p]);
    }
  }

  lemma PollConsecutive(w: World, m: nat, max: nat, results: seq<PolledRecord>, cursors': map<int, U64>)
    requires Enabled(w, Poll(m, max, results, cursors')) && Consecutive(w, w.members[m])
    ensures Consecutive(w, w.members[m].(cursors := cursors', returned := w.members[m].returned + results))
  {
    var a := w.members[m];
    var b := a.(cursors := cursors', returned := a.returned + results);
    forall p | p in b.cursors ensures Advanced(p, w.logs[b.topic][p], b.start[p], b.cursors[p], b.returned) {
      var log := w.logs[a.topic][p];
      assert Advanced(p, LogsFor(w, a.topic)[p], a.cursors[p], b.cursors[p], results);
      assert Advanced(p, log, a.start[p], a.cursors[p], a.returned);
      OfConcat(a.returned, results, p);
      ExpectedConcat(p, log, b.start[p], a.cursors[p], b.cursors[p]);
    }
  }

  lemma StepConsecutive(w: World, e: Event)
    requires AllConsecutive(w) && Enabled(w, e)
    ensures AllConsecutive(Next(w, e))
  {
    hide Consecutive, Grows, Polled, CommittedFor, RegisteredFor;
    var w' := Next(w, e);
    NextGrows(w, e);
    forall i | 0 <= i < |w'.members| ensures Consecutive(w', w'.members[i]) {
      if e.Poll? && i == e.m {
        PollConsecutive(w, e.m, e.max, e.results, e.cursors');
        StillConsecutive(w, w', w'.members[i]);
      } else if i < |w.members| {
        StillConsecutive(w, w', w.members[i]);
      } else {
        NewConsecutive(w', w'.members[i]);
      }
    }
  }

  lemma NewConsecutive(w: World, m: Member)
    requires m.topic in w.logs && m.groupSize > 0 && m.start == m.cursors && m.returned == []
    requires m.cursors.Keys == Share(m.index, m.groupSize, |w.logs[m.topic]|)
    ensures Consecutive(w, m)
  {
  }

  // ----- Delivered below every commit -----

  lemma PollDelivered(w: World, w': World, m: nat, max: nat, results: seq<PolledRecord>, cursors': map<int, U64>)
    requires Enabled(w, Poll(m, max, results, cursors')) && w' == Next(w, Poll(m, max, results, cursors'))
    requires CursorsDelivered(w, w.members[m]) && Consecutive(w, w.members[m])
    ensures CursorsDelivered(w', w'.members[m])
  {
    hide Consecutive;
    var a, b := w.members[m], w'.members[m];
    NextGrows(w, Poll(m, max, results, cursors'));
    forall p | p in b.cursors ensures DeliveredBelow(w', Key(b.topic, p, b.group), b.cursors[p]) {
      StillDelivered(w, w', Key(a.topic, p, a.group), a.cursors[p]);
      PollDeliversUpTo(w, w', m, max, results, cursors', p);
    }
  }

  lemma PollDeliversUpTo(w: World, w': World, m: nat, max: nat, results: seq<PolledRecord>, cursors': map<int, U64>,
                         p: int)
    requires Enabled(w, Poll(m, max, results, cursors')) && w' == Next(w, Poll(m, max, results, cursors'))
    requires p in cursors'
    requires DeliveredBelow(w', Key(w.members[m].topic, p, w.members[m].group), w.members[m].cursors[p])
    ensures DeliveredBelow(w', Key(w.members[m].topic, p, w.members[m].group), cursors'[p])
  {
    hide Grows, Consecutive;
    var a, b := w.members[m], w'.members[m];
    var log, from, to := w.logs[a.topic][p], a.cursors[p], cursors'[p];
    assert Advanced(p, LogsFor(w, a.topic)[p], from, to, results);
    if from < to {
      forall o: nat | o < to ensures DeliveredTo(w', a.topic, a.group, PolledRecord(p, o, log[o])) {
        if o >= from {
          ExpectedIn(p, log, from, to, o);
          OfIn(results, p, PolledRecord(p, o, log[o]));
          assert PolledRecord(p, o, log[o]) in b.returned;
        }
      }
    }
  }

  // Committing cursors whose records were delivered keeps every entry honest.
  lemma {:induction false} CommitDelivered(w: World, s: Store, topic: string, group: string, cursors: map<int, U64>,
                                           order: seq<int>, k: Key)
    requires Apart(w) && Real(w, k) && topic in w.logs && forall p :: p in order ==> p in cursors
    requires forall p :: p in cursors ==>
               0 <= p < |w.logs[topic]| && DeliveredBelow(w, Key(topic, p, group), cursors[p])
    requires DeliveredBelow(w, k, OffsetOf(s, k))
    ensures DeliveredBelow(w, k, OffsetOf(CommittedFor(s, topic, group, cursors, order), k))
    decreases |order|
  {
    hide EntryKey, Apart, DeliveredBelow;
    if order != [] {
      var n := |order| - 1;
      assert order[n] in order;
      CommitDelivered(w, s, topic, group, cursors, order[..n], k);
      var mine := Key(topic, order[n], group);
      if KeyString(k) == KeyString(mine) { RealKeysApart(w, k, mine); }
    }
  }

  lemma StepDelivered(w: World, e: Event)
    requires Apart(w) && AllConsecutive(w) && AllDelivered(w) && Enabled(w, e)
    ensures AllDelivered(Next(w, e))
  {
    hide Consecutive, Grows, Polled, CommittedFor, RegisteredFor, CursorsDelivered, DeliveredBelow, Apart, OffsetOf;
    var w' := Next(w, e);
    NextGrows(w, e);
    forall k: Key | Real(w', k) ensures DeliveredBelow(w', k, OffsetOf(w'.store, k)) { KeyDelivered(w, e, k); }
    forall i | 0 <= i < |w'.members| ensures CursorsDelivered(w', w'.members[i]) {
      if e.Poll? && i == e.m {
        PollDelivered(w, w', e.m, e.max, e.results, e.cursors');
      } else if i < |w.members| {
        StillCursors(w, w', w.members[i]);
      } else {
        StartDelivered(w, e);
      }
    }
  }

  lemma StillCursors(w: World, w': World, m: Member)
    requires Grows(w, w') && CursorsDelivered(w, m)
    ensures CursorsDelivered(w', m)
  {
  }

  lemma StartDelivered(w: World, e: Event)
    requires AllDelivered(w) && e.Start? && Enabled(w, e)
    ensures CursorsDelivered(Next(w, e), Next(w, e).members[|w.members|])
  {
    hide Grows, DeliveredBelow, OffsetOf, RegisteredFor;
    var w' := Next(w, e);
    var m := w'.members[|w.members|];
    NextGrows(w, e);
    forall p | p in m.cursors ensures DeliveredBelow(w', Key(m.topic, p, m.group), m.cursors[p]) {
      assert Real(w, Key(m.topic, p, m.group));
      StillDelivered(w, w', Key(m.topic, p, m.group), m.cursors[p]);
    }
  }

  lemma KeyDelivered(w: World, e: Event, k: Key)
    requires Apart(w) && AllConsecutive(w) && AllDelivered(w) && Enabled(w, e) && Real(Next(w, e), k)
    ensures DeliveredBelow(Next(w, e), k, OffsetOf(Next(w, e).store, k))
  {
    hide Grows, DeliveredBelow, OffsetOf, RegisteredFor, CommittedFor, Polled, Apart, Advanced;
    var w' := Next(w, e);
    NextGrows(w, e);
    RealStays(w, w', k);
    if e.Start? {
      RegisteringKeepsOffsets(w.store, e.topic, e.group, e.groupSize, e.index, |w.logs[e.topic]|, k);
    } else if e.CommitAll? {
      var c := w.members[e.m];
      assert Consecutive(w, c) && CursorsDelivered(w, c);
      CommitDelivered(w, w.store, c.topic, c.group, c.cursors, e.order, k);
    }
    StillDelivered(w, w', k, OffsetOf(w'.store, k));
  }

  lemma RealStays(w: World, w': World, k: Key)
    requires Grows(w, w')
    ensures Real(w, k) <==> Real(w', k)
    ensures Apart(w) <==> Apart(w')
  {
  }

  lemma {:induction false} RunConsecutive(w: World, events: seq<Event>)
    requires AllConsecutive(w) && Run(w, events)
    ensures AllConsecutive(After(w, events))
    decreases |events|
  {
    hide AllConsecutive, Enabled, Next;
    if events != [] {
      StepConsecutive(w, events[0]);
      RunConsecutive(Next(w, events[0]), events[1..]);
    }
  }

  lemma {:induction false} RunDelivered(w: World, events: seq<Event>)
    requires Apart(w) && AllConsecutive(w) && AllDelivered(w) && Run(w, events)
    ensures AllDelivered(After(w, events))
    decreases |events|
  {
    hide AllConsecutive, AllDelivered, Enabled, Next, Apart, Grows;
    if events != [] {
      StepConsecutive(w, events[0]);
      StepDelivered(w, events[0]);
      NextGrows(w, events[0]);
      RealStays(w, Next(w, events[0]), Key("", 0, ""));
      RunDelivered(Next(w, events[0]), events[1..]);
    }
  }

  /** Over every run of publishes, polls, commits and (re)starts of consumers
      of any topics and groups: each instance returned, partition by partition,
      consecutive records from where it started. */
  lemma ConsecutiveInEveryRun(counts: map<string, nat>, events: seq<Event>, i: nat, p: int)
    requires Run(EmptyWorld(counts), events) && i < |After(EmptyWorld(counts), events).members|
    requires p in After(EmptyWorld(counts), events).members[i].cursors
    ensures var w := After(EmptyWorld(counts), events);
            var m := w.members[i];
            && p in m.start && m.topic in w.logs && 0 <= p < |w.logs[m.topic]|
            && Advanced(p, w.logs[m.topic][p], m.start[p], m.cursors[p], m.returned)
  {
    RunConsecutive(EmptyWorld(counts), events);
    assert Consecutive(After(EmptyWorld(counts), events), After(EmptyWorld(counts), events).members[i]);
  }

  // Every entry of a partition that exists is honest: all below it was delivered.
  ghost predicate Honest(w: World) {
    forall k: Key :: Real(w, k) ==> DeliveredBelow(w, k, OffsetOf(w.store, k))
  }

  ghost predicate AlwaysHonest(counts: map<string, nat>) {
    forall events: seq<Event> :: Run(EmptyWorld(counts), events) ==> Honest(After(EmptyWorld(counts), events))
  }

  /** Every offset below a committed value was delivered to its group with its
      payload, over every run on shared string keys, exactly when no topic
      spells a partition of another. */
  lemma GroupDelivery(counts: map<string, nat>)
    ensures AlwaysHonest(counts) <==> Apart(EmptyWorld(counts))
  {
    hide Apart, Honest;
    var w := EmptyWorld(counts);
    if Apart(w) {
      forall events: seq<Event> | Run(w, events) ensures Honest(After(w, events)) {
        NothingCommitted(counts);
        RunDelivered(w, events);
        DeliveredIsHonest(After(w, events));
      }
    } else {
      NotApart(counts);
    }
  }

  lemma DeliveredIsHonest(w: World)
    requires AllDelivered(w)
    ensures Honest(w)
  {
  }

  lemma NothingCommitted(counts: map<string, nat>)
    ensures AllConsecutive(EmptyWorld(counts)) && AllDelivered(EmptyWorld(counts))
  {
  }

  lemma NotApart(counts: map<string, nat>)
    requires !Apart(EmptyWorld(counts))
    ensures !AlwaysHonest(counts)
  {
    hide Honest, Spells;
    var w := EmptyWorld(counts);
    var t, t', p: int :| t in w.logs && t' in w.logs && t != t' && 0 <= p < |w.logs[t]| && |w.logs[t']| > 0 &&
                         Spells(t, p, t');
    var events := Dishonest(counts, t, t', p);
  }

  // One record published, polled and committed under a group whose key is also
  // the key of the other topic.
  lemma Dishonest(counts: map<string, nat>, t: string, t': string, p: int) returns (events: seq<Event>)
    requires t in counts && t' in counts && t != t' && 0 <= p < counts[t] && counts[t'] > 0 && Spells(t, p, t')
    ensures Run(EmptyWorld(counts), events) && !Honest(After(EmptyWorld(counts), events))
  {
    hide Spells, EntryKey, Polled, RegisteredFor, CommittedFor, EmptyWorld, Share, Honest, OffsetOf;
    var g := UnderCollides(t, t', p);
    var w0, e1, e2 := EmptyWorld(counts), Publish(t, p, []), Start(t, g, 1, 0);
    PublishedAndStarted(counts, t, p, g);
    var w1 := Next(w0, e1);
    var w2 := Next(w1, e2);
    var c := w2.members[0];
    PrimedPoll(w2, counts, t, p, g);
    var e3, e4 := Poll(0, 1, [PolledRecord(p, 0, [])], c.cursors[p := 1]), CommitAll(0, [p]);
    events := [e1, e2, e3, e4];
    FourEvents(w0, events);
    OneCommit(w2.store, t, g, c.cursors[p := 1], p, Key(t', 0, ""));
    NotHonest(Next(Next(w2, e3), e4), Key(t', 0, ""));
  }

  lemma NotHonest(w: World, k: Key)
    requires Real(w, k) && w.logs[k.topic][k.partition] == [] && OffsetOf(w.store, k) > 0
    ensures !Honest(w)
  {
  }

  lemma OneCommit(s: Store, topic: string, group: string, cursors: map<int, U64>, p: int, k: Key)
    requires p in cursors && EntryKey(topic, p, group) == KeyString(k)
    ensures OffsetOf(CommittedFor(s, topic, group, cursors, [p]), k) == cursors[p]
  {
  }

  // One record in partition p of topic t, and a lone consumer that starts at 0.
  ghost predicate Primed(w: World, counts: map<string, nat>, t: string, p: int, g: string) {
    && w.logs.Keys == counts.Keys && (forall s :: s in counts ==> |w.logs[s]| == counts[s])
    && (forall s, q :: s in counts && 0 <= q < counts[s] ==> w.logs[s][q] == if s == t && q == p then [[]] else [])
    && |w.members| == 1 && w.members[0].topic == t && w.members[0].group == g && t in counts
    && (forall q: int :: q in w.members[0].cursors <==> 0 <= q < counts[t])
    && (forall q: int :: q in w.members[0].cursors ==> w.members[0].cursors[q] == 0)
  }

  lemma PrimedPoll(w: World, counts: map<string, nat>, t: string, p: int, g: string)
    requires Primed(w, counts, t, p, g) && 0 <= p < counts[t]
    ensures p in w.members[0].cursors
    ensures Polled(LogsFor(w, t), w.members[0].cursors, 1, [PolledRecord(p, 0, [])], w.members[0].cursors[p := 1])
  {
    OneRecordPolled(LogsFor(w, t), w.members[0].cursors, p);
  }

  lemma PublishedAndStarted(counts: map<string, nat>, t: string, p: int, g: string)
    requires t in counts && 0 <= p < counts[t]
    ensures Enabled(EmptyWorld(counts), Publish(t, p, []))
    ensures Enabled(Next(EmptyWorld(counts), Publish(t, p, [])), Start(t, g, 1, 0))
    ensures Primed(Next(Next(EmptyWorld(counts), Publish(t, p, [])), Start(t, g, 1, 0)), counts, t, p, g)
  {
  }

  lemma FourEvents(w: World, events: seq<Event>)
    requires |events| == 4 && Enabled(w, events[0])
    requires var w1 := Next(w, events[0]);
             && Enabled(w1, events[1])
             && var w2 := Next(w1, events[1]);
                && Enabled(w2, events[2])
                && Enabled(Next(w2, events[2]), events[3])
    ensures Run(w, events)
    ensures After(w, events) == Next(Next(Next(Next(w, events[0]), events[1]), events[2]), events[3])
  {
    hide Enabled, Next;
    var w1 := Next(w, events[0]);
    var w2 := Next(w1, events[1]);
    var w3 := Next(w2, events[2]);
    var w4 := Next(w3, events[3]);
    assert events[1..][1..] == events[2..] && events[2..][1..] == events[3..] && events[3..][1..] == [];
    assert Run(w4, []);
    assert Run(w3, events[3..]) && Run(w2, events[2..]) && Run(w1, events[1..]);
    assert After(w3, events[3..]) == w4;
    assert After(w2, events[2..]) == w4;
    assert After(w1, events[1..]) == w4;
  }

  lemma OneRecordPolled(logs: map<int, seq<Bytes>>, a: map<int, U64>, p: int)
    requires p in a
    requires forall q :: q in a ==> q in logs && a[q] == 0 && logs[q] == if q == p then [[]] else []
    ensures Polled(logs, a, 1, [PolledRecord(p, 0, [])], a[p := 1])
  {
    var results := [PolledRecord(p, 0, [])];
    forall q | q in a ensures Advanced(q, logs[q], a[q], a[p := 1][q], results) { OneRecordOf(logs[q], p, q); }
  }

  lemma OneRecordOf(log: seq<Bytes>, p: int, q: int)
    requires log == if q == p then [[]] else []
    ensures Advanced(q, log, 0, if q == p then 1 else 0, [PolledRecord(p, 0, [])])
  {
  }

  // ----- No double delivery -----

  // In a partition where the polled records are consecutive, no offset comes twice.
  lemma {:induction false} OffsetsIncrease(results: seq<PolledRecord>, p: int, log: seq<Bytes>, a: nat, b: nat,
                                           x: nat, y: nat)
    requires Advanced(p, log, a, b, results) && x < y < |results|
    requires results[x].partition == results[y].partition == p
    ensures results[x].offset < results[y].offset
    decreases |results|
  {
    var n := |results| - 1;
    var init := results[..n];
    if results[n].partition != p {
      OffsetsIncrease(init, p, log, a, b, x, y);
    } else {
      LastExpected(p, log, a, b, Of(init, p), results[n]);
      if y < n {
        OffsetsIncrease(init, p, log, a, b - 1, x, y);
      } else {
        InOf(init, p, x);
        ExpectedBelow(p, log, a, b - 1, results[x]);
      }
    }
  }

  lemma LastExpected(p: int, log: seq<Bytes>, a: nat, b: nat, init: seq<PolledRecord>, last: PolledRecord)
    requires a <= b && (a < b ==> b <= |log|) && init + [last] == Expected(p, log, a, b)
    ensures a < b && last.offset == b - 1 && init == Expected(p, log, a, b - 1)
  {
    var e := Expected(p, log, a, b);
    assert e == Expected(p, log, a, b - 1) + [PolledRecord(p, b - 1, log[b - 1])];
    assert init == e[..|init|] && last == e[|init|];
  }

  lemma {:induction false} InOf(results: seq<PolledRecord>, p: int, x: nat)
    requires x < |results| && results[x].partition == p
    ensures results[x] in Of(results, p)
  {
    var n := |results| - 1;
    if x < n { InOf(results[..n], p, x); }
  }

  lemma {:induction false} ExpectedBelow(p: int, log: seq<Bytes>, a: nat, b: nat, r: PolledRecord)
    requires (a < b ==> b <= |log|) && r in Expected(p, log, a, b)
    ensures a <= r.offset < b
    decreases b
  {
    if a < b && r in Expected(p, log, a, b - 1) { ExpectedBelow(p, log, a, b - 1, r); }
  }

  // Instances of one group agree on its size and have different indices.
  ghost predicate OnePerIndex(w: World) {
    forall i, j :: 0 <= i < j < |w.members| && w.members[i].topic == w.members[j].topic &&
                   w.members[i].group == w.members[j].group ==>
      w.members[i].groupSize == w.members[j].groupSize && w.members[i].index != w.members[j].index
  }

  /** No double delivery within a group: over every run in which a group has one
      instance per index, no offset of a partition is returned twice. */
  lemma NoDoubleDelivery(counts: map<string, nat>, events: seq<Event>, i: nat, x: nat, j: nat, y: nat)
    requires Run(EmptyWorld(counts), events) && OnePerIndex(After(EmptyWorld(counts), events))
    requires var w := After(EmptyWorld(counts), events);
             && i < |w.members| && j < |w.members| && x < |w.members[i].returned| && y < |w.members[j].returned|
             && w.members[i].topic == w.members[j].topic && w.members[i].group == w.members[j].group
             && w.members[i].returned[x].partition == w.members[j].returned[y].partition
             && w.members[i].returned[x].offset == w.members[j].returned[y].offset
    ensures i == j && x == y
  {
    hide Run, After, Advanced;
    var w := After(EmptyWorld(counts), events);
    NothingCommitted(counts);
    RunConsecutive(EmptyWorld(counts), events);
    var a, b := w.members[i], w.members[j];
    assert Consecutive(w, a) && Consecutive(w, b);
    var p := a.returned[x].partition;
    assert a.returned[x] in a.returned && b.returned[y] in b.returned;
    assert p in Share(a.index, a.groupSize, |w.logs[a.topic]|) && p in Share(b.index, b.groupSize, |w.logs[a.topic]|);
    if i == j && x != y {
      var lo, hi := if x < y then x else y, if x < y then y else x;
      OffsetsIncrease(a.returned, p, w.logs[a.topic][p], a.start[p], a.cursors[p], lo, hi);
    }
  }
}

/** A consumer of one topic, in a group of consumers. */
module Consumers {
  import opened Options
  import opened Crc32
  import opened Segments
  import opened Recovery
  import opened Logs
  import opened OffsetKeys
  import opened OffsetStores
  import opened Delivery

  // The payloads of each partition.
  ghost function LogsOf(partitions: seq<Log>): (m: map<int, seq<Bytes>>)
    reads partitions
    ensures forall p: int :: p in m <==> 0 <= p < |partitions|
  {
    map p: int | 0 <= p < |partitions| :: partitions[p].contents
  }

  class Consumer {
    const partitions: seq<Log>
    const topic: string
    const group: string
    const store: OffsetStore
    var cursors: map<int, U64>

    ghost predicate Valid()
      reads this
    {
      forall p :: p in cursors ==> 0 <= p < |partitions|
    }

    /** A new member owns exactly its share of the partitions, registers the
        group for them and starts where the group last committed. */
    constructor (partitions: seq<Log>, topic: string, group: string, groupSize: int, index: int, store: OffsetStore)
      requires groupSize > 0
      modifies store
      ensures Valid() && this.partitions == partitions && this.store == store
      ensures this.topic == topic && this.group == group
      ensures cursors.Keys == Share(index, groupSize, |partitions|)
      ensures forall p :: p in cursors ==> cursors[p] == OffsetOf(old(store.Contents()), Key(topic, p, group))
      ensures store.Contents() == RegisteredFor(old(store.Contents()), topic, group, groupSize, index, |partitions|)
      ensures forall p :: p in cursors ==> group in GroupsOf(store.groupsByPartition, PartitionKey(topic, p))
    {
      hide EntryKey, PartitionKey;
      ghost var before := store.Contents();
      var found: map<int, U64> := map[];
      for p := 0 to |partitions|
        invariant store.Contents() == RegisteredFor(before, topic, group, groupSize, index, p)
        invariant found.Keys == set q: int | 0 <= q < p && Owns(index, groupSize, q)
        invariant forall q :: q in found ==> found[q] == OffsetOf(before, Key(topic, q, group))
      {
        if Owns(index, groupSize, p) {
          store.RegisterGroup(topic, p, group);
          var committed := store.GetOffset(topic, p, group);
          RegisteringKeepsOffsets(before, topic, group, groupSize, index, p + 1, Key(topic, p, group));
          found := found[p := if committed.Some? then committed.value else 0];
        }
      }
      forall p | p in found ensures group in GroupsOf(store.Contents().groups, PartString(Part(topic, p))) {
        RegisteringJoins(before, topic, group, groupSize, index, |partitions|, Part(topic, p), group);
      }
      this.partitions, this.topic, this.group, this.store := partitions, topic, group, store;
      cursors := found;
    }

    // What polling has done when the partitions in `left` are still untouched.
    ghost predicate PolledSoFar(logs: map<int, seq<Bytes>>, before: map<int, U64>, left: set<int>, max: nat,
                                results: seq<PolledRecord>)
      reads this
    {
      && cursors.Keys == before.Keys <= logs.Keys && left <= before.Keys
      && (forall p :: p in before ==> Advanced(p, logs[p], before[p], cursors[p], results))
      && (forall r :: r in results ==> r.partition in before)
      && |results| <= max
      && (|results| < max ==> forall p :: p in before && p !in left ==> |logs[p]| <= cursors[p])
    }

    /** A poll returns what `Polled` allows: for every assigned partition the
        next records in order, and fewer than `max` only if all have run dry. */
    method Poll(max: nat) returns (results: seq<PolledRecord>)
      requires Valid()
      requires forall l :: l in partitions ==> l.Valid() && |l.contents| <= U64_MAX
      modifies this
      ensures Valid() && Polled(LogsOf(partitions), old(cursors), max, results, cursors)
    {
      hide Log.Valid, Advanced;
      ghost var logs, before := LogsOf(partitions), cursors;
      results := [];
      NothingPolled(logs, max);
      var left := cursors.Keys;
      while left != {}
        invariant PolledSoFar(logs, before, left, max, results) && Valid()
        decreases left
      {
        var p := PickOne(left);
        left := left - {p};
        results := Drain(p, max, results, before, left);
        if |results| >= max { break; }
      }
    }

    lemma NothingPolled(logs: map<int, seq<Bytes>>, max: nat)
      requires cursors.Keys <= logs.Keys
      ensures PolledSoFar(logs, cursors, cursors.Keys, max, [])
    {
    }

    // The inner loop: read one partition until it runs dry or enough is read.
    method Drain(p: int, max: nat, sofar: seq<PolledRecord>, ghost before: map<int, U64>, ghost left: set<int>)
        returns (results: seq<PolledRecord>)
      requires Valid() && p in cursors && p !in left
      requires forall l :: l in partitions ==> l.Valid() && |l.contents| <= U64_MAX
      requires PolledSoFar(LogsOf(partitions), before, left + {p}, max, sofar)
      modifies this
      ensures Valid() && PolledSoFar(LogsOf(partitions), before, left, max, results)
    {
      hide Log.Valid, Advanced;
      results := sofar;
      ghost var logs := LogsOf(partitions);
      while |results| < max
        invariant PolledSoFar(logs, before, left + {p}, max, results) && Valid()
        decreases max - |results|
      {
        var rec := ReadPartition(partitions[p], cursors[p]);
        if rec == None { break; }
        var r := PolledRecord(p, rec.value.offset, rec.value.payload);
        OneMore(logs, before, results, r, cursors);
        results := results + [r];
        cursors := cursors[p := cursors[p] + 1];
      }
    }

    static lemma OneMore(logs: map<int, seq<Bytes>>, before: map<int, U64>, results: seq<PolledRecord>, r: PolledRecord,
                         cursors: map<int, nat>)
      requires cursors.Keys == before.Keys <= logs.Keys && r.partition in cursors
      requires forall p :: p in before ==> Advanced(p, logs[p], before[p], cursors[p], results)
      requires r.offset == cursors[r.partition] < |logs[r.partition]| && r.payload == logs[r.partition][r.offset]
      ensures forall p :: p in before ==>
                Advanced(p, logs[p], before[p], if p == r.partition then cursors[p] + 1 else cursors[p], results + [r])
    {
    }

    // The store's keys for this consumer's partitions.
    function CursorKeys(): set<string>
      reads this
    {
      set p | p in cursors :: EntryKey(topic, p, group)
    }

    /** Commits the cursor of every assigned partition, in some order, and
        nothing else. */
    method Commit() returns (ghost order: seq<int>)
      requires Valid()
      modifies store
      ensures (forall p :: p in order <==> p in cursors)
      ensures store.Contents() == CommittedFor(old(store.Contents()), topic, group, cursors, order)
      ensures forall p :: p in cursors ==> OffsetOf(store.Contents(), Key(topic, p, group)) == cursors[p]
      ensures forall e :: e !in CursorKeys() ==> Lookup(store.entries, e) == Lookup(old(store.entries), e)
      ensures store.groupsByPartition == old(store.groupsByPartition)
    {
      hide EntryKey;
      var left := cursors.Keys;
      order := [];
      while left != {}
        invariant left <= cursors.Keys && forall p :: p in order <==> p in cursors && p !in left
        invariant store.Contents() == CommittedFor(old(store.Contents()), topic, group, cursors, order)
        invariant forall p :: p in cursors && p !in left ==>
                    OffsetOf(store.Contents(), Key(topic, p, group)) == cursors[p]
        invariant forall e :: e !in CursorKeys() ==> Lookup(store.entries, e) == Lookup(old(store.entries), e)
        invariant store.groupsByPartition == old(store.groupsByPartition)
        decreases left
      {
        var p := PickOne(left);
        store.CommitOffset(topic, p, group, cursors[p]);
        forall q | q in cursors && EntryKey(topic, q, group) == EntryKey(topic, p, group) ensures q == p {
          EntryKeyInjective(topic, q, group, p, group);
        }
        assert (order + [p])[..|order|] == order;
        order := order + [p];
        left := left - {p};
      }
    }
  }

  // The next of the keys still to be visited, in no particular order.
  method PickOne<T>(left: set<T>) returns (p: T)
    requires left != {}
    ensures p in left
  {
    p :| p in left;
  }

  // Reading a partition reads its log.
  method ReadPartition(l: Log, k: nat) returns (r: Option<ReadResult>)
    requires l.Valid()
    ensures r == if k < |l.contents| then Some(ReadResult(k, l.contents[k])) else None
  {
    hide Log.Valid, Log.Readable;
    l.HoldsContents(k);
    r := l.Read(k);
  }
}
