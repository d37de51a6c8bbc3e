/** The replicated state machine: topics, brokers, a counter and cluster nodes.
    Times are nanoseconds since the epoch; commands carry milliseconds. */
module ReplicatedFsm {
  import opened Options

  const NANOS_PER_MS: int := 1_000_000

  datatype Topic = Topic(name: string, numPartitions: int)

  datatype Broker = Broker(id: string, address: string, lastHeartbeat: int)

  datatype NodeInfo = NodeInfo(id: string, raftAddr: string, grpcAddr: string)

  datatype State = State(
    topics: map<string, Topic>, brokers: map<string, Broker>, counter: int, nodes: map<string, NodeInfo>)

  datatype Command =
    | Malformed
    | UnknownKind
    | CreateTopic(name: string, numPartitions: int)
    | RegisterBroker(id: string, address: string, timestampMs: int)
    | Heartbeat(id: string, timestampMs: int)
    | IncrementCounter
    | RegisterNode(id: string, raftAddr: string, grpcAddr: string)

  datatype Error = MalformedCommand | UnknownCommand | TopicExists | BadPartitionCount | UnregisteredBroker

  datatype Result = Done | Value(value: int) | Failed(error: Error)

  const INITIAL: State := State(map[], map[], 0, map[])

  // The time a command carries, or the replica's own clock.
  function At(timestampMs: int, clock: int): int {
    if timestampMs != 0 then timestampMs * NANOS_PER_MS else clock
  }

  function Create(s: State, name: string, numPartitions: int): (State, Result) {
    if name in s.topics then (s, Failed(TopicExists))
    else if numPartitions <= 0 then (s, Failed(BadPartitionCount))
    else (s.(topics := s.topics[name := Topic(name, numPartitions)]), Done)
  }

  // A carried timestamp never moves a heartbeat backwards; the clock may.
  function Beat(s: State, id: string, timestampMs: int, clock: int): (State, Result) {
    if id !in s.brokers then (s, Failed(UnregisteredBroker))
    else
      var rec, at := s.brokers[id], At(timestampMs, clock);
      (if timestampMs != 0 && at <= rec.lastHeartbeat then s
       else s.(brokers := s.brokers[id := rec.(lastHeartbeat := at)]),
       Done)
  }

  function Applied(s: State, cmd: Command, clock: int): (State, Result) {
    match cmd
    case Malformed => (s, Failed(MalformedCommand))
    case UnknownKind => (s, Failed(UnknownCommand))
    case CreateTopic(name, n) => Create(s, name, n)
    case RegisterBroker(id, address, ts) => (s.(brokers := s.brokers[id := Broker(id, address, At(ts, clock))]), Done)
    case Heartbeat(id, ts) => Beat(s, id, ts, clock)
    case IncrementCounter => (s.(counter := s.counter + 1), Value(s.counter + 1))
    case RegisterNode(id, raft, grpc) => (s.(nodes := s.nodes[id := NodeInfo(id, raft, grpc)]), Done)
  }

  // ----- Snapshots -----

  datatype BrokerEntry = BrokerEntry(id: string, address: string, lastHeartbeatMs: int)

  datatype Snapshot = Snapshot(topics: seq<Topic>, brokers: seq<BrokerEntry>, counter: int, nodes: seq<NodeInfo>)

  function ToEntry(b: Broker): BrokerEntry { BrokerEntry(b.id, b.address, b.lastHeartbeat / NANOS_PER_MS) }

  function FromEntry(e: BrokerEntry): Broker { Broker(e.id, e.address, e.lastHeartbeatMs * NANOS_PER_MS) }

  // A map rebuilt from a list of its values; a later entry wins.
  function IndexBy<T>(list: seq<T>, key: T -> string): map<string, T> {
    if list == [] then map[]
    else
      var n := |list| - 1;
      IndexBy(list[..n], key)[key(list[n]) := list[n]]
  }

  function Entries(brokers: seq<Broker>): seq<BrokerEntry> {
    seq(|brokers|, i requires 0 <= i < |brokers| => ToEntry(brokers[i]))
  }

  function Brokers(entries: seq<BrokerEntry>): seq<Broker> {
    seq(|entries|, i requires 0 <= i < |entries| => FromEntry(entries[i]))
  }

  function Restored(snap: Snapshot): State {
    State(IndexBy(snap.topics, (t: Topic) => t.name),
          IndexBy(Brokers(snap.brokers), (b: Broker) => b.id),
          snap.counter,
          IndexBy(snap.nodes, (n: NodeInfo) => n.id))
  }

  // A snapshot lists the values of each map once, in any order.
  ghost predicate IsSnapshot(snap: Snapshot, s: State) {
    && (forall t :: t in snap.topics <==> t in s.topics.Values)
    && (forall e :: e in snap.brokers <==> exists b :: b in s.brokers.Values && e == ToEntry(b))
    && snap.counter == s.counter
    && (forall n :: n in snap.nodes <==> n in s.nodes.Values)
  }

  // Records are filed under their own names.
  ghost predicate Keyed(s: State) {
    && (forall k :: k in s.topics ==> s.topics[k].name == k)
    && (forall k :: k in s.brokers ==> s.brokers[k].id == k)
    && (forall k :: k in s.nodes ==> s.nodes[k].id == k)
  }

  ghost predicate WholeMs(s: State) {
    forall k :: k in s.brokers ==> s.brokers[k].lastHeartbeat % NANOS_PER_MS == 0
  }

  // A state with its times cut to whole milliseconds.
  function Truncated(s: State): State {
    s.(brokers := map k | k in s.brokers :: FromEntry(ToEntry(s.brokers[k])))
  }

  lemma {:induction false} IndexByIs<T>(list: seq<T>, key: T -> string)
    ensures forall x :: x in list ==> key(x) in IndexBy(list, key)
    ensures forall k :: k in IndexBy(list, key) ==> IndexBy(list, key)[k] in list && key(IndexBy(list, key)[k]) == k
  {
    if list != [] {
      var n := |list| - 1;
      IndexByIs(list[..n], key);
      assert list == list[..n] + [list[n]];
    }
  }

  lemma IndexOfValues<T>(list: seq<T>, m: map<string, T>, key: T -> string)
    requires forall k :: k in m ==> key(m[k]) == k
    requires forall x :: x in list <==> x in m.Values
    ensures IndexBy(list, key) == m
  {
    IndexByIs(list, key);
    var r := IndexBy(list, key);
    forall k ensures k in r <==> k in m {
      if k in m { assert m[k] in m.Values; }
      if k in r { assert r[k] in m.Values; }
    }
    forall k | k in m ensures r[k] == m[k] { assert r[k] in m.Values; }
  }

  lemma RestoredBrokers(entries: seq<BrokerEntry>, brokers: map<string, Broker>)
    requires forall e :: e in entries <==> exists b :: b in brokers.Values && e == ToEntry(b)
    ensures var m := map k | k in brokers :: FromEntry(ToEntry(brokers[k]));
            forall x :: x in Brokers(entries) <==> x in m.Values
  {
    var m := map k | k in brokers :: FromEntry(ToEntry(brokers[k]));
    forall x ensures x in Brokers(entries) <==> x in m.Values {
      if x in Brokers(entries) {
        var i :| 0 <= i < |entries| && x == Brokers(entries)[i];
        assert entries[i] in entries;
        var b :| b in brokers.Values && entries[i] == ToEntry(b);
        var k :| k in brokers && brokers[k] == b;
        assert m[k] == x;
      }
      if x in m.Values {
        var k :| k in m && m[k] == x;
        assert brokers[k] in brokers.Values;
        assert ToEntry(brokers[k]) in entries;
        var i :| 0 <= i < |entries| && entries[i] == ToEntry(brokers[k]);
        assert Brokers(entries)[i] == x;
      }
    }
  }

  /** Restoring any snapshot of a state gives that state with times cut to
      whole milliseconds: the state itself exactly when its times are whole. */
  lemma RestoreSnapshot(s: State, snap: Snapshot)
    requires Keyed(s) && IsSnapshot(snap, s)
    ensures Restored(snap) == Truncated(s)
    ensures Restored(snap) == s <==> WholeMs(s)
  {
    IndexOfValues(snap.topics, s.topics, (t: Topic) => t.name);
    IndexOfValues(snap.nodes, s.nodes, (n: NodeInfo) => n.id);
    RestoredBrokers(snap.brokers, s.brokers);
    IndexOfValues(Brokers(snap.brokers), Truncated(s).brokers, (b: Broker) => b.id);
    TruncatedIffWhole(s);
  }

  lemma TruncatedIffWhole(s: State)
    ensures Truncated(s) == s <==> WholeMs(s)
  {
  }

  // ----- Whole logs -----

  // Every register and heartbeat command carries a time.
  predicate Timestamped(cmd: Command) {
    (cmd.RegisterBroker? ==> cmd.timestampMs != 0) && (cmd.Heartbeat? ==> cmd.timestampMs != 0)
  }

  // Applying a log; `clocks` is what the replica's clock says at each command.
  function Run(s: State, log: seq<Command>, clocks: seq<int>): State
    requires |log| == |clocks|
    decreases |log|
  {
    if log == [] then s else Run(Applied(s, log[0], clocks[0]).0, log[1..], clocks[1..])
  }

  function Results(s: State, log: seq<Command>, clocks: seq<int>): (r: seq<Result>)
    requires |log| == |clocks|
    ensures |r| == |log|
    decreases |log|
  {
    if log == [] then []
    else [Applied(s, log[0], clocks[0]).1] + Results(Applied(s, log[0], clocks[0]).0, log[1..], clocks[1..])
  }

  lemma StepKeeps(s: State, cmd: Command, clock: int)
    requires Keyed(s)
    ensures Keyed(Applied(s, cmd, clock).0)
    ensures WholeMs(s) && Timestamped(cmd) ==> WholeMs(Applied(s, cmd, clock).0)
  {
    if cmd.RegisterBroker? || cmd.Heartbeat? {
      WholeTime(cmd.timestampMs);
      var s' := Applied(s, cmd, clock).0;
      assert forall k :: k in s'.brokers && k != cmd.id ==> k in s.brokers && s'.brokers[k] == s.brokers[k];
    }
  }

  lemma WholeTime(ms: int)
    ensures (ms * NANOS_PER_MS) % NANOS_PER_MS == 0
  {
  }

  lemma {:induction false} RunKeeps(s: State, log: seq<Command>, clocks: seq<int>)
    requires |log| == |clocks| && Keyed(s)
    ensures Keyed(Run(s, log, clocks))
    ensures WholeMs(s) && (forall c :: c in log ==> Timestamped(c)) ==> WholeMs(Run(s, log, clocks))
    decreases |log|
  {
    if log != [] {
      StepKeeps(s, log[0], clocks[0]);
      RunKeeps(Applied(s, log[0], clocks[0]).0, log[1..], clocks[1..]);
    }
  }

  lemma {:induction false} Deterministic(s: State, log: seq<Command>, clocks: seq<int>, clocks': seq<int>)
    requires |log| == |clocks| == |clocks'| && forall c :: c in log ==> Timestamped(c)
    ensures Run(s, log, clocks) == Run(s, log, clocks') && Results(s, log, clocks) == Results(s, log, clocks')
    decreases |log|
  {
    if log != [] {
      assert log[0] in log;
      Deterministic(Applied(s, log[0], clocks[0]).0, log[1..], clocks[1..], clocks'[1..]);
    }
  }

  lemma {:induction false} RunConcat(s: State, a: seq<Command>, b: seq<Command>, ca: seq<int>, cb: seq<int>)
    requires |a| == |ca| && |b| == |cb|
    ensures Run(s, a + b, ca + cb) == Run(Run(s, a, ca), b, cb)
    ensures Results(s, a + b, ca + cb) == Results(s, a, ca) + Results(Run(s, a, ca), b, cb)
    decreases |a|
  {
    if a == [] {
      assert a + b == b && ca + cb == cb;
    } else {
      assert (a + b)[1..] == a[1..] + b && (ca + cb)[1..] == ca[1..] + cb;
      RunConcat(Applied(s, a[0], ca[0]).0, a[1..], b, ca[1..], cb);
    }
  }

  /** Snapshot equivalence: for every log of timestamped commands and every
      cut, a replica that restores any snapshot taken at the cut and applies
      the rest has the state, and gives the later results, of a replica that
      applied the whole log, whatever their clocks say. */
  lemma SnapshotEquivalence(before: seq<Command>, after: seq<Command>, snap: Snapshot,
                            taken: seq<int>, joined: seq<int>, whole: seq<int>)
    requires |taken| == |before| && |joined| == |after| && |whole| == |before| + |after|
    requires forall c :: c in before + after ==> Timestamped(c)
    requires IsSnapshot(snap, Run(INITIAL, before, taken))
    ensures Run(Restored(snap), after, joined) == Run(INITIAL, before + after, whole)
    ensures Results(Restored(snap), after, joined) == Results(INITIAL, before + after, whole)[|before|..]
  {
    var s := Run(INITIAL, before, taken);
    assert forall c :: c in before ==> c in before + after;
    assert forall c :: c in after ==> c in before + after;
    RunKeeps(INITIAL, before, taken);
    RestoreSnapshot(s, snap);
    RunConcat(INITIAL, before, after, taken, joined);
    Deterministic(INITIAL, before + after, taken + joined, whole);
  }

  /** A command ignores the replica's clock exactly when it carries a
      timestamp, if it needs one. */
  lemma ClockIgnoredIff(cmd: Command)
    ensures (forall s, clock, clock' :: Applied(s, cmd, clock) == Applied(s, cmd, clock')) <==> Timestamped(cmd)
  {
    if !Timestamped(cmd) {
      var s := INITIAL.(brokers := map[cmd.id := Broker(cmd.id, "", 0)]);
      var a, b := Applied(s, cmd, 1).0, Applied(s, cmd, 2).0;
      assert a.brokers[cmd.id].lastHeartbeat == 1 && b.brokers[cmd.id].lastHeartbeat == 2;
    }
  }

  /** A registration or heartbeat without a timestamp is restored from a
      snapshot as it was exactly when the clock that stamped it showed a whole
      millisecond. */
  lemma ClockStampRestoredIff(s: State, cmd: Command, clock: int, snap: Snapshot)
    requires Keyed(s) && WholeMs(s) && !Timestamped(cmd)
    requires IsSnapshot(snap, Applied(s, cmd, clock).0)
    ensures Restored(snap) == Applied(s, cmd, clock).0 <==>
            clock % 1_000_000 == 0 || (cmd.Heartbeat? && cmd.id !in s.brokers)
  {
    var s' := Applied(s, cmd, clock).0;
    StepKeeps(s, cmd, clock);
    RestoreSnapshot(s', snap);
    if cmd.RegisterBroker? || cmd.id in s.brokers {
      assert s'.brokers[cmd.id].lastHeartbeat == clock;
    }
  }

  /** Topics never change once created. */
  lemma {:induction false} TopicsAreImmutable(s: State, log: seq<Command>, clocks: seq<int>, name: string)
    requires |log| == |clocks| && name in s.topics
    ensures name in Run(s, log, clocks).topics && Run(s, log, clocks).topics[name] == s.topics[name]
    decreases |log|
  {
    if log != [] { TopicsAreImmutable(Applied(s, log[0], clocks[0]).0, log[1..], clocks[1..], name); }
  }

  // The topic a log first creates under a name, with a positive partition count.
  function FirstCreation(log: seq<Command>, name: string): Option<Topic> {
    if log == [] then None
    else if log[0].CreateTopic? && log[0].name == name && log[0].numPartitions > 0
    then Some(Topic(name, log[0].numPartitions))
    else FirstCreation(log[1..], name)
  }

  /** A topic is what the first valid command to create it said. */
  lemma {:induction false} TopicIsFirstCreation(s: State, log: seq<Command>, clocks: seq<int>, name: string)
    requires |log| == |clocks| && name !in s.topics
    ensures var topics := Run(s, log, clocks).topics;
            (if name in topics then Some(topics[name]) else None) == FirstCreation(log, name)
    decreases |log|
  {
    if log != [] {
      var s' := Applied(s, log[0], clocks[0]).0;
      if name in s'.topics {
        TopicsAreImmutable(s', log[1..], clocks[1..], name);
      } else {
        TopicIsFirstCreation(s', log[1..], clocks[1..], name);
      }
    }
  }

  // The broker record after a log, starting from `rec`: a registration creates
  // it or replaces it, and the latest time since then is the heartbeat.
  function BrokerAfter(log: seq<Command>, id: string, rec: Option<Broker>): Option<Broker>
    decreases |log|
  {
    if log == [] then rec
    else if log[0].RegisterBroker? && log[0].id == id
    then BrokerAfter(log[1..], id, Some(Broker(id, log[0].address, log[0].timestampMs * NANOS_PER_MS)))
    else if log[0].Heartbeat? && log[0].id == id && rec.Some?
    then
      var at := Max(rec.value.lastHeartbeat, log[0].timestampMs * NANOS_PER_MS);
      BrokerAfter(log[1..], id, Some(rec.value.(lastHeartbeat := at)))
    else BrokerAfter(log[1..], id, rec)
  }

  function Max(a: int, b: int): int { if a < b then b else a }

  function Find<T>(m: map<string, T>, id: string): Option<T> { if id in m then Some(m[id]) else None }

  /** Heartbeats never move a broker back in time: a broker's record is its
      last registration with the latest heartbeat since, in whatever order the
      heartbeats come, and there is one exactly if it was registered. */
  lemma {:induction false} BrokerIsLatest(s: State, log: seq<Command>, clocks: seq<int>, id: string)
    requires |log| == |clocks| && forall c :: c in log ==> Timestamped(c)
    ensures Find(Run(s, log, clocks).brokers, id) == BrokerAfter(log, id, Find(s.brokers, id))
    decreases |log|
  {
    if log != [] {
      assert log[0] in log;
      BrokerIsLatest(Applied(s, log[0], clocks[0]).0, log[1..], clocks[1..], id);
    }
  }

  // Command i is the last of the log to register a node under this id.
  predicate LastNode(log: seq<Command>, id: string, i: nat) {
    && i < |log| && log[i].RegisterNode? && log[i].id == id
    && forall j :: i < j < |log| ==> !(log[j].RegisterNode? && log[j].id == id)
  }

  lemma {:induction false} NodeKept(s: State, log: seq<Command>, clocks: seq<int>, id: string)
    requires |log| == |clocks| && forall j :: 0 <= j < |log| ==> !(log[j].RegisterNode? && log[j].id == id)
    ensures Find(Run(s, log, clocks).nodes, id) == Find(s.nodes, id)
    decreases |log|
  {
    if log != [] {
      assert !(log[0].RegisterNode? && log[0].id == id);
      NodeKept(Applied(s, log[0], clocks[0]).0, log[1..], clocks[1..], id);
    }
  }

  /** A node has the addresses of its last registration. */
  lemma {:induction false} NodeIsLatest(s: State, log: seq<Command>, clocks: seq<int>, id: string, i: nat)
    requires |log| == |clocks| && LastNode(log, id, i)
    ensures var nodes := Run(s, log, clocks).nodes;
            && id in nodes && nodes[id].id == id
            && nodes[id].raftAddr == log[i].raftAddr && nodes[id].grpcAddr == log[i].grpcAddr
    decreases |log|
  {
    var s' := Applied(s, log[0], clocks[0]).0;
    if i == 0 {
      forall j | 0 <= j < |log[1..]| ensures !(log[1..][j].RegisterNode? && log[1..][j].id == id) {
        assert log[1..][j] == log[j + 1];
      }
      NodeKept(s', log[1..], clocks[1..], id);
    } else {
      NodeIsLatest(s', log[1..], clocks[1..], id, i - 1);
    }
  }

  /** And there is one exactly if it was registered. */
  lemma NodeIffRegistered(log: seq<Command>, clocks: seq<int>, id: string)
    requires |log| == |clocks|
    ensures id in Run(INITIAL, log, clocks).nodes <==>
            exists j :: 0 <= j < |log| && log[j].RegisterNode? && log[j].id == id
  {
    if j :| 0 <= j < |log| && log[j].RegisterNode? && log[j].id == id {
      var i := FindLastNode(log, id, j);
      NodeIsLatest(INITIAL, log, clocks, id, i);
    } else {
      NodeKept(INITIAL, log, clocks, id);
    }
  }

  lemma {:induction false} FindLastNode(log: seq<Command>, id: string, j: nat) returns (i: nat)
    requires j < |log| && log[j].RegisterNode? && log[j].id == id
    ensures LastNode(log, id, i)
    decreases |log| - j
  {
    i := j;
    if k :| j < k < |log| && log[k].RegisterNode? && log[k].id == id { i := FindLastNode(log, id, k); }
  }

  // What a command answers, from the commands before it.
  function Answer(before: seq<Command>, cmd: Command): Result {
    match cmd
    case Malformed => Failed(MalformedCommand)
    case UnknownKind => Failed(UnknownCommand)
    case CreateTopic(name, n) =>
      if FirstCreation(before, name).Some? then Failed(TopicExists)
      else if n > 0 then Done
      else Failed(BadPartitionCount)
    case Heartbeat(id, _) => if Registers(before, id) then Done else Failed(UnregisteredBroker)
    case IncrementCounter => Value(Increments(before) + 1)
    case _ => Done
  }

  predicate Registers(log: seq<Command>, id: string) {
    exists j :: 0 <= j < |log| && log[j].RegisterBroker? && log[j].id == id
  }

  lemma {:induction false} BrokerIffRegistered(s: State, log: seq<Command>, clocks: seq<int>, id: string)
    requires |log| == |clocks|
    ensures id in Run(s, log, clocks).brokers <==> id in s.brokers || Registers(log, id)
    decreases |log|
  {
    if log != [] {
      var s' := Applied(s, log[0], clocks[0]).0;
      BrokerIffRegistered(s', log[1..], clocks[1..], id);
      assert id in s'.brokers <==> id in s.brokers || (log[0].RegisterBroker? && log[0].id == id);
      RegistersSplit(log, id);
    }
  }

  lemma RegistersSplit(log: seq<Command>, id: string)
    requires log != []
    ensures Registers(log, id) <==> (log[0].RegisterBroker? && log[0].id == id) || Registers(log[1..], id)
  {
    if j :| 0 <= j < |log| && log[j].RegisterBroker? && log[j].id == id && j > 0 { assert log[1..][j - 1] == log[j]; }
    if j :| 0 <= j < |log[1..]| && log[1..][j].RegisterBroker? && log[1..][j].id == id {
      assert log[j + 1] == log[1..][j];
    }
  }

  lemma {:induction false} CounterIs(s: State, log: seq<Command>, clocks: seq<int>)
    requires |log| == |clocks|
    ensures Run(s, log, clocks).counter == s.counter + Increments(log)
    decreases |log|
  {
    hide Applied;
    if log != [] {
      CounterStep(s, log[0], clocks[0]);
      CounterIs(Applied(s, log[0], clocks[0]).0, log[1..], clocks[1..]);
    }
  }

  // The result of a command is given in the state the commands before it left.
  lemma {:induction false} ResultAt(s: State, log: seq<Command>, clocks: seq<int>, i: nat)
    requires |log| == |clocks| && i < |log|
    ensures Results(s, log, clocks)[i] == Applied(Run(s, log[..i], clocks[..i]), log[i], clocks[i]).1
    decreases |log|
  {
    hide Applied;
    if i > 0 {
      ResultAt(Applied(s, log[0], clocks[0]).0, log[1..], clocks[1..], i - 1);
      assert log[..i][1..] == log[1..][..i - 1] && clocks[..i][1..] == clocks[1..][..i - 1];
    }
  }

  /** Over every log, whether a command succeeds, which error it answers, and the
      value of an increment follow from the commands before it: a topic is
      refused exactly if it was created before or has no partitions, a heartbeat
      exactly if its broker was never registered, and the n-th increment
      returns n. */
  lemma AnswersFollow(log: seq<Command>, clocks: seq<int>, i: nat)
    requires |log| == |clocks| && i < |log|
    ensures Results(INITIAL, log, clocks)[i] == Answer(log[..i], log[i])
  {
    hide Registers, FirstCreation, Results, Run;
    var before, cs := log[..i], clocks[..i];
    ResultAt(INITIAL, log, clocks, i);
    CounterIs(INITIAL, before, cs);
    if log[i].CreateTopic? { TopicIsFirstCreation(INITIAL, before, cs, log[i].name); }
    if log[i].Heartbeat? { BrokerIffRegistered(INITIAL, before, cs, log[i].id); }
  }

  function Increments(log: seq<Command>): nat {
    if log == [] then 0 else (if log[0].IncrementCounter? then 1 else 0) + Increments(log[1..])
  }

  lemma CounterStep(s: State, cmd: Command, clock: int)
    ensures Applied(s, cmd, clock).0.counter == s.counter + if cmd.IncrementCounter? then 1 else 0
    ensures cmd.IncrementCounter? ==> Applied(s, cmd, clock).1 == Value(s.counter + 1)
  {
  }

  /** The n-th increment of a log returns n. */
  lemma NthIncrementReturnsN(log: seq<Command>, clocks: seq<int>, i: nat)
    requires |log| == |clocks| && i < |log| && log[i].IncrementCounter?
    ensures Results(INITIAL, log, clocks)[i] == Value(Increments(log[..i + 1]))
  {
    AnswersFollow(log, clocks, i);
    OneMore(log, i);
  }

  lemma {:induction false} OneMore(log: seq<Command>, i: nat)
    requires i < |log| && log[i].IncrementCounter?
    ensures Increments(log[..i + 1]) == Increments(log[..i]) + 1
    decreases i
  {
    if i > 0 {
      OneMore(log[1..], i - 1);
      assert log[..i + 1][1..] == log[1..][..i] && log[..i][1..] == log[1..][..i - 1];
    }
  }

  // ----- The replica's object -----

  // The values of a map, in whatever order the map is walked.
  method ListValues<T(==)>(m: map<string, T>) returns (list: seq<T>)
    ensures |list| == |m|
    ensures forall x :: x in list <==> x in m.Values
  {
    list := [];
    var left := m.Keys;
    while left != {}
      invariant left <= m.Keys && |list| == |m| - |left|
      invariant forall x :: x in list <==> exists k :: k in m && k !in left && m[k] == x
      decreases left
    {
      var k :| k in left;
      ghost var before, was := list, left;
      list := list + [m[k]];
      left := left - {k};
      forall x ensures x in list <==> exists j :: j in m && j !in left && m[j] == x {
        if x in before {
          var j :| j in m && j !in was && m[j] == x;
          assert j !in left;
        }
      }
    }
  }

  method Rebuild<T>(list: seq<T>, key: T -> string) returns (m: map<string, T>)
    ensures m == IndexBy(list, key)
  {
    m := map[];
    for i := 0 to |list|
      invariant m == IndexBy(list[..i], key)
    {
      assert list[..i + 1][..i] == list[..i];
      m := m[key(list[i]) := list[i]];
    }
    assert list[..|list|] == list;
  }

  class Fsm {
    var topics: map<string, Topic>
    var brokers: map<string, Broker>
    var counter: int
    var nodes: map<string, NodeInfo>

    function Contents(): State
      reads this
    {
      State(topics, brokers, counter, nodes)
    }

    constructor ()
      ensures Contents() == INITIAL
    {
      topics, brokers, counter, nodes := map[], map[], 0, map[];
    }

    method Apply(cmd: Command, clock: int) returns (r: Result)
      modifies this
      ensures (Contents(), r) == Applied(old(Contents()), cmd, clock)
    {
      match cmd
      case Malformed => r := Failed(MalformedCommand);
      case UnknownKind => r := Failed(UnknownCommand);
      case CreateTopic(name, n) =>
        if name in topics { return Failed(TopicExists); }
        if n <= 0 { return Failed(BadPartitionCount); }
        topics := topics[name := Topic(name, n)];
        r := Done;
      case RegisterBroker(id, address, ts) =>
        var at := if ts != 0 then ts * NANOS_PER_MS else clock;
        brokers := brokers[id := Broker(id, address, at)];
        r := Done;
      case Heartbeat(id, ts) =>
        if id !in brokers { return Failed(UnregisteredBroker); }
        if ts == 0 {
          brokers := brokers[id := brokers[id].(lastHeartbeat := clock)];
        } else if ts * NANOS_PER_MS > brokers[id].lastHeartbeat {
          brokers := brokers[id := brokers[id].(lastHeartbeat := ts * NANOS_PER_MS)];
        }
        r := Done;
      case IncrementCounter =>
        counter := counter + 1;
        r := Value(counter);
      case RegisterNode(id, raft, grpc) =>
        nodes := nodes[id := NodeInfo(id, raft, grpc)];
        r := Done;
    }

    method TakeSnapshot() returns (snap: Snapshot)
      ensures IsSnapshot(snap, Contents())
    {
      var ts := ListValues(topics);
      var bs := ListValues(brokers);
      var ns := ListValues(nodes);
      var entries := Entries(bs);
      forall e ensures e in entries <==> exists b :: b in brokers.Values && e == ToEntry(b) {
        if e in entries {
          var i :| 0 <= i < |bs| && e == entries[i];
          assert bs[i] in brokers.Values;
        }
        if b :| b in brokers.Values && e == ToEntry(b) {
          var i :| 0 <= i < |bs| && bs[i] == b;
          assert entries[i] == e;
        }
      }
      snap := Snapshot(ts, entries, counter, ns);
    }

    method Restore(snap: Snapshot)
      modifies this
      ensures Contents() == Restored(snap)
    {
      topics := Rebuild(snap.topics, (t: Topic) => t.name);
      brokers := Rebuild(Brokers(snap.brokers), (b: Broker) => b.id);
      counter := snap.counter;
      nodes := Rebuild(snap.nodes, (n: NodeInfo) => n.id);
    }
  }
}
