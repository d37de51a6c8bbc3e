/** The string keys of the offset store, and exactly when they tell apart what
    they stand for. */
module OffsetKeys {
  function Digit(d: nat): char
    requires d < 10
  {
    ('0' as int + d) as char
  }

  function Digits(n: nat): (s: string)
    ensures s != []
  {
    (if n < 10 then [] else Digits(n / 10)) + [Digit(n % 10)]
  }

  function ToString(p: int): string { if p < 0 then ['-'] + Digits(-p) else Digits(p) }

  function PartitionKey(topic: string, partition: int): string { topic + ['#'] + ToString(partition) }

  function EntryKey(topic: string, partition: int, group: string): string {
    PartitionKey(topic, partition) + ['#'] + group
  }

  predicate IsDigit(c: char) { '0' <= c <= '9' }

  lemma {:induction false} DigitsAreDigits(n: nat)
    ensures forall i :: 0 <= i < |Digits(n)| ==> IsDigit(Digits(n)[i])
  {
    if n >= 10 { DigitsAreDigits(n / 10); }
  }

  // The number a string of digits spells, most significant first.
  function Spelled(s: string): int {
    if s == [] then 0 else 10 * Spelled(s[..|s| - 1]) + (s[|s| - 1] as int - '0' as int)
  }

  /** Numbers are written in decimal, without leading zeros. */
  lemma {:induction false} DigitsSpell(n: nat)
    ensures Spelled(Digits(n)) == n && (Digits(n)[0] == '0' <==> n == 0)
  {
    var s := Digits(n);
    assert s[..|s| - 1] == if n < 10 then [] else Digits(n / 10);
    if n >= 10 {
      DigitsSpell(n / 10);
      assert s[0] == Digits(n / 10)[0];
    }
  }

  lemma {:induction false} DigitsInjective(m: nat, n: nat)
    requires Digits(m) == Digits(n)
    ensures m == n
    decreases m
  {
    var s, t := Digits(m), Digits(n);
    assert s[|s| - 1] == Digit(m % 10) && t[|t| - 1] == Digit(n % 10);
    assert m % 10 == n % 10;
    var p, q := s[..|s| - 1], t[..|t| - 1];
    assert p == if m < 10 then [] else Digits(m / 10);
    assert q == if n < 10 then [] else Digits(n / 10);
    if m >= 10 && n >= 10 { DigitsInjective(m / 10, n / 10); }
  }

  lemma NoHash(p: int)
    ensures '#' !in ToString(p)
  {
    DigitsAreDigits(if p < 0 then -p else p);
  }

  lemma ToStringInjective(p: int, q: int)
    requires ToString(p) == ToString(q)
    ensures p == q
  {
    DigitsAreDigits(if p < 0 then -p else p);
    DigitsAreDigits(if q < 0 then -q else q);
    var s, t := ToString(p), ToString(q);
    assert p < 0 <==> s[0] == '-';
    assert q < 0 <==> t[0] == '-';
    if p < 0 {
      assert s[1..] == Digits(-p) && t[1..] == Digits(-q);
      DigitsInjective(-p, -q);
    } else {
      DigitsInjective(p, q);
    }
  }

  // Text without '#' up to a '#' is determined by the whole.
  lemma SplitAtFirst(a: string, x: string, b: string, y: string)
    requires '#' !in a && '#' !in b && a + ['#'] + x == b + ['#'] + y
    ensures a == b && x == y
  {
    var s, t := a + ['#'] + x, b + ['#'] + y;
    assert s[|a|] == '#' && t[|b|] == '#';
    assert forall i :: 0 <= i < |a| ==> s[i] == a[i] && a[i] in a;
    assert forall i :: 0 <= i < |b| ==> t[i] == b[i] && b[i] in b;
    assert a == s[..|a|] && b == t[..|b|];
    assert x == s[|a| + 1..] && y == t[|b| + 1..];
  }

  // Text without '#' behind a '#' is determined by the whole.
  lemma SplitAtLast(a: string, x: string, b: string, y: string)
    requires '#' !in x && '#' !in y && a + ['#'] + x == b + ['#'] + y
    ensures a == b && x == y
  {
    var s, t := a + ['#'] + x, b + ['#'] + y;
    assert s[|a|] == '#' && t[|b|] == '#';
    assert forall i :: |a| < i < |s| ==> s[i] == x[i - |a| - 1] && s[i] in x;
    assert forall i :: |b| < i < |t| ==> t[i] == y[i - |b| - 1] && t[i] in y;
    assert a == s[..|a|] && b == t[..|b|];
    assert x == s[|a| + 1..] && y == t[|b| + 1..];
  }

  /** Partition keys tell every topic and partition apart. */
  lemma PartitionKeyInjective(t: string, p: int, t': string, p': int)
    requires PartitionKey(t, p) == PartitionKey(t', p')
    ensures t == t' && p == p'
  {
    hide ToString;
    NoHash(p);
    NoHash(p');
    SplitAtLast(t, ToString(p), t', ToString(p'));
    ToStringInjective(p, p');
  }

  /** Within one topic, entry keys tell every partition and group apart. */
  lemma EntryKeyInjective(t: string, p: int, g: string, p': int, g': string)
    requires EntryKey(t, p, g) == EntryKey(t, p', g')
    ensures p == p' && g == g'
  {
    NoHash(p);
    NoHash(p');
    var s, s' := EntryKey(t, p, g), EntryKey(t, p', g');
    assert s[|t| + 1..] == ToString(p) + ['#'] + g;
    assert s'[|t| + 1..] == ToString(p') + ['#'] + g';
    SplitAtFirst(ToString(p), g, ToString(p'), g');
    ToStringInjective(p, p');
  }

  // Topic t' spells a partition of t, alone or followed by '#'.
  ghost predicate Under(t: string, t': string) {
    exists p: int :: Spells(t, p, t')
  }

  predicate Spells(t: string, p: int, t': string) {
    var k := PartitionKey(t, p);
    k <= t' && (|k| == |t'| || t'[|k|] == '#')
  }

  lemma CollisionIsUnder(t: string, p: int, g: string, t': string, p': int, g': string)
    requires EntryKey(t, p, g) == EntryKey(t', p', g') && |t| < |t'|
    ensures Spells(t, p, t')
  {
    hide ToString;
    var s, k := EntryKey(t, p, g), PartitionKey(t, p);
    NoHash(p);
    assert t' == s[..|t'|];
    assert s[|t'|] == '#';
    assert forall i :: |t| < i < |k| ==> s[i] == ToString(p)[i - |t| - 1] && s[i] in ToString(p);
    assert k == s[..|k|] == t'[..|k|];
    assert |k| < |t'| ==> t'[|k|] == s[|k|];
    assert Spells(t, p, t');
  }

  lemma UnderCollides(t: string, t': string, p: int) returns (g: string)
    requires Spells(t, p, t')
    ensures EntryKey(t, p, g) == EntryKey(t', 0, "")
  {
    var k, s := PartitionKey(t, p), EntryKey(t', 0, "");
    g := s[|k| + 1..];
    assert s[..|k|] == k && s[|k|] == '#';
    assert s == s[..|k|] + ['#'] + s[|k| + 1..];
  }

  /** Two topics share an entry key, for some partitions and groups, exactly
      when one spells a partition of the other. */
  lemma TopicsCollideIff(t: string, t': string)
    requires t != t'
    ensures (exists p, g, p', g' :: EntryKey(t, p, g) == EntryKey(t', p', g')) <==> Under(t, t') || Under(t', t)
  {
    if p, g, p', g' :| EntryKey(t, p, g) == EntryKey(t', p', g') {
      assert t == EntryKey(t, p, g)[..|t|] && t' == EntryKey(t', p', g')[..|t'|];
      if |t| < |t'| {
        CollisionIsUnder(t, p, g, t', p', g');
      } else {
        CollisionIsUnder(t', p', g', t, p, g);
      }
    }
    if p :| Spells(t, p, t') { var g := UnderCollides(t, t', p); }
    if p :| Spells(t', p, t) { var g := UnderCollides(t', t, p); }
  }

  // Names without '#' never collide.
  lemma PlainNamesApart(t: string, t': string)
    requires '#' !in t'
    ensures !Under(t, t')
  {
    forall p: int ensures !Spells(t, p, t') {
      assert PartitionKey(t, p)[|t|] == '#';
      assert forall i :: 0 <= i < |t'| ==> t'[i] in t';
    }
  }
}

/** The offset store against a map keyed by topic, partition and group. */
module OffsetStores {
  import opened Options
  import opened OffsetKeys

  const U64_MAX: nat := 0xFFFF_FFFF_FFFF_FFFF

  type U64 = n: nat | n <= U64_MAX

  datatype Key = Key(topic: string, partition: int, group: string)

  datatype Part = Part(topic: string, partition: int)

  function KeyString(k: Key): string { EntryKey(k.topic, k.partition, k.group) }

  function PartString(p: Part): string { PartitionKey(p.topic, p.partition) }

  datatype Store = Store(entries: map<string, U64>, groups: map<string, set<string>>)

  datatype Ideal = Ideal(committed: map<Key, U64>, groups: map<Part, set<string>>)

  datatype Op =
    | Register(part: Part, group: string)
    | Commit(key: Key, offset: U64)
    | Get(key: Key)
    | LeastFor(part: Part)

  function TopicOf(op: Op): string {
    match op
    case Register(part, _) => part.topic
    case Commit(key, _) => key.topic
    case Get(key) => key.topic
    case LeastFor(part) => part.topic
  }

  lemma LeastExists(values: set<U64>) returns (r: U64)
    requires values != {}
    ensures r in values && forall v :: v in values ==> r <= v
  {
    r :| r in values;
    if values != {r} {
      var r' := LeastExists(values - {r});
      assert forall v :: v in values ==> v == r || v in values - {r};
      if r' < r { r := r'; }
    }
  }

  ghost predicate IsLeast(r: U64, values: set<U64>) {
    r in values && forall v :: v in values ==> r <= v
  }

  // The least of no values is none.
  ghost function Least(values: set<U64>): (r: Option<U64>)
    ensures r == None <==> values == {}
    ensures r.Some? ==> IsLeast(r.value, values)
  {
    if values == {} then None
    else
      LeastIsThere(values);
      var r :| IsLeast(r, values);
      Some(r)
  }

  lemma LeastIsThere(values: set<U64>)
    requires values != {}
    ensures exists r :: IsLeast(r, values)
  {
    var r := LeastExists(values);
    assert IsLeast(r, values);
  }

  function Lookup<K>(m: map<K, U64>, k: K): Option<U64> { if k in m then Some(m[k]) else None }

  function GroupsOf<K>(m: map<K, set<string>>, k: K): set<string> { if k in m then m[k] else {} }

  // ----- The store on strings -----

  function Registered(s: Store, topic: string, partition: int, group: string): Store {
    var e, p := EntryKey(topic, partition, group), PartitionKey(topic, partition);
    Store(if e in s.entries then s.entries else s.entries[e := 0],
          s.groups[p := GroupsOf(s.groups, p) + {group}])
  }

  function Committed(s: Store, topic: string, partition: int, group: string, offset: U64): Store {
    s.(entries := s.entries[EntryKey(topic, partition, group) := offset])
  }

  // What a group committed, 0 if nothing.
  function OffsetOf(s: Store, k: Key): U64 {
    if KeyString(k) in s.entries then s.entries[KeyString(k)] else 0
  }

  function Offsets(s: Store, topic: string, partition: int): set<U64> {
    set g | g in GroupsOf(s.groups, PartitionKey(topic, partition)) :: OffsetOf(s, Key(topic, partition, g))
  }

  ghost function Next(s: Store, op: Op): (Store, Option<U64>) {
    match op
    case Register(p, group) => (Registered(s, p.topic, p.partition, group), None)
    case Commit(k, offset) => (Committed(s, k.topic, k.partition, k.group, offset), None)
    case Get(k) => (s, Lookup(s.entries, KeyString(k)))
    case LeastFor(p) => (s, Least(Offsets(s, p.topic, p.partition)))
  }

  // ----- The map it stands for -----

  function IdealOffset(m: Ideal, p: Part, g: string): U64 {
    if Key(p.topic, p.partition, g) in m.committed then m.committed[Key(p.topic, p.partition, g)] else 0
  }

  function IdealOffsets(m: Ideal, p: Part): set<U64> {
    set g | g in GroupsOf(m.groups, p) :: IdealOffset(m, p, g)
  }

  ghost function IdealNext(m: Ideal, op: Op): (Ideal, Option<U64>) {
    match op
    case Register(p, group) =>
      var k := Key(p.topic, p.partition, group);
      (Ideal(if k in m.committed then m.committed else m.committed[k := 0],
             m.groups[p := GroupsOf(m.groups, p) + {group}]), None)
    case Commit(k, offset) => (m.(committed := m.committed[k := offset]), None)
    case Get(k) => (m, Lookup(m.committed, k))
    case LeastFor(p) => (m, Least(IdealOffsets(m, p)))
  }

  // No topic in use spells a partition of another.
  ghost predicate Separable(topics: set<string>) {
    forall t, t' :: t in topics && t' in topics && t != t' ==> !Under(t, t')
  }

  lemma KeysApart(topics: set<string>, k: Key, k': Key)
    requires Separable(topics) && k.topic in topics && k'.topic in topics
    requires KeyString(k) == KeyString(k')
    ensures k == k'
  {
    if k.topic != k'.topic {
      TopicsCollideIff(k.topic, k'.topic);
    } else {
      EntryKeyInjective(k.topic, k.partition, k.group, k'.partition, k'.group);
    }
  }

  // The string maps hold the same values, under the keys' strings.
  ghost predicate SameEntries(topics: set<string>, entries: map<string, U64>, committed: map<Key, U64>) {
    forall k: Key :: k.topic in topics ==> Lookup(entries, KeyString(k)) == Lookup(committed, k)
  }

  ghost predicate SameGroups(groups: map<string, set<string>>, ideal: map<Part, set<string>>) {
    forall p :: GroupsOf(groups, PartString(p)) == GroupsOf(ideal, p)
  }

  ghost predicate Refines(topics: set<string>, s: Store, m: Ideal) {
    SameEntries(topics, s.entries, m.committed) && SameGroups(s.groups, m.groups)
  }

  lemma EntrySet(topics: set<string>, entries: map<string, U64>, committed: map<Key, U64>, k: Key, v: U64)
    requires Separable(topics) && k.topic in topics && SameEntries(topics, entries, committed)
    ensures SameEntries(topics, entries[KeyString(k) := v], committed[k := v])
  {
    forall k': Key | k'.topic in topics
      ensures Lookup(entries[KeyString(k) := v], KeyString(k')) == Lookup(committed[k := v], k')
    {
      if KeyString(k') == KeyString(k) { KeysApart(topics, k, k'); }
    }
  }

  lemma GroupSet(groups: map<string, set<string>>, ideal: map<Part, set<string>>, p: Part, gs: set<string>)
    requires SameGroups(groups, ideal)
    ensures SameGroups(groups[PartString(p) := gs], ideal[p := gs])
  {
    forall p' ensures GroupsOf(groups[PartString(p) := gs], PartString(p')) == GroupsOf(ideal[p := gs], p') {
      if PartString(p') == PartString(p) { PartitionKeyInjective(p.topic, p.partition, p'.topic, p'.partition); }
    }
  }

  lemma SameOffsets(topics: set<string>, s: Store, m: Ideal, p: Part)
    requires Refines(topics, s, m) && p.topic in topics
    ensures Offsets(s, p.topic, p.partition) == IdealOffsets(m, p)
  {
  }

  lemma StepRefines(topics: set<string>, s: Store, m: Ideal, op: Op)
    requires Separable(topics) && TopicOf(op) in topics && Refines(topics, s, m)
    ensures Refines(topics, Next(s, op).0, IdealNext(m, op).0)
    ensures Next(s, op).1 == IdealNext(m, op).1
  {
    hide PartitionKey, EntryKey, Separable, SameGroups, SameEntries;
    match op
    case Register(p, group) =>
      var k := Key(p.topic, p.partition, group);
      EntrySet(topics, s.entries, m.committed, k, 0);
      SameLookup(topics, s, m, k, p);
      GroupSet(s.groups, m.groups, p, GroupsOf(m.groups, p) + {group});
    case Commit(k, offset) => EntrySet(topics, s.entries, m.committed, k, offset);
    case Get(k) => SameLookup(topics, s, m, k, Part(k.topic, k.partition));
    case LeastFor(p) => SameOffsets(topics, s, m, p);
  }

  lemma SameLookup(topics: set<string>, s: Store, m: Ideal, k: Key, p: Part)
    requires Refines(topics, s, m) && k.topic in topics
    ensures Lookup(s.entries, KeyString(k)) == Lookup(m.committed, k)
    ensures GroupsOf(s.groups, PartString(p)) == GroupsOf(m.groups, p)
  {
  }

  ghost function Results(s: Store, ops: seq<Op>): seq<Option<U64>>
    decreases |ops|
  {
    if ops == [] then [] else [Next(s, ops[0]).1] + Results(Next(s, ops[0]).0, ops[1..])
  }

  ghost function IdealResults(m: Ideal, ops: seq<Op>): seq<Option<U64>>
    decreases |ops|
  {
    if ops == [] then [] else [IdealNext(m, ops[0]).1] + IdealResults(IdealNext(m, ops[0]).0, ops[1..])
  }

  lemma {:induction false} RunRefines(topics: set<string>, s: Store, m: Ideal, ops: seq<Op>)
    requires Separable(topics) && Refines(topics, s, m)
    requires forall op :: op in ops ==> TopicOf(op) in topics
    ensures Results(s, ops) == IdealResults(m, ops)
    decreases |ops|
  {
    if ops != [] {
      assert ops[0] in ops;
      StepRefines(topics, s, m, ops[0]);
      RunRefines(topics, Next(s, ops[0]).0, IdealNext(m, ops[0]).0, ops[1..]);
    }
  }

  const NO_STORE: Store := Store(map[], map[])
  const NO_IDEAL: Ideal := Ideal(map[], map[])

  /** Over every run, a store used with topics none of which spells a partition
      of another answers as the map keyed by topic, partition and group. */
  lemma StoreIsMap(topics: set<string>, ops: seq<Op>)
    requires Separable(topics) && forall op :: op in ops ==> TopicOf(op) in topics
    ensures Results(NO_STORE, ops) == IdealResults(NO_IDEAL, ops)
  {
    RunRefines(topics, NO_STORE, NO_IDEAL, ops);
  }

  // ----- What that map answers, from the operations before -----

  // The last commit for a key, or 0 if its group was registered at least.
  function CommittedBy(ops: seq<Op>, k: Key): Option<U64> {
    if ops == [] then None
    else
      var last, before := ops[|ops| - 1], CommittedBy(ops[..|ops| - 1], k);
      if last.Commit? && last.key == k then Some(last.offset)
      else if last == Register(Part(k.topic, k.partition), k.group) && before == None then Some(0)
      else before
  }

  // Group g has been registered for a partition.
  predicate Joined(ops: seq<Op>, p: Part, g: string) { Register(p, g) in ops }

  // What an operation answers: a look-up the last commit; the least offset the
  // least of the last commits of the groups registered.
  ghost predicate Answers(before: seq<Op>, op: Op, r: Option<U64>) {
    match op
    case Get(k) => r == CommittedBy(before, k)
    case LeastFor(p) =>
      if r == None then forall g :: !Joined(before, p, g)
      else
        && (exists g :: Joined(before, p, g) && CommittedBy(before, Key(p.topic, p.partition, g)) == r)
        && (forall g :: Joined(before, p, g) ==>
              var v := CommittedBy(before, Key(p.topic, p.partition, g)); v.Some? && r.value <= v.value)
    case _ => r == None
  }

  ghost function IdealRun(m: Ideal, ops: seq<Op>): Ideal {
    if ops == [] then m else IdealNext(IdealRun(m, ops[..|ops| - 1]), ops[|ops| - 1]).0
  }

  lemma {:induction false} IdealIs(ops: seq<Op>, k: Key, p: Part, g: string)
    ensures var m := IdealRun(NO_IDEAL, ops);
            Lookup(m.committed, k) == CommittedBy(ops, k) && (g in GroupsOf(m.groups, p) <==> Joined(ops, p, g))
    decreases |ops|
  {
    if ops != [] {
      IdealIs(ops[..|ops| - 1], k, p, g);
      assert ops == ops[..|ops| - 1] + [ops[|ops| - 1]];
    }
  }

  // A group that joined has committed, 0 at least.
  lemma {:induction false} JoinedHasOffset(ops: seq<Op>, p: Part, g: string)
    requires Joined(ops, p, g)
    ensures CommittedBy(ops, Key(p.topic, p.partition, g)).Some?
    decreases |ops|
  {
    assert ops == ops[..|ops| - 1] + [ops[|ops| - 1]];
    if Joined(ops[..|ops| - 1], p, g) { JoinedHasOffset(ops[..|ops| - 1], p, g); }
  }

  lemma {:induction false} ResultAfter(m: Ideal, ops: seq<Op>, i: nat)
    requires i < |ops|
    ensures |IdealResults(m, ops)| == |ops|
    ensures IdealResults(m, ops)[i] == IdealNext(IdealRun(m, ops[..i]), ops[i]).1
    decreases |ops|
  {
    hide IdealNext;
    if |ops| > 1 {
      var m' := IdealNext(m, ops[0]).0;
      ResultAfter(m', ops[1..], if i == 0 then 0 else i - 1);
      if i > 0 { RunFirst(m, ops[..i]); assert ops[..i][1..] == ops[1..][..i - 1]; }
    } else {
      assert IdealResults(IdealNext(m, ops[0]).0, ops[1..]) == [];
    }
  }

  lemma {:induction false} RunFirst(m: Ideal, ops: seq<Op>)
    requires ops != []
    ensures IdealRun(m, ops) == IdealRun(IdealNext(m, ops[0]).0, ops[1..])
    decreases |ops|
  {
    hide IdealNext;
    var n := |ops| - 1;
    if n == 0 {
      assert ops[..0] == [] && IdealRun(m, ops[..0]) == m;
    } else {
      RunFirst(m, ops[..n]);
      assert ops[..n][1..] == ops[1..][..n - 1];
    }
  }

  lemma LeastAnswers(before: seq<Op>, p: Part)
    ensures Answers(before, LeastFor(p), Least(IdealOffsets(IdealRun(NO_IDEAL, before), p)))
  {
    hide IdealRun, CommittedBy, Joined;
    var m := IdealRun(NO_IDEAL, before);
    forall g
      ensures g in GroupsOf(m.groups, p) <==> Joined(before, p, g)
      ensures Joined(before, p, g) ==>
                var k := Key(p.topic, p.partition, g);
                CommittedBy(before, k).Some? && k in m.committed && CommittedBy(before, k) == Some(m.committed[k])
    {
      IdealIs(before, Key(p.topic, p.partition, g), p, g);
      if Joined(before, p, g) { JoinedHasOffset(before, p, g); }
    }
    LeastOver(m, p);
  }

  // The least offset is that of some group, and at most that of every group.
  lemma LeastOver(m: Ideal, p: Part)
    ensures var r := Least(IdealOffsets(m, p));
            if r == None then GroupsOf(m.groups, p) == {}
            else
              && (exists g :: g in GroupsOf(m.groups, p) && r.value == IdealOffset(m, p, g))
              && (forall g :: g in GroupsOf(m.groups, p) ==> r.value <= IdealOffset(m, p, g))
  {
    var offsets := IdealOffsets(m, p);
    forall g | g in GroupsOf(m.groups, p) ensures IdealOffset(m, p, g) in offsets {}
  }

  /** Over every run on topics none of which spells a partition of another, a
      look-up answers the last offset committed for its topic, partition and
      group, and the least committed offset is the least of the last commits of
      the groups registered, 0 for a group that has none. */
  lemma StoreAnswers(topics: set<string>, ops: seq<Op>, i: nat)
    requires Separable(topics) && i < |ops| && forall op :: op in ops ==> TopicOf(op) in topics
    ensures |Results(NO_STORE, ops)| == |ops| && Answers(ops[..i], ops[i], Results(NO_STORE, ops)[i])
  {
    hide Separable, Results, IdealResults, CommittedBy, Joined, Answers, IdealOffsets;
    StoreIsMap(topics, ops);
    ResultAfter(NO_IDEAL, ops, i);
    var before := ops[..i];
    match ops[i]
    case LeastFor(p) => LeastAnswers(before, p);
    case _ => OtherAnswers(before, ops[i]);
  }

  lemma OtherAnswers(before: seq<Op>, op: Op)
    requires !op.LeastFor?
    ensures Answers(before, op, IdealNext(IdealRun(NO_IDEAL, before), op).1)
  {
    hide IdealRun, CommittedBy, Joined;
    if op.Get? { IdealIs(before, op.key, Part("", 0), ""); }
  }

  lemma PlainNamesSeparable(topics: set<string>)
    requires forall t :: t in topics ==> '#' !in t
    ensures Separable(topics)
  {
    forall t, t' | t in topics && t' in topics && t != t' ensures !Under(t, t') { PlainNamesApart(t, t'); }
  }

  /** And exactly then: two topics of which one spells a partition of the other
      are confused by some run. */
  lemma ConfusedUnlessSeparable(t: string, t': string)
    requires t != t'
    ensures Separable({t, t'}) <==>
            forall ops: seq<Op> :: (forall op :: op in ops ==> TopicOf(op) in {t, t'}) ==>
              Results(NO_STORE, ops) == IdealResults(NO_IDEAL, ops)
  {
    if Separable({t, t'}) {
      forall ops: seq<Op> | forall op :: op in ops ==> TopicOf(op) in {t, t'}
        ensures Results(NO_STORE, ops) == IdealResults(NO_IDEAL, ops)
      {
        StoreIsMap({t, t'}, ops);
      }
    } else if Under(t, t') {
      var p :| Spells(t, p, t');
      Confused(t, t', p);
    } else {
      var p :| Spells(t', p, t);
      Confused(t', t, p);
    }
  }

  lemma Confused(t: string, t': string, p: int)
    requires t != t' && Spells(t, p, t')
    ensures exists ops: seq<Op> :: (forall op :: op in ops ==> TopicOf(op) in {t, t'}) &&
              Results(NO_STORE, ops) != IdealResults(NO_IDEAL, ops)
  {
    var g := UnderCollides(t, t', p);
    var a, b := Commit(Key(t, p, g), 1), Get(Key(t', 0, ""));
    var ops := [a, b];
    assert forall op :: op in ops ==> TopicOf(op) in {t, t'};
    var s1, m1 := Next(NO_STORE, a).0, IdealNext(NO_IDEAL, a).0;
    assert Next(s1, b).1 == Some(1) && IdealNext(m1, b).1 == None;
    assert ops[1..] == [b];
    assert Results(s1, [b])[0] == Some(1) && IdealResults(m1, [b])[0] == None;
    assert Results(NO_STORE, ops)[1] == Some(1) && IdealResults(NO_IDEAL, ops)[1] == None;
  }

  class OffsetStore {
    var entries: map<string, U64>
    var groupsByPartition: map<string, set<string>>

    function Contents(): Store
      reads this
    {
      Store(entries, groupsByPartition)
    }

    constructor ()
      ensures Contents() == NO_STORE
    {
      entries, groupsByPartition := map[], map[];
    }

    method RegisterGroup(topic: string, partition: int, group: string)
      modifies this
      ensures Contents() == Registered(old(Contents()), topic, partition, group)
    {
      var pkey := PartitionKey(topic, partition);
      var groups := if pkey in groupsByPartition then groupsByPartition[pkey] else {};
      groupsByPartition := groupsByPartition[pkey := groups + {group}];
      var ekey := EntryKey(topic, partition, group);
      if ekey !in entries { entries := entries[ekey := 0]; }
    }

    method CommitOffset(topic: string, partition: int, group: string, offset: U64)
      modifies this
      ensures Contents() == Committed(old(Contents()), topic, partition, group, offset)
    {
      entries := entries[EntryKey(topic, partition, group) := offset];
    }

    method GetOffset(topic: string, partition: int, group: string) returns (r: Option<U64>)
      ensures r == Next(Contents(), Get(Key(topic, partition, group))).1
    {
      var ekey := EntryKey(topic, partition, group);
      if ekey !in entries { return None; }
      return Some(entries[ekey]);
    }

    /** The least offset committed by a registered group, a group that never
        committed counting as 0, and none if no group is registered. */
    method MinCommittedOffset(topic: string, partition: int) returns (r: Option<U64>)
      ensures r == Least(Offsets(Contents(), topic, partition))
    {
      var pkey := PartitionKey(topic, partition);
      if pkey !in groupsByPartition || groupsByPartition[pkey] == {} { return None; }
      ghost var offsets := Offsets(Contents(), topic, partition);
      var left, least := groupsByPartition[pkey], U64_MAX;
      ghost var done: set<string> := {};
      while left != {}
        invariant done + left == groupsByPartition[pkey]
        invariant done == {} ==> least == U64_MAX
        invariant done != {} ==> least in offsets
        invariant forall g :: g in done ==> least <= OffsetOf(Contents(), Key(topic, partition, g))
        decreases left
      {
        var g :| g in left;
        var ekey := EntryKey(topic, partition, g);
        var v := if ekey in entries then entries[ekey] else 0;
        assert v == OffsetOf(Contents(), Key(topic, partition, g)) && v in offsets;
        if v < least { least := v; }
        left := left - {g};
        done := done + {g};
      }
      LeastUnique(least, offsets);
      return Some(least);
    }
  }

  lemma LeastUnique(r: U64, values: set<U64>)
    requires IsLeast(r, values)
    ensures Least(values) == Some(r)
  {
  }
}
