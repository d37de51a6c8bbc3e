/** The fixed-size block pool: a lock-free free list threaded through a side
    table of links, with a generation in the head word against ABA, and slab
    growth under a mutex that splices a whole chain in concurrently.  Every
    atomic access is one step of one thread. */
module MemoryPool {
  import opened Options
  import opened RingArith

  const NULL_INDEX: nat := 0xFFFF_FFFF
  const GENERATIONS: nat := 0x1_0000_0000
  const MAX_SLABS: nat := 1024

  // `free_head_` is the word (index, generation); the generation is the number
  // of head updates modulo 2^32, and `updates` counts them without wrapping.
  // `links` is the concatenation of the published link tables.  `held` is the
  // set of blocks in callers' hands; no step reads it except a caller's choice
  // of a block to free.
  datatype Memory = Memory(perSlab: nat, headIndex: nat, updates: nat, links: seq<nat>, slabCount: nat,
                           mutex: Option<nat>, live: int, held: set<nat>)

  datatype Pc =
    | Idle
    | AllocLoad                                         // load free_head_
    | AllocLink(index: nat, stamp: nat)                 // load link(index)
    | AllocCas(index: nat, stamp: nat, next: nat)       // CAS free_head_ to (next, generation + 1)
    | AllocCount(index: nat)                            // allocated_ + 1 and return
    | AllocReturn(index: nat)
    | BadAlloc
    | GrowLock                                          // acquire grow_mutex_
    | GrowCheck                                         // load free_head_ again
    | GrowStart                                         // load slab_count_ and check the limits
    | GrowPublish(slab: nat, base: nat)                 // store the slab and its chained link table
    | GrowCount(slab: nat, base: nat)                   // store slab_count_
    | GrowLoad(base: nat)                               // load free_head_
    | GrowLink(base: nat, head: nat, stamp: nat)        // store the last link
    | GrowCas(base: nat, head: nat, stamp: nat)         // CAS free_head_ to (base, generation + 1)
    | GrowUnlock(failed: bool)
    | FreeLoad(index: nat)                              // load free_head_
    | FreeLink(index: nat, head: nat, stamp: nat)       // store link(index)
    | FreeCas(index: nat, head: nat, stamp: nat)        // CAS free_head_ to (index, generation + 1)
    | FreeCount(index: nat)                             // allocated_ - 1
    | FreeReturn

  datatype State = State(mem: Memory, pcs: seq<Pc>)

  datatype Choice = CallAlloc | CallFree(b: nat) | Go | SpuriousFailure

  type Schedule = seq<(nat, Choice)>

  // The links of a fresh slab: each block to the next; the last is still 0.
  function FreshLinks(base: nat, n: nat): (r: seq<nat>)
    ensures |r| == n
  {
    seq(n, i requires 0 <= i < n => if i + 1 < n then base + i + 1 else 0)
  }

  // The state the constructor leaves: one slab, spliced onto the empty list.
  function Init(perSlab: nat, threads: nat): State
    requires 1 <= perSlab <= NULL_INDEX
  {
    State(Memory(perSlab, 0, 1, FreshLinks(0, perSlab)[perSlab - 1 := NULL_INDEX], 1, None, 0, {}),
          seq(threads, i => Idle))
  }

  // `slab_idx * blocks_per_slab_`: the first block of a slab.
  function FirstBlock(slab: nat, perSlab: nat): (r: nat) {
    if slab == 0 then 0 else FirstBlock(slab - 1, perSlab) + perSlab
  }

  function Link(m: Memory, i: nat): nat {
    if i < |m.links| then m.links[i] else 0
  }

  function SetLink(m: Memory, i: nat, v: nat): Memory {
    if i < |m.links| then m.(links := m.links[i := v]) else m
  }

  // The comparison of the packed word: index and 32-bit generation.
  predicate HeadIs(m: Memory, index: nat, stamp: nat) {
    m.headIndex == index && m.updates % GENERATIONS == stamp % GENERATIONS
  }

  function SetHead(m: Memory, index: nat): Memory {
    m.(headIndex := index, updates := m.updates + 1)
  }

  function Call(m: Memory, pc: Pc, c: Choice): (Memory, Pc) {
    match c
    case CallAlloc => (m, AllocLoad)
    case CallFree(b) => if b in m.held then (m.(held := m.held - {b}), FreeLoad(b)) else (m, pc)
    case _ => (m, pc)
  }

  function ActAlloc(m: Memory, pc: Pc, c: Choice): (Memory, Pc) {
    match pc
    case AllocLoad =>
      (m, if m.headIndex == NULL_INDEX then GrowLock else AllocLink(m.headIndex, m.updates))
    case AllocLink(i, stamp) => (m, AllocCas(i, stamp, Link(m, i)))
    case AllocCas(i, stamp, next) =>
      if HeadIs(m, i, stamp) && c != SpuriousFailure then (SetHead(m, next), AllocCount(i)) else (m, AllocLoad)
    case AllocCount(i) => (m.(live := m.live + 1, held := m.held + {i}), AllocReturn(i))
    case _ => (m, pc)
  }

  function ActFree(m: Memory, pc: Pc, c: Choice): (Memory, Pc) {
    match pc
    case FreeLoad(i) => (m, FreeLink(i, m.headIndex, m.updates))
    case FreeLink(i, head, stamp) => (SetLink(m, i, head), FreeCas(i, head, stamp))
    case FreeCas(i, head, stamp) =>
      if HeadIs(m, head, stamp) && c != SpuriousFailure then (SetHead(m, i), FreeCount(i))
      else (m, FreeLink(i, m.headIndex, m.updates))
    case FreeCount(i) => (m.(live := m.live - 1), FreeReturn)
    case _ => (m, pc)
  }

  function ActGrow(m: Memory, pc: Pc, tid: nat, c: Choice): (Memory, Pc) {
    match pc
    case GrowLock => if m.mutex == None then (m.(mutex := Some(tid)), GrowCheck) else (m, pc)
    case GrowCheck => (m, if m.headIndex != NULL_INDEX then GrowUnlock(false) else GrowStart)
    case GrowStart =>
      var base := FirstBlock(m.slabCount, m.perSlab);
      (m, if m.slabCount >= MAX_SLABS || m.perSlab == 0 || base >= NULL_INDEX || m.perSlab > NULL_INDEX - base
          then GrowUnlock(true) else GrowPublish(m.slabCount, base))
    case GrowPublish(k, base) => (m.(links := m.links + FreshLinks(base, m.perSlab)), GrowCount(k, base))
    case GrowCount(k, base) => (m.(slabCount := k + 1), GrowLoad(base))
    case GrowLoad(base) => (m, GrowLink(base, m.headIndex, m.updates))
    case GrowLink(base, head, stamp) =>
      (if m.perSlab > 0 then SetLink(m, base + m.perSlab - 1, head) else m, GrowCas(base, head, stamp))
    case GrowCas(base, head, stamp) =>
      if HeadIs(m, head, stamp) && c != SpuriousFailure then (SetHead(m, base), GrowUnlock(false))
      else (m, GrowLink(base, m.headIndex, m.updates))
    case GrowUnlock(failed) => (m.(mutex := None), if failed then BadAlloc else AllocLoad)
    case _ => (m, pc)
  }

  predicate CanCall(pc: Pc) { pc.Idle? || pc.AllocReturn? || pc.FreeReturn? || pc.BadAlloc? }

  predicate Allocating(pc: Pc) { pc.AllocLoad? || pc.AllocLink? || pc.AllocCas? || pc.AllocCount? }

  predicate Freeing(pc: Pc) { pc.FreeLoad? || pc.FreeLink? || pc.FreeCas? || pc.FreeCount? }

  function Act(m: Memory, pc: Pc, tid: nat, c: Choice): (Memory, Pc) {
    if CanCall(pc) then Call(m, pc, c)
    else if Allocating(pc) then ActAlloc(m, pc, c)
    else if Freeing(pc) then ActFree(m, pc, c)
    else ActGrow(m, pc, tid, c)
  }

  function Step(s: State, tid: nat, c: Choice): (r: State)
    ensures |r.pcs| == |s.pcs|
  {
    if tid >= |s.pcs| then s
    else
      var (m, pc) := Act(s.mem, s.pcs[tid], tid, c);
      State(m, s.pcs[tid := pc])
  }

  function Exec(s: State, sched: Schedule): (r: State)
    ensures |r.pcs| == |s.pcs|
    decreases |sched|
  {
    if sched == [] then s
    else Step(Exec(s, sched[..|sched| - 1]), sched[|sched| - 1].0, sched[|sched| - 1].1)
  }

  // ----- The invariant -----

  // Where a published block is.  One place per block, so places are exclusive.
  datatype Place = InFree | Held | Popped(owner: nat) | Pushing(owner: nat) | Fresh(owner: nat)

  // The witness of the invariant: the free list, and the place of each block.
  datatype Layout = Layout(free: seq<nat>, place: seq<Place>)

  // Following the links from `head` visits exactly `free` and ends at null.
  ghost predicate Chain(links: seq<nat>, head: nat, free: seq<nat>)
    decreases |free|
  {
    if free == [] then head == NULL_INDEX
    else head == free[0] && head < |links| && Chain(links, links[head], free[1..])
  }

  ghost predicate Chained(m: Memory, free: seq<nat>) { Chain(m.links, m.headIndex, free) }

  predicate InGrowth(pc: Pc) {
    pc.GrowCheck? || pc.GrowStart? || pc.GrowPublish? || pc.GrowCount? || pc.GrowLoad? ||
    pc.GrowLink? || pc.GrowCas? || pc.GrowUnlock?
  }

  // A slab that is published but not yet spliced.
  predicate Unspliced(pc: Pc) { pc.GrowCount? || pc.GrowLoad? || pc.GrowLink? || pc.GrowCas? }

  // The block a thread is pushing.
  predicate Pushes(pc: Pc, b: nat) { (pc.FreeLoad? || pc.FreeLink? || pc.FreeCas?) && pc.index == b }

  ghost predicate PlaceOk(s: State, a: Layout, b: nat)
    requires b < |a.place|
  {
    match a.place[b]
    case InFree => b in a.free
    case Held => b in s.mem.held
    case Popped(t) => t < |s.pcs| && s.pcs[t] == AllocCount(b)
    case Pushing(t) => t < |s.pcs| && Pushes(s.pcs[t], b)
    case Fresh(t) => t < |s.pcs| && Unspliced(s.pcs[t]) && s.pcs[t].base <= b < s.pcs[t].base + s.mem.perSlab
  }

  ghost predicate PlacesOk(s: State, a: Layout) {
    && |a.place| == |s.mem.links| <= NULL_INDEX
    && (forall b :: 0 <= b < |a.place| ==> PlaceOk(s, a, b))
    && (forall b :: b in a.free ==> b < |a.place| && a.place[b] == InFree)
    && (forall b :: b in s.mem.held ==> b < |a.place| && a.place[b] == Held)
  }

  // A head word loaded when the count of updates was `stamp`.
  predicate Loaded(m: Memory, index: nat, stamp: nat) {
    stamp <= m.updates && (stamp == m.updates ==> index == m.headIndex)
  }

  ghost predicate FreshSlab(m: Memory, a: Layout, tid: nat, base: nat) {
    && |a.place| == |m.links| == base + m.perSlab
    && (forall b :: base <= b < |m.links| ==> a.place[b] == Fresh(tid))
    && (forall b :: base <= b < |m.links| - 1 ==> m.links[b] == b + 1)
  }

  ghost predicate GrowthOk(m: Memory, a: Layout, tid: nat, pc: Pc)
    requires InGrowth(pc)
  {
    && m.mutex == Some(tid)
    && (!pc.GrowCount? ==> |m.links| == FirstBlock(m.slabCount, m.perSlab))
    && (pc.GrowPublish? ==>
          pc.slab == m.slabCount && pc.base == |m.links| && pc.base + m.perSlab <= NULL_INDEX)
    && (pc.GrowCount? ==> pc.slab == m.slabCount && pc.base == FirstBlock(pc.slab, m.perSlab))
    && (Unspliced(pc) ==> FreshSlab(m, a, tid, pc.base))
    && (pc.GrowLink? || pc.GrowCas? ==> Loaded(m, pc.head, pc.stamp))
    && (pc.GrowCas? ==> |m.links| > 0 && m.links[|m.links| - 1] == pc.head)
    && (pc.GrowUnlock? && pc.failed ==> AtLimit(m))
  }

  // One more slab would exceed the limit of slabs or of block indices.
  predicate AtLimit(m: Memory) { m.slabCount >= MAX_SLABS || |m.links| + m.perSlab > NULL_INDEX }

  // A thread that is popping or pushing one block.
  ghost predicate BlockOk(m: Memory, a: Layout, tid: nat, pc: Pc)
    requires |a.place| == |m.links|
  {
    && (pc.AllocLink? || pc.AllocCas? ==> pc.index < |m.links| && Loaded(m, pc.index, pc.stamp))
    && (pc.AllocCas? && pc.stamp == m.updates ==> m.links[pc.index] == pc.next)
    && (pc.AllocCount? ==> pc.index < |m.links| && a.place[pc.index] == Popped(tid))
    && (pc.FreeLoad? || pc.FreeLink? || pc.FreeCas? ==>
          pc.index < |m.links| && a.place[pc.index] == Pushing(tid))
    && (pc.FreeLink? || pc.FreeCas? ==> Loaded(m, pc.head, pc.stamp))
    && (pc.FreeCas? ==> m.links[pc.index] == pc.head)
  }

  ghost predicate PcOk(s: State, a: Layout, tid: nat)
    requires tid < |s.pcs| && |a.place| == |s.mem.links|
  {
    && BlockOk(s.mem, a, tid, s.pcs[tid])
    && (InGrowth(s.pcs[tid]) ==> GrowthOk(s.mem, a, tid, s.pcs[tid]))
  }

  ghost function FreeingThreads(s: State): set<nat> {
    set t | 0 <= t < |s.pcs| && Freeing(s.pcs[t])
  }

  ghost predicate Inv(s: State, a: Layout) {
    && s.mem.perSlab > 0
    && Chained(s.mem, a.free)
    && PlacesOk(s, a)
    && (forall t :: 0 <= t < |s.pcs| ==> PcOk(s, a, t))
    && (s.mem.mutex == None ==> |s.mem.links| == FirstBlock(s.mem.slabCount, s.mem.perSlab))
    && (s.mem.mutex.Some? ==> s.mem.mutex.value < |s.pcs| && InGrowth(s.pcs[s.mem.mutex.value]))
    && s.mem.live == |s.mem.held| + |FreeingThreads(s)|
  }

  // ----- Frames: what a step of one thread leaves alone for the others -----

  predicate Owns(p: Place, t: nat) { p == Popped(t) || p == Pushing(t) || p == Fresh(t) }

  ghost predicate Undisturbed(s: State, a: Layout, s': State, a': Layout, k: nat)
    requires k < |s.pcs| == |s'.pcs|
  {
    var m, m' := s.mem, s'.mem;
    && s'.pcs[k] == s.pcs[k]
    && m'.perSlab == m.perSlab
    && |a'.place| == |m'.links| >= |m.links| == |a.place|
    && m.updates <= m'.updates
    && (m.updates == m'.updates ==> m'.headIndex == m.headIndex)
    && (m.updates == m'.updates && m.headIndex < |m.links| ==> m'.links[m.headIndex] == m.links[m.headIndex])
    && (forall b :: 0 <= b < |m.links| && Owns(a.place[b], k) ==>
          a'.place[b] == a.place[b] && m'.links[b] == m.links[b])
    && (InGrowth(s.pcs[k]) ==>
          m'.mutex == m.mutex && m'.slabCount == m.slabCount && |m'.links| == |m.links|)
  }

  lemma PcOkFrame(s: State, a: Layout, s': State, a': Layout, k: nat)
    requires k < |s.pcs| == |s'.pcs| && |a.place| == |s.mem.links| && s.mem.perSlab > 0
    requires PcOk(s, a, k) && Undisturbed(s, a, s', a', k)
    ensures PcOk(s', a', k)
  {
  }

  lemma FreeingAfter(s: State, s': State, tid: nat)
    requires tid < |s.pcs| == |s'.pcs| && s'.pcs == s.pcs[tid := s'.pcs[tid]]
    ensures |FreeingThreads(s')| - |FreeingThreads(s)| ==
            (if Freeing(s'.pcs[tid]) then 1 else 0) - (if Freeing(s.pcs[tid]) then 1 else 0)
  {
    var f, f' := FreeingThreads(s), FreeingThreads(s');
    if Freeing(s.pcs[tid]) {
      if Freeing(s'.pcs[tid]) { assert f' == f; } else { assert f' == f - {tid}; }
    } else {
      if Freeing(s'.pcs[tid]) { assert f' == f + {tid}; } else { assert f' == f; }
    }
  }

  // ----- The chain -----

  // A chain depends only on the links of its own blocks.
  lemma {:induction false} ChainFrame(links: seq<nat>, links': seq<nat>, head: nat, free: seq<nat>)
    requires Chain(links, head, free)
    requires forall b :: b in free && b < |links| ==> b < |links'| && links'[b] == links[b]
    ensures Chain(links', head, free)
    decreases |free|
  {
    if free != [] {
      assert free[0] in free && forall b :: b in free[1..] ==> b in free;
      ChainFrame(links, links', links[head], free[1..]);
    }
  }

  lemma {:induction false} ChainUnique(links: seq<nat>, head: nat, free: seq<nat>, free': seq<nat>)
    requires |links| <= NULL_INDEX
    requires Chain(links, head, free) && Chain(links, head, free')
    ensures free == free'
    decreases |free|
  {
    if free != [] {
      ChainUnique(links, links[head], free[1..], free'[1..]);
      assert free == [free[0]] + free[1..] && free' == [free'[0]] + free'[1..];
    }
  }

  lemma {:induction false} ChainSuffix(links: seq<nat>, head: nat, free: seq<nat>, j: nat)
    requires Chain(links, head, free) && j < |free|
    ensures Chain(links, free[j], free[j..])
    decreases |free|
  {
    if j > 0 {
      ChainSuffix(links, links[head], free[1..], j - 1);
      assert free[1..][j - 1..] == free[j..];
    } else {
      assert free[0..] == free;
    }
  }

  /** The free list is acyclic: no block is on it twice. */
  lemma ChainAcyclic(links: seq<nat>, head: nat, free: seq<nat>, i: nat, j: nat)
    requires |links| <= NULL_INDEX
    requires Chain(links, head, free) && i < j < |free|
    ensures free[i] != free[j]
  {
    if free[i] == free[j] {
      ChainSuffix(links, head, free, i);
      ChainSuffix(links, head, free, j);
      ChainUnique(links, free[i], free[i..], free[j..]);
    }
  }

  lemma PopChain(m: Memory, free: seq<nat>)
    requires |m.links| <= NULL_INDEX && Chained(m, free) && free != []
    ensures Chained(SetHead(m, m.links[free[0]]), free[1..])
    ensures forall b :: b in free <==> b == free[0] || b in free[1..]
    ensures free[0] !in free[1..]
  {
    assert free == [free[0]] + free[1..];
    forall j | 1 <= j < |free| ensures free[j] != free[0] {
      ChainAcyclic(m.links, m.headIndex, free, 0, j);
    }
  }

  lemma PushChain(m: Memory, free: seq<nat>, i: nat)
    requires Chained(m, free) && i < |m.links| && m.links[i] == m.headIndex
    ensures Chained(SetHead(m, i), [i] + free)
  {
  }

  // ----- Each kind of step -----

  // Steps that read shared memory and change only the program counter.
  ghost predicate SameClaims(pc: Pc, pc': Pc) {
    && (Freeing(pc) <==> Freeing(pc'))
    && !pc.AllocCount? && !pc'.AllocCount? && !pc.FreeCount? && !pc'.FreeCount?
    && (Freeing(pc) ==> pc'.index == pc.index)
    && (Unspliced(pc) <==> Unspliced(pc')) && (InGrowth(pc) <==> InGrowth(pc'))
    && (Unspliced(pc) ==> pc'.base == pc.base)
  }

  lemma ReadKeepsInv(s: State, a: Layout, tid: nat, pc: Pc)
    requires Inv(s, a) && tid < |s.pcs| && SameClaims(s.pcs[tid], pc)
    requires PcOk(State(s.mem, s.pcs[tid := pc]), a, tid)
    ensures Inv(State(s.mem, s.pcs[tid := pc]), a)
  {
    var s' := State(s.mem, s.pcs[tid := pc]);
    forall b | 0 <= b < |a.place| ensures PlaceOk(s', a, b) {
      assert PlaceOk(s, a, b);
    }
    forall k | 0 <= k < |s'.pcs| && k != tid ensures PcOk(s', a, k) {
      PcOkFrame(s, a, s', a, k);
    }
    FreeingAfter(s, s', tid);
  }

  // Within the window in which 2^32 updates cannot have happened, the 32-bit
  // comparison succeeds only if the head word was never written in between.
  lemma StampIsExact(m: Memory, index: nat, stamp: nat)
    requires stamp <= m.updates < stamp + GENERATIONS
    ensures HeadIs(m, index, stamp) <==> m.headIndex == index && m.updates == stamp
  {
  }

  lemma AllocCasKeepsPlaces(s: State, a: Layout, tid: nat, next: nat)
    requires Chained(s.mem, a.free) && a.free != [] && PlacesOk(s, a)
    requires tid < |s.pcs| && s.pcs[tid].AllocCas? && s.mem.links[a.free[0]] == next
    ensures a.free[0] < |a.place|
    ensures PlacesOk(State(SetHead(s.mem, next), s.pcs[tid := AllocCount(a.free[0])]),
                     Layout(a.free[1..], a.place[a.free[0] := Popped(tid)]))
  {
    var i := a.free[0];
    PopChain(s.mem, a.free);
    var s' := State(SetHead(s.mem, next), s.pcs[tid := AllocCount(i)]);
    var a' := Layout(a.free[1..], a.place[i := Popped(tid)]);
    forall b | 0 <= b < |a'.place| ensures PlaceOk(s', a', b) {
      assert PlaceOk(s, a, b);
    }
  }

  lemma AllocCasKeepsInv(s: State, a: Layout, tid: nat)
    requires Inv(s, a) && tid < |s.pcs| && s.pcs[tid].AllocCas? && s.pcs[tid].stamp == s.mem.updates
    ensures var i := s.pcs[tid].index;
            && a.free != [] && i == a.free[0] && i < |a.place| && a.place[i] == InFree
            && Inv(State(SetHead(s.mem, s.pcs[tid].next), s.pcs[tid := AllocCount(i)]),
                   Layout(a.free[1..], a.place[i := Popped(tid)]))
  {
    var i, next := s.pcs[tid].index, s.pcs[tid].next;
    assert PcOk(s, a, tid);
    assert a.free[0] == i && i in a.free;
    PopChain(s.mem, a.free);
    AllocCasKeepsPlaces(s, a, tid, next);
    var s' := State(SetHead(s.mem, next), s.pcs[tid := AllocCount(i)]);
    var a' := Layout(a.free[1..], a.place[i := Popped(tid)]);
    forall k | 0 <= k < |s'.pcs| && k != tid ensures PcOk(s', a', k) {
      PcOkFrame(s, a, s', a', k);
    }
    FreeingAfter(s, s', tid);
  }

  lemma AllocReturnKeepsInv(s: State, a: Layout, tid: nat)
    requires Inv(s, a) && tid < |s.pcs| && s.pcs[tid].AllocCount?
    ensures var i := s.pcs[tid].index;
            && i < |a.place| && i !in s.mem.held
            && Inv(State(s.mem.(live := s.mem.live + 1, held := s.mem.held + {i}), s.pcs[tid := AllocReturn(i)]),
                   a.(place := a.place[i := Held]))
  {
    var i := s.pcs[tid].index;
    assert PcOk(s, a, tid);
    var s' := State(s.mem.(live := s.mem.live + 1, held := s.mem.held + {i}), s.pcs[tid := AllocReturn(i)]);
    var a' := a.(place := a.place[i := Held]);
    AllocReturnKeepsPlaces(s, a, tid);
    forall k | 0 <= k < |s'.pcs| && k != tid ensures PcOk(s', a', k) {
      hide PlacesOk, PcOk;
      assert PcOk(s, a, k);
      PcOkFrame(s, a, s', a', k);
    }
    FreeingAfter(s, s', tid);
  }

  lemma AllocReturnKeepsPlaces(s: State, a: Layout, tid: nat)
    requires PlacesOk(s, a) && tid < |s.pcs| && PcOk(s, a, tid) && s.pcs[tid].AllocCount?
    ensures var i := s.pcs[tid].index;
            && i < |a.place| && i !in s.mem.held
            && PlacesOk(State(s.mem.(live := s.mem.live + 1, held := s.mem.held + {i}), s.pcs[tid := AllocReturn(i)]),
                        a.(place := a.place[i := Held]))
  {
    var i := s.pcs[tid].index;
    var s' := State(s.mem.(live := s.mem.live + 1, held := s.mem.held + {i}), s.pcs[tid := AllocReturn(i)]);
    var a' := a.(place := a.place[i := Held]);
    forall b | 0 <= b < |a'.place| ensures PlaceOk(s', a', b) {
      assert PlaceOk(s, a, b);
    }
  }

  lemma CallFreeKeepsInv(s: State, a: Layout, tid: nat, i: nat)
    requires Inv(s, a) && tid < |s.pcs| && CanCall(s.pcs[tid]) && i in s.mem.held
    ensures i < |a.place| &&
            Inv(State(s.mem.(held := s.mem.held - {i}), s.pcs[tid := FreeLoad(i)]),
                a.(place := a.place[i := Pushing(tid)]))
  {
    var s' := State(s.mem.(held := s.mem.held - {i}), s.pcs[tid := FreeLoad(i)]);
    var a' := a.(place := a.place[i := Pushing(tid)]);
    CallFreeKeepsPlaces(s, a, tid, i);
    forall k | 0 <= k < |s'.pcs| && k != tid ensures PcOk(s', a', k) {
      hide PlacesOk, PcOk;
      assert PcOk(s, a, k);
      PcOkFrame(s, a, s', a', k);
    }
    FreeingAfter(s, s', tid);
  }

  lemma CallFreeKeepsPlaces(s: State, a: Layout, tid: nat, i: nat)
    requires PlacesOk(s, a) && tid < |s.pcs| && CanCall(s.pcs[tid]) && i in s.mem.held
    ensures i < |a.place| && a.place[i] == Held &&
            PlacesOk(State(s.mem.(held := s.mem.held - {i}), s.pcs[tid := FreeLoad(i)]),
                     a.(place := a.place[i := Pushing(tid)]))
  {
    var s' := State(s.mem.(held := s.mem.held - {i}), s.pcs[tid := FreeLoad(i)]);
    var a' := a.(place := a.place[i := Pushing(tid)]);
    forall b | 0 <= b < |a'.place| ensures PlaceOk(s', a', b) {
      assert PlaceOk(s, a, b);
    }
  }

  lemma FreeLinkKeepsInv(s: State, a: Layout, tid: nat)
    requires Inv(s, a) && tid < |s.pcs| && s.pcs[tid].FreeLink?
    ensures var pc := s.pcs[tid];
            Inv(State(SetLink(s.mem, pc.index, pc.head), s.pcs[tid := FreeCas(pc.index, pc.head, pc.stamp)]), a)
  {
    var pc := s.pcs[tid];
    assert PcOk(s, a, tid);
    var s' := State(SetLink(s.mem, pc.index, pc.head), s.pcs[tid := FreeCas(pc.index, pc.head, pc.stamp)]);
    ChainFrame(s.mem.links, s'.mem.links, s.mem.headIndex, a.free);
    forall b | 0 <= b < |a.place| ensures PlaceOk(s', a, b) {
      assert PlaceOk(s, a, b);
    }
    assert a.free != [] ==> a.free[0] in a.free;
    forall k | 0 <= k < |s'.pcs| && k != tid ensures PcOk(s', a, k) {
      PcOkFrame(s, a, s', a, k);
    }
    FreeingAfter(s, s', tid);
  }

  lemma FreeCasKeepsPlaces(s: State, a: Layout, tid: nat)
    requires PlacesOk(s, a) && tid < |s.pcs| && s.pcs[tid].FreeCas?
    requires s.pcs[tid].index < |a.place| && a.place[s.pcs[tid].index] == Pushing(tid)
    ensures var i := s.pcs[tid].index;
            PlacesOk(State(SetHead(s.mem, i), s.pcs[tid := FreeCount(i)]),
                     Layout([i] + a.free, a.place[i := InFree]))
  {
    var i := s.pcs[tid].index;
    var s' := State(SetHead(s.mem, i), s.pcs[tid := FreeCount(i)]);
    var a' := Layout([i] + a.free, a.place[i := InFree]);
    forall b | 0 <= b < |a'.place| ensures PlaceOk(s', a', b) {
      assert PlaceOk(s, a, b);
    }
  }

  lemma FreeCasKeepsInv(s: State, a: Layout, tid: nat)
    requires Inv(s, a) && tid < |s.pcs| && s.pcs[tid].FreeCas? && s.pcs[tid].stamp == s.mem.updates
    ensures var i := s.pcs[tid].index;
            && i < |a.place| && i !in a.free
            && Inv(State(SetHead(s.mem, i), s.pcs[tid := FreeCount(i)]),
                   Layout([i] + a.free, a.place[i := InFree]))
  {
    var i := s.pcs[tid].index;
    assert PcOk(s, a, tid);
    var s' := State(SetHead(s.mem, i), s.pcs[tid := FreeCount(i)]);
    var a' := Layout([i] + a.free, a.place[i := InFree]);
    PushChain(s.mem, a.free, i);
    FreeCasKeepsPlaces(s, a, tid);
    forall k | 0 <= k < |s'.pcs| && k != tid ensures PcOk(s', a', k) {
      PcOkFrame(s, a, s', a', k);
    }
    FreeingAfter(s, s', tid);
  }

  lemma FreeCountKeepsInv(s: State, a: Layout, tid: nat)
    requires Inv(s, a) && tid < |s.pcs| && s.pcs[tid].FreeCount?
    ensures Inv(State(s.mem.(live := s.mem.live - 1), s.pcs[tid := FreeReturn]), a)
  {
    var s' := State(s.mem.(live := s.mem.live - 1), s.pcs[tid := FreeReturn]);
    forall b | 0 <= b < |a.place| ensures PlaceOk(s', a, b) {
      assert PlaceOk(s, a, b);
    }
    forall k | 0 <= k < |s'.pcs| && k != tid ensures PcOk(s', a, k) {
      PcOkFrame(s, a, s', a, k);
    }
    FreeingAfter(s, s', tid);
  }

  // ----- Growth -----

  lemma LockKeepsInv(s: State, a: Layout, tid: nat)
    requires Inv(s, a) && tid < |s.pcs| && s.pcs[tid].GrowLock? && s.mem.mutex == None
    ensures Inv(State(s.mem.(mutex := Some(tid)), s.pcs[tid := GrowCheck]), a)
  {
    var s' := State(s.mem.(mutex := Some(tid)), s.pcs[tid := GrowCheck]);
    forall b | 0 <= b < |a.place| ensures PlaceOk(s', a, b) {
      assert PlaceOk(s, a, b);
    }
    forall k | 0 <= k < |s'.pcs| && k != tid ensures PcOk(s', a, k) {
      assert PcOk(s, a, k);
      PcOkFrame(s, a, s', a, k);
    }
    FreeingAfter(s, s', tid);
  }

  lemma UnlockKeepsInv(s: State, a: Layout, tid: nat, pc: Pc)
    requires Inv(s, a) && tid < |s.pcs| && s.pcs[tid].GrowUnlock? && (pc.AllocLoad? || pc.BadAlloc?)
    ensures Inv(State(s.mem.(mutex := None), s.pcs[tid := pc]), a)
  {
    var s' := State(s.mem.(mutex := None), s.pcs[tid := pc]);
    assert PcOk(s, a, tid);
    forall b | 0 <= b < |a.place| ensures PlaceOk(s', a, b) {
      assert PlaceOk(s, a, b);
    }
    forall k | 0 <= k < |s'.pcs| && k != tid ensures PcOk(s', a, k) {
      assert PcOk(s, a, k);
      PcOkFrame(s, a, s', a, k);
    }
    FreeingAfter(s, s', tid);
  }

  function Repeat(p: Place, n: nat): (r: seq<Place>)
    ensures |r| == n
  {
    seq(n, i => p)
  }

  lemma PublishKeepsPlaces(s: State, a: Layout, tid: nat)
    requires PlacesOk(s, a) && tid < |s.pcs| && s.pcs[tid].GrowPublish?
    requires s.pcs[tid].base == |s.mem.links| && s.pcs[tid].base + s.mem.perSlab <= NULL_INDEX
    ensures var pc, n := s.pcs[tid], s.mem.perSlab;
            var links' := s.mem.links + FreshLinks(pc.base, n);
            var s' := State(s.mem.(links := links'), s.pcs[tid := GrowCount(pc.slab, pc.base)]);
            var a' := a.(place := a.place + Repeat(Fresh(tid), n));
            PlacesOk(s', a') && FreshSlab(s'.mem, a', tid, pc.base)
  {
    var pc, n := s.pcs[tid], s.mem.perSlab;
    var links' := s.mem.links + FreshLinks(pc.base, n);
    var s' := State(s.mem.(links := links'), s.pcs[tid := GrowCount(pc.slab, pc.base)]);
    var a' := a.(place := a.place + Repeat(Fresh(tid), n));
    forall b | 0 <= b < |a'.place| ensures PlaceOk(s', a', b) {
      if b < |a.place| { assert PlaceOk(s, a, b); }
    }
  }

  lemma PublishKeepsInv(s: State, a: Layout, tid: nat)
    requires Inv(s, a) && tid < |s.pcs| && s.pcs[tid].GrowPublish?
    ensures var pc, n := s.pcs[tid], s.mem.perSlab;
            Inv(State(s.mem.(links := s.mem.links + FreshLinks(pc.base, n)), s.pcs[tid := GrowCount(pc.slab, pc.base)]),
                a.(place := a.place + Repeat(Fresh(tid), n)))
  {
    var pc, n := s.pcs[tid], s.mem.perSlab;
    var links' := s.mem.links + FreshLinks(pc.base, n);
    var s' := State(s.mem.(links := links'), s.pcs[tid := GrowCount(pc.slab, pc.base)]);
    var a' := a.(place := a.place + Repeat(Fresh(tid), n));
    assert PcOk(s, a, tid);
    ChainFrame(s.mem.links, s'.mem.links, s.mem.headIndex, a.free);
    PublishKeepsPlaces(s, a, tid);
    assert a.free != [] ==> a.free[0] in a.free;
    forall k | 0 <= k < |s'.pcs| && k != tid ensures PcOk(s', a', k) {
      assert PcOk(s, a, k);
      PcOkFrame(s, a, s', a', k);
    }
    FreeingAfter(s, s', tid);
  }

  lemma CountKeepsInv(s: State, a: Layout, tid: nat)
    requires Inv(s, a) && tid < |s.pcs| && s.pcs[tid].GrowCount?
    ensures Inv(State(s.mem.(slabCount := s.pcs[tid].slab + 1), s.pcs[tid := GrowLoad(s.pcs[tid].base)]), a)
  {
    var pc := s.pcs[tid];
    var s' := State(s.mem.(slabCount := pc.slab + 1), s.pcs[tid := GrowLoad(pc.base)]);
    assert PcOk(s, a, tid);
    forall b | 0 <= b < |a.place| ensures PlaceOk(s', a, b) {
      assert PlaceOk(s, a, b);
    }
    forall k | 0 <= k < |s'.pcs| && k != tid ensures PcOk(s', a, k) {
      assert PcOk(s, a, k);
      PcOkFrame(s, a, s', a, k);
    }
    FreeingAfter(s, s', tid);
  }

  lemma GrowLinkKeepsInv(s: State, a: Layout, tid: nat)
    requires Inv(s, a) && tid < |s.pcs| && s.pcs[tid].GrowLink?
    ensures var pc := s.pcs[tid];
            Inv(State(SetLink(s.mem, pc.base + s.mem.perSlab - 1, pc.head),
                      s.pcs[tid := GrowCas(pc.base, pc.head, pc.stamp)]), a)
  {
    var pc := s.pcs[tid];
    assert PcOk(s, a, tid);
    var last := pc.base + s.mem.perSlab - 1;
    assert a.place[last] == Fresh(tid);
    var s' := State(SetLink(s.mem, last, pc.head), s.pcs[tid := GrowCas(pc.base, pc.head, pc.stamp)]);
    ChainFrame(s.mem.links, s'.mem.links, s.mem.headIndex, a.free);
    assert a.free != [] ==> a.free[0] in a.free;
    forall b | 0 <= b < |a.place| ensures PlaceOk(s', a, b) {
      assert PlaceOk(s, a, b);
    }
    forall k | 0 <= k < |s'.pcs| && k != tid ensures PcOk(s', a, k) {
      assert PcOk(s, a, k);
      PcOkFrame(s, a, s', a, k);
    }
    FreeingAfter(s, s', tid);
  }

  // The blocks base, base + 1, ..., base + n - 1.
  function Slab(base: nat, n: nat): (r: seq<nat>)
    ensures |r| == n
    ensures forall i :: 0 <= i < n ==> r[i] == base + i
  {
    seq(n, i requires 0 <= i => base + i)
  }

  lemma {:induction false} SpliceChain(links: seq<nat>, head: nat, free: seq<nat>, base: nat, n: nat)
    requires Chain(links, head, free) && n > 0 && base + n == |links|
    requires forall b :: base <= b < |links| - 1 ==> links[b] == b + 1
    requires links[|links| - 1] == head
    ensures Chain(links, base, Slab(base, n) + free)
    decreases n
  {
    var all := Slab(base, n) + free;
    if n == 1 {
      assert all[1..] == free;
    } else {
      SpliceChain(links, head, free, base + 1, n - 1);
      assert all[1..] == Slab(base + 1, n - 1) + free;
    }
  }

  lemma SpliceKeepsPlaces(s: State, a: Layout, tid: nat)
    requires PlacesOk(s, a) && tid < |s.pcs| && s.pcs[tid].GrowCas?
    requires FreshSlab(s.mem, a, tid, s.pcs[tid].base)
    ensures var base, n := s.pcs[tid].base, s.mem.perSlab;
            PlacesOk(State(SetHead(s.mem, base), s.pcs[tid := GrowUnlock(false)]),
                     Layout(Slab(base, n) + a.free, a.place[..base] + Repeat(InFree, n)))
  {
    var base, n := s.pcs[tid].base, s.mem.perSlab;
    var s' := State(SetHead(s.mem, base), s.pcs[tid := GrowUnlock(false)]);
    var a' := Layout(Slab(base, n) + a.free, a.place[..base] + Repeat(InFree, n));
    forall b | 0 <= b < |a'.place| ensures PlaceOk(s', a', b) {
      assert PlaceOk(s, a, b);
      if b >= base { assert a'.free[b - base] == b; }
    }
    forall b | b in a'.free ensures b < |a'.place| && a'.place[b] == InFree {
      if b in a.free {
        assert a.place[b] == InFree && b < base;
      } else {
        assert b in Slab(base, n);
      }
    }
  }

  lemma GrowCasKeepsInv(s: State, a: Layout, tid: nat)
    requires Inv(s, a) && tid < |s.pcs| && s.pcs[tid].GrowCas? && s.pcs[tid].stamp == s.mem.updates
    ensures var base, n := s.pcs[tid].base, s.mem.perSlab;
            && base <= |a.place|
            && Inv(State(SetHead(s.mem, base), s.pcs[tid := GrowUnlock(false)]),
                   Layout(Slab(base, n) + a.free, a.place[..base] + Repeat(InFree, n)))
  {
    var base, n := s.pcs[tid].base, s.mem.perSlab;
    assert PcOk(s, a, tid);
    var s' := State(SetHead(s.mem, base), s.pcs[tid := GrowUnlock(false)]);
    var a' := Layout(Slab(base, n) + a.free, a.place[..base] + Repeat(InFree, n));
    SpliceChain(s.mem.links, s.mem.headIndex, a.free, base, n);
    SpliceKeepsPlaces(s, a, tid);
    forall k | 0 <= k < |s'.pcs| && k != tid ensures PcOk(s', a', k) {
      assert PcOk(s, a, k);
      PcOkFrame(s, a, s', a', k);
    }
    FreeingAfter(s, s', tid);
  }

  // ----- Every step keeps the invariant -----

  predicate HasStamp(pc: Pc) {
    pc.AllocLink? || pc.AllocCas? || pc.FreeLink? || pc.FreeCas? || pc.GrowLink? || pc.GrowCas?
  }

  // No thread holds a head word loaded 2^32 or more updates ago.
  ghost predicate Recent(s: State) {
    forall t :: 0 <= t < |s.pcs| && HasStamp(s.pcs[t]) ==> s.mem.updates < s.pcs[t].stamp + GENERATIONS
  }

  lemma PcIsOk(s: State, a: Layout, tid: nat)
    requires Inv(s, a) && tid < |s.pcs|
    ensures PcOk(s, a, tid) && Chained(s.mem, a.free) && s.mem.perSlab > 0
    ensures s.mem.mutex == None ==> |s.mem.links| == FirstBlock(s.mem.slabCount, s.mem.perSlab)
  {
  }

  lemma AllocStepKeepsInv(s: State, a: Layout, tid: nat, c: Choice) returns (a': Layout)
    requires Inv(s, a) && Recent(s) && tid < |s.pcs| && Allocating(s.pcs[tid])
    ensures Inv(Step(s, tid, c), a')
  {
    hide Inv;
    a' := a;
    var pc := s.pcs[tid];
    PcIsOk(s, a, tid);
    if pc.AllocCount? {
      AllocReturnKeepsInv(s, a, tid);
      a' := a.(place := a.place[pc.index := Held]);
    } else if pc.AllocCas? {
      StampIsExact(s.mem, pc.index, pc.stamp);
      if HeadIs(s.mem, pc.index, pc.stamp) && c != SpuriousFailure {
        AllocCasKeepsInv(s, a, tid);
        a' := Layout(a.free[1..], a.place[pc.index := Popped(tid)]);
      } else {
        ReadKeepsInv(s, a, tid, AllocLoad);
      }
    } else {
      AllocReadKeepsInv(s, a, tid, c);
    }
  }

  lemma AllocReadKeepsInv(s: State, a: Layout, tid: nat, c: Choice)
    requires Inv(s, a) && tid < |s.pcs| && (s.pcs[tid].AllocLoad? || s.pcs[tid].AllocLink?)
    ensures Inv(Step(s, tid, c), a)
  {
    hide Inv;
    PcIsOk(s, a, tid);
    if s.pcs[tid].AllocLink? {
      ReadKeepsInv(s, a, tid, AllocCas(s.pcs[tid].index, s.pcs[tid].stamp, Link(s.mem, s.pcs[tid].index)));
    } else if s.mem.headIndex == NULL_INDEX {
      ReadKeepsInv(s, a, tid, GrowLock);
    } else {
      ReadKeepsInv(s, a, tid, AllocLink(s.mem.headIndex, s.mem.updates));
    }
  }

  lemma FreeStepKeepsInv(s: State, a: Layout, tid: nat, c: Choice) returns (a': Layout)
    requires Inv(s, a) && Recent(s) && tid < |s.pcs| && Freeing(s.pcs[tid])
    ensures Inv(Step(s, tid, c), a')
  {
    hide Inv;
    a' := a;
    var pc := s.pcs[tid];
    PcIsOk(s, a, tid);
    if pc.FreeCount? {
      FreeCountKeepsInv(s, a, tid);
    } else if pc.FreeLink? {
      FreeLinkKeepsInv(s, a, tid);
    } else if pc.FreeCas? {
      StampIsExact(s.mem, pc.head, pc.stamp);
      if HeadIs(s.mem, pc.head, pc.stamp) && c != SpuriousFailure {
        FreeCasKeepsInv(s, a, tid);
        a' := Layout([pc.index] + a.free, a.place[pc.index := InFree]);
      } else {
        ReadKeepsInv(s, a, tid, FreeLink(pc.index, s.mem.headIndex, s.mem.updates));
      }
    } else {
      ReadKeepsInv(s, a, tid, FreeLink(pc.index, s.mem.headIndex, s.mem.updates));
    }
  }

  lemma GrowStepKeepsInv(s: State, a: Layout, tid: nat, c: Choice) returns (a': Layout)
    requires Inv(s, a) && Recent(s) && tid < |s.pcs| && (InGrowth(s.pcs[tid]) || s.pcs[tid].GrowLock?)
    ensures Inv(Step(s, tid, c), a')
  {
    hide Inv;
    a' := a;
    var pc := s.pcs[tid];
    PcIsOk(s, a, tid);
    if pc.GrowPublish? {
      PublishKeepsInv(s, a, tid);
      a' := a.(place := a.place + Repeat(Fresh(tid), s.mem.perSlab));
    } else if pc.GrowCas? && s.mem.updates == pc.stamp && c != SpuriousFailure {
      GrowCasKeepsInv(s, a, tid);
      a' := Layout(Slab(pc.base, s.mem.perSlab) + a.free, a.place[..pc.base] + Repeat(InFree, s.mem.perSlab));
    } else if pc.GrowLock? && s.mem.mutex == None {
      LockKeepsInv(s, a, tid);
    } else if pc.GrowUnlock? {
      UnlockKeepsInv(s, a, tid, if pc.failed then BadAlloc else AllocLoad);
    } else if pc.GrowCount? {
      CountKeepsInv(s, a, tid);
    } else if pc.GrowLink? {
      GrowLinkKeepsInv(s, a, tid);
    } else {
      GrowReadKeepsInv(s, a, tid, c);
    }
  }

  lemma GrowReadKeepsInv(s: State, a: Layout, tid: nat, c: Choice)
    requires Inv(s, a) && Recent(s) && tid < |s.pcs|
    requires var pc := s.pcs[tid];
             || (pc.GrowLock? && s.mem.mutex != None) || pc.GrowCheck? || pc.GrowStart? || pc.GrowLoad?
             || (pc.GrowCas? && (s.mem.updates != pc.stamp || c == SpuriousFailure))
    ensures Inv(Step(s, tid, c), a)
  {
    hide Inv;
    var pc := s.pcs[tid];
    PcIsOk(s, a, tid);
    if pc.GrowCas? {
      StampIsExact(s.mem, pc.head, pc.stamp);
      ReadKeepsInv(s, a, tid, GrowLink(pc.base, s.mem.headIndex, s.mem.updates));
    } else if pc.GrowLoad? {
      ReadKeepsInv(s, a, tid, GrowLink(pc.base, s.mem.headIndex, s.mem.updates));
    } else {
      ReadKeepsInv(s, a, tid, ActGrow(s.mem, pc, tid, c).1);
    }
  }

  lemma StepKeepsInv(s: State, a: Layout, tid: nat, c: Choice) returns (a': Layout)
    requires Inv(s, a) && Recent(s)
    ensures Inv(Step(s, tid, c), a')
  {
    a' := a;
    if tid >= |s.pcs| { return; }
    var pc := s.pcs[tid];
    if Allocating(pc) {
      a' := AllocStepKeepsInv(s, a, tid, c);
    } else if Freeing(pc) {
      a' := FreeStepKeepsInv(s, a, tid, c);
    } else if CanCall(pc) {
      if c.CallFree? && c.b in s.mem.held {
        CallFreeKeepsInv(s, a, tid, c.b);
        a' := a.(place := a.place[c.b := Pushing(tid)]);
      } else {
        ReadKeepsInv(s, a, tid, Call(s.mem, pc, c).1);
      }
    } else {
      a' := GrowStepKeepsInv(s, a, tid, c);
    }
  }

  lemma InitInv(perSlab: nat, threads: nat)
    requires 1 <= perSlab <= NULL_INDEX
    ensures Inv(Init(perSlab, threads), Layout(Slab(0, perSlab), Repeat(InFree, perSlab)))
  {
    var s := Init(perSlab, threads);
    var a := Layout(Slab(0, perSlab), Repeat(InFree, perSlab));
    SpliceChain(s.mem.links, NULL_INDEX, [], 0, perSlab);
    assert Slab(0, perSlab) + [] == Slab(0, perSlab);
    assert FirstBlock(1, perSlab) == FirstBlock(0, perSlab) + perSlab;
    forall b | 0 <= b < perSlab ensures PlaceOk(s, a, b) {
      assert a.free[b] == b;
    }
    assert FreeingThreads(s) == {};
  }

  // A schedule in which no load of the head word is 2^32 updates old when its
  // thread next moves.
  ghost predicate Timely(perSlab: nat, threads: nat, sched: Schedule)
    requires 1 <= perSlab <= NULL_INDEX
  {
    forall k :: 0 <= k <= |sched| ==> Recent(Exec(Init(perSlab, threads), sched[..k]))
  }

  lemma {:induction false} ReachableInv(perSlab: nat, threads: nat, sched: Schedule) returns (a: Layout)
    requires 1 <= perSlab <= NULL_INDEX && Timely(perSlab, threads, sched)
    ensures Inv(Exec(Init(perSlab, threads), sched), a)
    decreases |sched|
  {
    if sched == [] {
      InitInv(perSlab, threads);
      a := Layout(Slab(0, perSlab), Repeat(InFree, perSlab));
    } else {
      var last := |sched| - 1;
      assert forall k :: 0 <= k <= last ==> sched[..last][..k] == sched[..k];
      var before := ReachableInv(perSlab, threads, sched[..last]);
      assert Recent(Exec(Init(perSlab, threads), sched[..last]));
      a := StepKeepsInv(Exec(Init(perSlab, threads), sched[..last]), before, sched[last].0, sched[last].1);
    }
  }

  // ----- Main results -----

  ghost predicate PoppedBy(s: State, t: nat, b: nat) { t < |s.pcs| && s.pcs[t] == AllocCount(b) }

  ghost predicate PushedBy(s: State, t: nat, b: nat) { t < |s.pcs| && Pushes(s.pcs[t], b) }

  ghost predicate FreshOf(s: State, t: nat, b: nat) {
    t < |s.pcs| && Unspliced(s.pcs[t]) && s.pcs[t].base <= b < s.pcs[t].base + s.mem.perSlab
  }

  // The thread in whose hands block b is, if any.
  ghost predicate InHandsOf(s: State, t: nat, b: nat) {
    PoppedBy(s, t, b) || PushedBy(s, t, b) || FreshOf(s, t, b)
  }

  // Every published block is on the free list, held by a caller, or in the
  // hands of one thread, and in one of these places only.
  ghost predicate Partitioned(s: State, free: seq<nat>) {
    forall b: nat :: b < |s.mem.links| ==>
      && !(b in free && b in s.mem.held)
      && (b in free || b in s.mem.held ==> forall t: nat :: !InHandsOf(s, t, b))
      && (b !in free && b !in s.mem.held ==> exists t: nat :: InHandsOf(s, t, b))
      && (forall t: nat, u: nat :: InHandsOf(s, t, b) && InHandsOf(s, u, b) ==> t == u)
  }

  lemma HandsByPlace(s: State, a: Layout, t: nat, b: nat)
    requires Inv(s, a) && b < |s.mem.links|
    ensures InHandsOf(s, t, b) <==> t < |s.pcs| && Owns(a.place[b], t)
  {
    assert PlaceOk(s, a, b);
    if t < |s.pcs| { assert PcOk(s, a, t); }
  }

  lemma InvPartitions(s: State, a: Layout)
    requires Inv(s, a)
    ensures Partitioned(s, a.free)
  {
    forall b: nat | b < |s.mem.links|
      ensures !(b in a.free && b in s.mem.held)
      ensures b in a.free || b in s.mem.held ==> forall t: nat :: !InHandsOf(s, t, b)
      ensures b !in a.free && b !in s.mem.held ==> exists t: nat :: InHandsOf(s, t, b)
      ensures forall t: nat, u: nat :: InHandsOf(s, t, b) && InHandsOf(s, u, b) ==> t == u
    {
      assert PlaceOk(s, a, b);
      forall t: nat ensures InHandsOf(s, t, b) <==> t < |s.pcs| && Owns(a.place[b], t) {
        HandsByPlace(s, a, t, b);
      }
      if b !in a.free && b !in s.mem.held {
        assert InHandsOf(s, a.place[b].owner, b);
      }
    }
  }

  // ----- What callers see -----

  datatype Op = Allocate | Free(b: nat)

  // The calls threads are in, the calls that ended with what they returned, and
  // the blocks that `allocate` returned and callers did not give back.
  datatype Calls = Calls(pending: seq<Option<Op>>, ended: seq<(Op, Pc)>, out: multiset<nat>)

  // The record of calls after one step of a thread.  Callers give back only
  // blocks they have.
  function Observed(h: Calls, tid: nat, c: Choice, pc: Pc, pc': Pc): Calls
    requires tid < |h.pending|
  {
    if CanCall(pc) then
      if c.CallAlloc? then h.(pending := h.pending[tid := Some(Allocate)])
      else if c.CallFree? && c.b in h.out then
        h.(pending := h.pending[tid := Some(Free(c.b))], out := h.out - multiset{c.b})
      else h
    else if CanCall(pc') then
      Calls(h.pending[tid := None],
            h.ended + (if h.pending[tid].Some? then [(h.pending[tid].value, pc')] else []),
            h.out + (if pc'.AllocReturn? then multiset{pc'.index} else multiset{}))
    else h
  }

  function CallsOf(perSlab: nat, threads: nat, sched: Schedule): (h: Calls)
    requires 1 <= perSlab <= NULL_INDEX
    ensures |h.pending| == threads
    decreases |sched|
  {
    if sched == [] then Calls(seq(threads, _ => None), [], multiset{})
    else
      var before, (tid, c) := sched[..|sched| - 1], sched[|sched| - 1];
      var h, s := CallsOf(perSlab, threads, before), Exec(Init(perSlab, threads), before);
      if tid >= threads then h else Observed(h, tid, c, s.pcs[tid], Step(s, tid, c).pcs[tid])
  }

  predicate PendingOk(p: Option<Op>, pc: Pc) {
    match p
    case None => CanCall(pc)
    case Some(Allocate) => !CanCall(pc) && !Freeing(pc)
    case Some(Free(b)) => Freeing(pc) && pc.index == b
  }

  predicate EndedOk(op: Op, result: Pc) {
    if op.Allocate? then result.AllocReturn? || result.BadAlloc? else result.FreeReturn?
  }

  // Callers' records agree with the pool's: no block is out twice, every call in
  // progress is the one its thread made, and calls end with their own results.
  ghost predicate Accounted(s: State, h: Calls) {
    && |h.pending| == |s.pcs| && h.out == multiset(s.mem.held)
    && (forall t :: 0 <= t < |s.pcs| ==> PendingOk(h.pending[t], s.pcs[t]))
    && (forall i :: 0 <= i < |h.ended| ==> EndedOk(h.ended[i].0, h.ended[i].1))
  }

  // What one step does to the blocks in callers' hands, and how calls end.
  lemma ActEnds(m: Memory, pc: Pc, tid: nat, c: Choice)
    ensures var (m', pc') := Act(m, pc, tid, c);
            if CanCall(pc) then m'.held == if c.CallFree? then m.held - {c.b} else m.held
            else
              && (pc'.AllocReturn? ==> pc == AllocCount(pc'.index))
              && (pc'.BadAlloc? ==> pc == GrowUnlock(true))
              && m'.held == if pc'.AllocReturn? then m.held + {pc'.index} else m.held
  {
    if CanCall(pc) && c.CallFree? && c.b !in m.held { assert m.held - {c.b} == m.held; }
  }

  lemma PoppedNotHeld(s: State, a: Layout, tid: nat)
    requires Inv(s, a) && tid < |s.pcs|
    ensures s.pcs[tid].AllocCount? ==>
              && s.pcs[tid].index < |s.mem.links| && s.pcs[tid].index !in s.mem.held
              && forall t: nat :: InHandsOf(s, t, s.pcs[tid].index) <==> t == tid
    ensures s.pcs[tid] == GrowUnlock(true) ==> AtLimit(s.mem)
  {
    assert PcOk(s, a, tid);
    if s.pcs[tid].AllocCount? {
      forall t: nat ensures InHandsOf(s, t, s.pcs[tid].index) <==> t == tid {
        HandsByPlace(s, a, t, s.pcs[tid].index);
      }
    }
  }

  lemma PendingMoves(m: Memory, pc: Pc, tid: nat, c: Choice, p: Option<Op>)
    requires PendingOk(p, pc)
    ensures var pc' := Act(m, pc, tid, c).1;
            if CanCall(pc) then
              PendingOk(if c.CallAlloc? then Some(Allocate)
                        else if c.CallFree? && c.b in m.held then Some(Free(c.b)) else p, pc')
            else if CanCall(pc') then p.Some? && EndedOk(p.value, pc') && PendingOk(None, pc')
            else PendingOk(p, pc')
  {
  }

  lemma OneMore(held: set<nat>, b: nat)
    ensures b !in held ==> multiset(held + {b}) == multiset(held) + multiset{b}
    ensures b in held ==> multiset(held - {b}) == multiset(held) - multiset{b}
    ensures b !in held ==> held - {b} == held
  {
  }

  lemma StepAccounts(s: State, a: Layout, h: Calls, tid: nat, c: Choice)
    requires Inv(s, a) && Accounted(s, h) && tid < |s.pcs|
    ensures var s' := Step(s, tid, c); Accounted(s', Observed(h, tid, c, s.pcs[tid], s'.pcs[tid]))
  {
    hide Inv, Act, PendingOk, EndedOk, InHandsOf;
    var pc := s.pcs[tid];
    var (m', pc') := Act(s.mem, pc, tid, c);
    ActEnds(s.mem, pc, tid, c);
    PoppedNotHeld(s, a, tid);
    PendingMoves(s.mem, pc, tid, c, h.pending[tid]);
    var s', h' := Step(s, tid, c), Observed(h, tid, c, pc, pc');
    assert c.CallFree? ==> (c.b in h.out <==> c.b in s.mem.held);
    forall t | 0 <= t < |s.pcs| ensures PendingOk(h'.pending[t], s'.pcs[t]) {
      if t != tid { assert PendingOk(h.pending[t], s.pcs[t]); }
    }
    assert h'.out == multiset(m'.held) by {
      if c.CallFree? { OneMore(s.mem.held, c.b); }
      if pc'.AllocReturn? { OneMore(s.mem.held, pc'.index); }
    }
  }

  lemma {:induction false} CallsAccounted(perSlab: nat, threads: nat, sched: Schedule)
    requires 1 <= perSlab <= NULL_INDEX && Timely(perSlab, threads, sched)
    ensures Accounted(Exec(Init(perSlab, threads), sched), CallsOf(perSlab, threads, sched))
    decreases |sched|
  {
    hide Accounted, Inv, Recent;
    if sched == [] {
      assert Accounted(Init(perSlab, threads), CallsOf(perSlab, threads, [])) by { NoCalls(perSlab, threads); }
    } else {
      var last := |sched| - 1;
      assert forall k :: 0 <= k <= last ==> sched[..last][..k] == sched[..k];
      CallsAccounted(perSlab, threads, sched[..last]);
      var a := ReachableInv(perSlab, threads, sched[..last]);
      if sched[last].0 < threads {
        StepAccounts(Exec(Init(perSlab, threads), sched[..last]), a, CallsOf(perSlab, threads, sched[..last]),
                     sched[last].0, sched[last].1);
      }
    }
  }

  lemma NoCalls(perSlab: nat, threads: nat)
    requires 1 <= perSlab <= NULL_INDEX
    ensures Accounted(Init(perSlab, threads), CallsOf(perSlab, threads, []))
  {
  }

  /** In every timely interleaving of allocate, deallocate and grow: the links
      form one acyclic null-terminated free list from the head, every
      published block is in exactly one place, held blocks are published, and
      the live count is the held blocks plus the frees still in progress.  The
      blocks held are those that calls returned and callers did not give back,
      each returned once. */
  lemma Ownership(perSlab: nat, threads: nat, sched: Schedule) returns (free: seq<nat>)
    requires 1 <= perSlab <= NULL_INDEX && Timely(perSlab, threads, sched)
    ensures var s := Exec(Init(perSlab, threads), sched);
            && Chain(s.mem.links, s.mem.headIndex, free)
            && (forall i, j :: 0 <= i < j < |free| ==> free[i] != free[j])
            && Partitioned(s, free)
            && (forall b :: b in s.mem.held ==> b < |s.mem.links|)
            && s.mem.live == |s.mem.held| + |FreeingThreads(s)|
            && Accounted(s, CallsOf(perSlab, threads, sched))
  {
    hide Accounted;
    var s := Exec(Init(perSlab, threads), sched);
    var a := ReachableInv(perSlab, threads, sched);
    free := a.free;
    InvPartitions(s, a);
    forall i, j | 0 <= i < j < |free| ensures free[i] != free[j] {
      ChainAcyclic(s.mem.links, s.mem.headIndex, free, i, j);
    }
    CallsAccounted(perSlab, threads, sched);
  }

  /** A call that ends with block b had it in its own hands only: no caller held
      it, no other thread was freeing or splicing it, and now the callers hold it
      and nothing else that they did not hold.  A call fails only when one more
      slab would exceed a limit. */
  lemma HandsOutOne(perSlab: nat, threads: nat, sched: Schedule, tid: nat, c: Choice)
    requires 1 <= perSlab <= NULL_INDEX && Timely(perSlab, threads, sched)
    requires tid < threads && !CanCall(Exec(Init(perSlab, threads), sched).pcs[tid])
    ensures var s := Exec(Init(perSlab, threads), sched);
            var s', pc' := Step(s, tid, c), Step(s, tid, c).pcs[tid];
            && (pc'.AllocReturn? ==>
                  && pc'.index < |s.mem.links| && pc'.index !in s.mem.held
                  && s'.mem.held == s.mem.held + {pc'.index}
                  && forall t: nat :: InHandsOf(s, t, pc'.index) <==> t == tid)
            && (!pc'.AllocReturn? ==> s'.mem.held == s.mem.held)
            && (pc'.BadAlloc? ==> AtLimit(s.mem))
  {
    hide Inv, Act, InHandsOf, Timely;
    var s := Exec(Init(perSlab, threads), sched);
    var a := ReachableInv(perSlab, threads, sched);
    ActEnds(s.mem, s.pcs[tid], tid, c);
    PoppedNotHeld(s, a, tid);
  }

  /** The compare-and-swap of a pop succeeds exactly if no head update happened
      since the head was loaded (and it does not fail spuriously); otherwise the
      call changes nothing and starts over.  If it succeeds it takes the block at
      the head of the free list and installs the link that block has now, however
      long ago the link was read; so a stale link never survives, and the block
      handed out is in no other hands. */
  lemma StaleLinkNeverSurvives(perSlab: nat, threads: nat, sched: Schedule, tid: nat, c: Choice)
    requires 1 <= perSlab <= NULL_INDEX && Timely(perSlab, threads, sched)
    requires tid < threads && Exec(Init(perSlab, threads), sched).pcs[tid].AllocCas?
    ensures var s := Exec(Init(perSlab, threads), sched);
            var s', i := Step(s, tid, c), s.pcs[tid].index;
            if s.pcs[tid].stamp == s.mem.updates && c != SpuriousFailure then
              && s'.pcs[tid] == AllocCount(i) && i == s.mem.headIndex && i < |s.mem.links|
              && s'.mem.headIndex == s.mem.links[i]
              && i !in s.mem.held
              && forall t: nat :: !InHandsOf(s, t, i)
            else s'.pcs[tid] == AllocLoad && s'.mem == s.mem
  {
    var s := Exec(Init(perSlab, threads), sched);
    var a := ReachableInv(perSlab, threads, sched);
    assert sched[..|sched|] == sched;
    assert Recent(s);
    assert PcOk(s, a, tid);
    StampIsExact(s.mem, s.pcs[tid].index, s.pcs[tid].stamp);
    InvPartitions(s, a);
    if s.pcs[tid].stamp == s.mem.updates { assert s.pcs[tid].index in a.free; }
  }

  // ----- A thread that is not disturbed finishes its call -----

  // How many steps of its own a call still needs at most: few if the head word
  // it loaded is still there and the list is not empty.
  function Rank(m: Memory, pc: Pc): nat {
    var start := if m.headIndex == NULL_INDEX then 16 else 4;
    match pc
    case AllocLoad => start
    case AllocLink(i, stamp) => 3 + if HeadIs(m, i, stamp) then 0 else start
    case AllocCas(i, stamp, _) => 2 + if HeadIs(m, i, stamp) then 0 else start
    case AllocCount(_) => 1
    case GrowLock => if m.headIndex == NULL_INDEX then 15 else 7
    case GrowCheck => if m.headIndex == NULL_INDEX then 14 else 6
    case GrowStart => 13
    case GrowPublish(_, _) => 12
    case GrowCount(_, _) => 11
    case GrowLoad(_) => 10
    case GrowLink(_, head, stamp) => if HeadIs(m, head, stamp) then 9 else 11
    case GrowCas(_, head, stamp) => if HeadIs(m, head, stamp) then 8 else 10
    case GrowUnlock(failed) => if failed then 1 else 1 + start
    case FreeLoad(_) => 4
    case FreeLink(_, head, stamp) => if HeadIs(m, head, stamp) then 3 else 5
    case FreeCas(_, head, stamp) => if HeadIs(m, head, stamp) then 2 else 4
    case FreeCount(_) => 1
    case _ => 0
  }

  // No other thread is growing the pool.
  ghost predicate OnlyOneGrows(s: State, tid: nat) {
    forall t :: 0 <= t < |s.pcs| && t != tid ==> !InGrowth(s.pcs[t])
  }

  // No other thread holds the growth lock.
  predicate Unhindered(m: Memory, pc: Pc, tid: nat) {
    && m.mutex == (if InGrowth(pc) then Some(tid) else None)
    && (pc.GrowPublish? || Unspliced(pc) ==> pc.base < NULL_INDEX)
  }

  // The next step of a thread that is not hindered.
  ghost predicate Falls(m: Memory, pc: Pc, tid: nat) {
    var (m', pc') := Act(m, pc, tid, Go);
    Unhindered(m', pc', tid) && if CanCall(pc) then CanCall(pc') else Rank(m', pc') < Rank(m, pc)
  }

  lemma BlockRankFalls(m: Memory, pc: Pc, tid: nat)
    requires Unhindered(m, pc, tid) && (CanCall(pc) || Allocating(pc) || Freeing(pc))
    ensures Falls(m, pc, tid)
  {
    hide ActGrow;
  }

  lemma GrowRankFalls(m: Memory, pc: Pc, tid: nat)
    requires Unhindered(m, pc, tid) && !CanCall(pc) && !Allocating(pc) && !Freeing(pc)
    ensures Falls(m, pc, tid)
  {
    hide ActAlloc, ActFree, FirstBlock, FreshLinks;
  }

  lemma Unlocked(s: State, a: Layout, tid: nat)
    requires Inv(s, a) && tid < |s.pcs|
    requires OnlyOneGrows(s, tid)
    ensures Unhindered(s.mem, s.pcs[tid], tid)
  {
    assert PcOk(s, a, tid);
  }

  function Solo(tid: nat, steps: nat): Schedule { seq(steps, _ => (tid, Go)) }

  lemma {:induction false} SoloRank(s: State, tid: nat, steps: nat)
    requires tid < |s.pcs| && Unhindered(s.mem, s.pcs[tid], tid)
    ensures var s' := Exec(s, Solo(tid, steps));
            && Unhindered(s'.mem, s'.pcs[tid], tid)
            && (CanCall(s'.pcs[tid]) || Rank(s'.mem, s'.pcs[tid]) + steps <= Rank(s.mem, s.pcs[tid]))
  {
    hide Unhindered, Rank, Act;
    if steps > 0 {
      SoloRank(s, tid, steps - 1);
      assert Solo(tid, steps)[..steps - 1] == Solo(tid, steps - 1);
      var before := Exec(s, Solo(tid, steps - 1));
      var m, pc := before.mem, before.pcs[tid];
      if CanCall(pc) || Allocating(pc) || Freeing(pc) {
        BlockRankFalls(m, pc, tid);
      } else {
        GrowRankFalls(m, pc, tid);
      }
    }
  }

  lemma RankZero(m: Memory, pc: Pc)
    ensures Rank(m, pc) <= 19 && (Rank(m, pc) == 0 <==> CanCall(pc))
  {
  }

  /** From every reachable state in which no other thread is growing the pool,
      nineteen steps of one thread finish its call. */
  lemma FinishesAlone(perSlab: nat, threads: nat, sched: Schedule, tid: nat)
    requires 1 <= perSlab <= NULL_INDEX && Timely(perSlab, threads, sched) && tid < threads
    requires OnlyOneGrows(Exec(Init(perSlab, threads), sched), tid)
    ensures CanCall(Exec(Exec(Init(perSlab, threads), sched), Solo(tid, 19)).pcs[tid])
  {
    hide Inv, Unhindered, Rank, Solo, Timely, Step;
    var s := Exec(Init(perSlab, threads), sched);
    var a := ReachableInv(perSlab, threads, sched);
    Unlocked(s, a, tid);
    SoloRank(s, tid, 19);
    RankZero(s.mem, s.pcs[tid]);
    var s' := Exec(s, Solo(tid, 19));
    RankZero(s'.mem, s'.pcs[tid]);
  }

  // ----- One thread running alone -----

  function ActAlone(m: Memory, pc: Pc, tid: nat, call: Choice, steps: nat): (Memory, Pc) {
    if steps == 0 then (m, pc)
    else
      var (m', pc') := ActAlone(m, pc, tid, call, steps - 1);
      Act(m', pc', tid, if steps == 1 then call else Go)
  }

  /** Freeing a held block without interference puts it at the head of the
      free list, and an allocation that follows hands the same block out again
      and leaves the list as it was. */
  lemma FreeThenAllocate(m: Memory, free: seq<nat>, tid: nat, b: nat)
    requires Chain(m.links, m.headIndex, free) && b in m.held && b < |m.links| <= NULL_INDEX && b !in free
    ensures var (m1, pc1) := ActAlone(m, Idle, tid, CallFree(b), 5);
            && pc1 == FreeReturn && m1.held == m.held - {b} && m1.live == m.live - 1
            && Chain(m1.links, m1.headIndex, [b] + free)
            && var (m2, pc2) := ActAlone(m1, Idle, tid, CallAlloc, 5);
               && pc2 == AllocReturn(b) && m2.held == m.held && m2.live == m.live
               && Chain(m2.links, m2.headIndex, free)
  {
    FreeAlone(m, tid, b);
    var m1 := SetHead(m.(held := m.held - {b}, links := m.links[b := m.headIndex]), b).(live := m.live - 1);
    ChainFrame(m.links, m1.links, m.headIndex, free);
    assert ([b] + free)[1..] == free;
    AllocAlone(m1, tid);
  }

  lemma FreeAlone(m: Memory, tid: nat, b: nat)
    requires b in m.held && b < |m.links|
    ensures ActAlone(m, Idle, tid, CallFree(b), 5) ==
            (SetHead(m.(held := m.held - {b}, links := m.links[b := m.headIndex]), b).(live := m.live - 1), FreeReturn)
  {
    var m1 := m.(held := m.held - {b});
    assert ActAlone(m, Idle, tid, CallFree(b), 1) == (m1, FreeLoad(b));
    assert ActAlone(m, Idle, tid, CallFree(b), 2) == (m1, FreeLink(b, m.headIndex, m.updates));
    var m3 := m1.(links := m.links[b := m.headIndex]);
    assert ActAlone(m, Idle, tid, CallFree(b), 3) == (m3, FreeCas(b, m.headIndex, m.updates));
    assert ActAlone(m, Idle, tid, CallFree(b), 4) == (SetHead(m3, b), FreeCount(b));
  }

  lemma AllocAlone(m: Memory, tid: nat)
    requires m.headIndex < |m.links| <= NULL_INDEX
    ensures var i := m.headIndex;
            ActAlone(m, Idle, tid, CallAlloc, 5) ==
            (SetHead(m, m.links[i]).(live := m.live + 1, held := m.held + {i}), AllocReturn(i))
  {
    var i := m.headIndex;
    assert ActAlone(m, Idle, tid, CallAlloc, 1) == (m, AllocLoad);
    assert ActAlone(m, Idle, tid, CallAlloc, 2) == (m, AllocLink(i, m.updates));
    assert ActAlone(m, Idle, tid, CallAlloc, 3) == (m, AllocCas(i, m.updates, m.links[i]));
    assert ActAlone(m, Idle, tid, CallAlloc, 4) == (SetHead(m, m.links[i]), AllocCount(i));
  }

  /** Allocating from an empty list without interference fails exactly when
      one more slab would exceed the slab or index limit; otherwise it adds
      one slab, whose first block is handed out next. */
  lemma GrowAlone(m: Memory, tid: nat)
    requires m.headIndex == NULL_INDEX && m.mutex == None && m.perSlab > 0
    requires |m.links| == FirstBlock(m.slabCount, m.perSlab)
    ensures var fits := m.slabCount < 1024 && |m.links| + m.perSlab <= 0xFFFF_FFFF;
            && (!fits ==> ActAlone(m, Idle, tid, CallAlloc, 6) == (m, BadAlloc))
            && (fits ==>
                  var (m', pc) := ActAlone(m, Idle, tid, CallAlloc, 11);
                  && pc == AllocLoad && m'.held == m.held && m'.mutex == None
                  && m'.slabCount == m.slabCount + 1 && |m'.links| == |m.links| + m.perSlab
                  && m.links <= m'.links
                  && Chain(m'.links, m'.headIndex, Slab(|m.links|, m.perSlab)))
  {
    hide Chain, Slab, FirstBlock;
    var base, n := |m.links|, m.perSlab;
    GrowAloneStarts(m, tid);
    var m3 := m.(mutex := Some(tid));
    if m.slabCount < MAX_SLABS && base + n <= NULL_INDEX {
      var m6 := m3.(links := m.links + FreshLinks(base, n));
      assert ActAlone(m, Idle, tid, CallAlloc, 6) == (m6, GrowCount(m.slabCount, base));
      var m7 := m6.(slabCount := m.slabCount + 1);
      GrowAloneSplices(m, tid, m7, base);
    } else {
      assert ActAlone(m, Idle, tid, CallAlloc, 6) == (m, BadAlloc);
    }
  }

  lemma GrowAloneStarts(m: Memory, tid: nat)
    requires m.headIndex == NULL_INDEX && m.mutex == None && m.perSlab > 0
    requires |m.links| == FirstBlock(m.slabCount, m.perSlab)
    ensures var fits := m.slabCount < MAX_SLABS && |m.links| + m.perSlab <= NULL_INDEX;
            ActAlone(m, Idle, tid, CallAlloc, 5) ==
            (m.(mutex := Some(tid)), if fits then GrowPublish(m.slabCount, |m.links|) else GrowUnlock(true))
  {
    hide FirstBlock;
    assert ActAlone(m, Idle, tid, CallAlloc, 1) == (m, AllocLoad);
    assert ActAlone(m, Idle, tid, CallAlloc, 2) == (m, GrowLock);
    var m3 := m.(mutex := Some(tid));
    assert ActAlone(m, Idle, tid, CallAlloc, 3) == (m3, GrowCheck);
    assert ActAlone(m, Idle, tid, CallAlloc, 4) == (m3, GrowStart);
  }

  lemma GrowAloneLinks(m: Memory, tid: nat, m7: Memory, base: nat)
    requires m7.perSlab > 0 && m7.headIndex == NULL_INDEX && |m7.links| == base + m7.perSlab
    requires ActAlone(m, Idle, tid, CallAlloc, 6) == (m7.(slabCount := m.slabCount), GrowCount(m.slabCount, base))
    requires m7.slabCount == m.slabCount + 1
    ensures ActAlone(m, Idle, tid, CallAlloc, 9) ==
            (m7.(links := m7.links[|m7.links| - 1 := NULL_INDEX]), GrowCas(base, NULL_INDEX, m7.updates))
  {
    assert ActAlone(m, Idle, tid, CallAlloc, 7) == (m7, GrowLoad(base));
    assert ActAlone(m, Idle, tid, CallAlloc, 8) == (m7, GrowLink(base, NULL_INDEX, m7.updates));
  }

  lemma GrowAloneSplices(m: Memory, tid: nat, m7: Memory, base: nat)
    requires m7.perSlab > 0 && m7.headIndex == NULL_INDEX
    requires |m7.links| == base + m7.perSlab
    requires forall b :: base <= b < |m7.links| - 1 ==> m7.links[b] == b + 1
    requires ActAlone(m, Idle, tid, CallAlloc, 6) == (m7.(slabCount := m.slabCount), GrowCount(m.slabCount, base))
    requires m7.slabCount == m.slabCount + 1
    ensures var (m', pc) := ActAlone(m, Idle, tid, CallAlloc, 11);
            && pc == AllocLoad
            && m' == SetHead(m7, base).(mutex := None, links := m7.links[|m7.links| - 1 := NULL_INDEX])
            && Chain(m'.links, m'.headIndex, Slab(base, m7.perSlab))
  {
    GrowAloneLinks(m, tid, m7, base);
    var m9 := m7.(links := m7.links[|m7.links| - 1 := NULL_INDEX]);
    assert ActAlone(m, Idle, tid, CallAlloc, 10) == (SetHead(m9, base), GrowUnlock(false));
    assert ActAlone(m, Idle, tid, CallAlloc, 11) == (SetHead(m9, base).(mutex := None), AllocLoad);
    SpliceChain(m9.links, NULL_INDEX, [], base, m7.perSlab);
    assert Slab(base, m7.perSlab) + [] == Slab(base, m7.perSlab);
  }

  // ----- Words and pointers -----

  function Pack(index: nat, generation: nat): nat
    requires index < GENERATIONS && generation < GENERATIONS
  {
    generation * GENERATIONS + index
  }

  function IndexOf(word: nat): nat { word % GENERATIONS }

  function GenerationOf(word: nat): nat { (word / GENERATIONS) % GENERATIONS }

  /** The head word is a faithful encoding: comparing words is comparing index
      and generation. */
  lemma PackRoundTrip(index: nat, generation: nat)
    requires index < 0x1_0000_0000 && generation < 0x1_0000_0000
    ensures IndexOf(Pack(index, generation)) == index
    ensures GenerationOf(Pack(index, generation)) == generation
  {
  }

  // `block_ptr`: the address of a block, given the addresses of the slabs.
  function BlockPtr(slabs: seq<nat>, perSlab: nat, stride: nat, index: nat): nat
    requires perSlab > 0 && index / perSlab < |slabs|
  {
    slabs[index / perSlab] + (index % perSlab) * stride
  }

  // Slabs are separate allocations.
  ghost predicate Disjoint(slabs: seq<nat>, size: nat) {
    forall s, t :: 0 <= s < t < |slabs| ==> slabs[s] + size <= slabs[t] || slabs[t] + size <= slabs[s]
  }

  // Address p lies in slab s, and the index it then has.
  predicate InSlab(slabs: seq<nat>, s: nat, size: nat, p: nat)
    requires s < |slabs|
  {
    slabs[s] <= p < slabs[s] + size
  }

  function IndexIn(slabs: seq<nat>, s: nat, perSlab: nat, stride: nat, p: nat): int
    requires s < |slabs| && stride > 0
  {
    s * perSlab + (p - slabs[s]) / stride
  }

  /** `index_from_ptr` answers from the slab that contains the address, and
      null for an address outside every slab. */
  method IndexFromPtr(slabs: seq<nat>, perSlab: nat, stride: nat, p: nat) returns (r: int)
    requires perSlab > 0 && stride > 0 && Disjoint(slabs, stride * perSlab)
    ensures (forall s :: 0 <= s < |slabs| ==> !InSlab(slabs, s, stride * perSlab, p)) ==> r == NULL_INDEX
    ensures forall s :: 0 <= s < |slabs| && InSlab(slabs, s, stride * perSlab, p) ==>
              r == IndexIn(slabs, s, perSlab, stride, p)
  {
    hide IndexIn;
    var s, size := 0, stride * perSlab;
    while s < |slabs|
      invariant 0 <= s <= |slabs|
      invariant forall k :: 0 <= k < s ==> !InSlab(slabs, k, size, p)
    {
      if InSlab(slabs, s, size, p) {
        r := IndexIn(slabs, s, perSlab, stride, p);
        return;
      }
      s := s + 1;
    }
    r := NULL_INDEX;
  }

  /** A block lies in its own slab, whole and at a multiple of the stride, and
      the index computed there is the block's: `index_from_ptr` undoes
      `block_ptr`. */
  lemma PointerRoundTrip(slabs: seq<nat>, perSlab: nat, stride: nat, index: nat)
    requires perSlab > 0 && index / perSlab < |slabs| && stride > 0
    ensures var s, p := index / perSlab, BlockPtr(slabs, perSlab, stride, index);
            && slabs[s] <= p && p + stride <= slabs[s] + stride * perSlab && (p - slabs[s]) % stride == 0
            && InSlab(slabs, s, stride * perSlab, p) && IndexIn(slabs, s, perSlab, stride, p) == index
  {
    var r := index % perSlab;
    assert index == (index / perSlab) * perSlab + r;
    DivModUnique(r * stride, stride, r, 0);
    InsideSlab(r, perSlab, stride);
  }

  lemma {:induction false} InsideSlab(r: nat, n: nat, stride: nat)
    requires r < n && stride > 0
    ensures r * stride + stride <= stride * n
    decreases n
  {
    assert stride * n == stride * (n - 1) + stride;
    if r < n - 1 { InsideSlab(r, n - 1, stride); }
  }
}
