/** A consistent-hash ring of virtual nodes, for any hash function. */
module ConsistentHash {
  import opened Options
  import opened OffsetKeys

  // Points of the ring and the partition each belongs to.
  type Ring = map<nat, int>

  // The text hashed for a virtual node.
  function Composite(partition: int, v: nat): string { ToString(partition) + "#vnode#" + ToString(v) }

  function Points(hash: string -> nat, partition: int, n: nat): set<nat> {
    set v | 0 <= v < n :: hash(Composite(partition, v))
  }

  // Clockwise from k, point x comes no later than point y.
  predicate NoLater(k: nat, x: nat, y: nat) {
    if k <= x then y < k || x <= y else y < k && x <= y
  }

  // Point x is the first at or after k, wrapping around.
  predicate IsOwner(points: set<nat>, k: nat, x: nat) {
    x in points && forall y :: y in points ==> NoLater(k, x, y)
  }

  /** It is the least of the points from k on, or the least point of all if none
      is left from k on. */
  lemma OwnerIff(points: set<nat>, k: nat, x: nat)
    ensures IsOwner(points, k, x) <==>
            && x in points
            && (x < k ==> forall y :: y in points ==> y < k && x <= y)
            && (x >= k ==> forall y :: y in points && y >= k ==> x <= y)
  {
  }

  lemma {:induction false} OwnerExists(points: set<nat>, k: nat) returns (x: nat)
    requires points != {}
    ensures IsOwner(points, k, x)
    decreases points
  {
    var p :| p in points;
    x := p;
    if points != {p} {
      var y := OwnerExists(points - {p}, k);
      assert forall z :: z in points ==> z == p || z in points - {p};
      if NoLater(k, y, p) { x := y; }
    }
  }

  // The partition that owns hash k.
  ghost function Owner(ring: Ring, k: nat): (p: int)
    requires ring.Keys != {}
    ensures exists x :: IsOwner(ring.Keys, k, x) && p == ring[x]
  {
    OwnerThere(ring.Keys, k);
    var x :| IsOwner(ring.Keys, k, x);
    ring[x]
  }

  lemma OwnerThere(points: set<nat>, k: nat)
    requires points != {}
    ensures exists x :: IsOwner(points, k, x)
  {
    var x := OwnerExists(points, k);
  }

  lemma OwnerAt(ring: Ring, k: nat, x: nat)
    requires IsOwner(ring.Keys, k, x)
    ensures Owner(ring, k) == ring[x]
  {
  }

  function Added(ring: Ring, points: set<nat>, partition: int): Ring {
    map x | x in ring.Keys + points :: if x in points then partition else ring[x]
  }

  function Removed(ring: Ring, points: set<nat>): Ring { ring - points }

  /** Adding a partition moves a key only onto the new partition, even where
      ring points collide. */
  lemma AddMovesOnlyToNew(ring: Ring, points: set<nat>, partition: int, k: nat)
    requires ring.Keys != {}
    ensures Added(ring, points, partition).Keys != {}
    ensures Owner(Added(ring, points, partition), k) in {partition, Owner(ring, k)}
  {
    var ring' := Added(ring, points, partition);
    assert ring'.Keys == ring.Keys + points;
    var x := OwnerExists(ring'.Keys, k);
    OwnerAt(ring', k, x);
    if x !in points {
      assert IsOwner(ring.Keys, k, x);
      OwnerAt(ring, k, x);
    }
  }

  // Every point of the partition that is on the ring is its own.
  predicate Undisputed(ring: Ring, points: set<nat>, partition: int) {
    forall x :: x in points && x in ring ==> ring[x] == partition
  }

  // A key and the owner point it has look for the same next point.
  lemma NextPoint(ring: Ring, points: set<nat>, k: nat, x: nat)
    requires IsOwner(ring.Keys, k, x) && ring.Keys - points != {}
    ensures Removed(ring, points).Keys != {}
    ensures Owner(Removed(ring, points), k) == Owner(Removed(ring, points), x)
  {
  }

  // The owner of hash k, if there is any partition.
  ghost function OwnerOf(ring: Ring, k: nat): Option<int> {
    if ring.Keys == {} then None else Some(Owner(ring, k))
  }

  // Behind point x, once `points` are gone, the same partition comes next.
  ghost predicate SameBehind(ring: Ring, points: set<nat>, x: nat)
    requires x in ring
  {
    exists y :: IsOwner(ring.Keys - points, x, y) && ring[y] == ring[x]
  }

  lemma OwnerBehind(ring: Ring, points: set<nat>, x: nat)
    requires x in ring
    ensures OwnerOf(ring, x) == Some(ring[x])
    ensures OwnerOf(Removed(ring, points), x) == Some(ring[x]) <==> SameBehind(ring, points, x)
  {
  }

  // A key whose owner point stays keeps its owner; another key goes where its
  // owner point would go.
  lemma OwnerAfter(ring: Ring, points: set<nat>, k: nat, x: nat)
    requires IsOwner(ring.Keys, k, x)
    ensures OwnerOf(ring, k) == Some(ring[x])
    ensures OwnerOf(Removed(ring, points), k) == OwnerOf(Removed(ring, points), x)
    ensures x !in points ==> OwnerOf(Removed(ring, points), x) == Some(ring[x])
  {
    var ring' := Removed(ring, points);
    assert ring'.Keys == ring.Keys - points;
    OwnerAt(ring, k, x);
    if ring'.Keys != {} { NextPoint(ring, points, k, x); }
    if x !in points { OwnerAt(ring', x, x); }
  }

  /** Removing a partition moves only its own keys exactly when, behind each of
      its points that another partition took over, that partition comes next. */
  lemma RemoveMovesOnlyOwnIff(ring: Ring, points: set<nat>, partition: int)
    ensures (forall k :: OwnerOf(ring, k) != Some(partition) ==>
               OwnerOf(Removed(ring, points), k) == OwnerOf(ring, k)) <==>
            (forall x :: x in points && x in ring && ring[x] != partition ==> SameBehind(ring, points, x))
  {
    hide SameBehind, Owner;
    forall x | x in ring
      ensures OwnerOf(ring, x) == Some(ring[x])
      ensures OwnerOf(Removed(ring, points), x) == Some(ring[x]) <==> SameBehind(ring, points, x)
    {
      OwnerBehind(ring, points, x);
    }
    if forall x :: x in points && x in ring && ring[x] != partition ==> SameBehind(ring, points, x) {
      forall k | OwnerOf(ring, k) != Some(partition) ensures OwnerOf(Removed(ring, points), k) == OwnerOf(ring, k) {
        if ring.Keys != {} {
          var x := OwnerExists(ring.Keys, k);
          OwnerAfter(ring, points, k, x);
        }
        KeyKept(ring, points, k);
      }
    }
  }

  // A key keeps its owner if behind its owner point, were it removed, the same
  // partition comes next.
  lemma KeyKept(ring: Ring, points: set<nat>, k: nat)
    requires ring.Keys != {} ==>
               exists x :: IsOwner(ring.Keys, k, x) && (x in points ==> SameBehind(ring, points, x))
    ensures OwnerOf(Removed(ring, points), k) == OwnerOf(ring, k)
  {
    hide SameBehind, Owner;
    if ring.Keys == {} {
      assert Removed(ring, points) == ring;
    } else {
      var x :| IsOwner(ring.Keys, k, x) && (x in points ==> SameBehind(ring, points, x));
      OwnerAfter(ring, points, k, x);
      if x in points { OwnerBehind(ring, points, x); }
    }
  }

  /** Adding a partition and removing it again restores the ring exactly when
      none of its points was taken. */
  lemma AddRemoveRestoresRing(ring: Ring, points: set<nat>, partition: int)
    ensures Removed(Added(ring, points, partition), points) == ring <==> points !! ring.Keys
  {
  }

  /** It restores every key's owner exactly when, behind each of its points
      that was taken, the partition that had it comes next. */
  lemma AddRemoveRestoresOwners(ring: Ring, points: set<nat>, partition: int)
    ensures (forall k :: OwnerOf(Removed(Added(ring, points, partition), points), k) == OwnerOf(ring, k)) <==>
            (forall x :: x in points && x in ring ==> SameBehind(ring, points, x))
  {
    hide SameBehind, Owner;
    assert Removed(Added(ring, points, partition), points) == Removed(ring, points);
    forall x | x in ring
      ensures OwnerOf(ring, x) == Some(ring[x])
      ensures OwnerOf(Removed(ring, points), x) == Some(ring[x]) <==> SameBehind(ring, points, x)
    {
      OwnerBehind(ring, points, x);
    }
    if forall x :: x in points && x in ring ==> SameBehind(ring, points, x) {
      forall k ensures OwnerOf(Removed(ring, points), k) == OwnerOf(ring, k) {
        if ring.Keys != {} { OwnerThere(ring.Keys, k); }
        KeyKept(ring, points, k);
      }
    }
  }

  /** When points collide, removing a partition can move another's key: with
      partitions 1 and 2 hashed to point 5, the later one owns it, and removing
      the earlier one gives its key to partition 3. */
  lemma CollisionMovesOthers()
    ensures var ring := Added(Added(Added(map[], {5}, 1), {5}, 2), {9}, 3);
            OwnerOf(ring, 5) == Some(2) && OwnerOf(Removed(ring, {5}), 5) == Some(3)
  {
    var ring := Added(Added(Added(map[], {5}, 1), {5}, 2), {9}, 3);
    assert ring == map[5 := 2, 9 := 3];
    OwnerAt(ring, 5, 5);
    var ring' := Removed(ring, {5});
    assert ring'.Keys == {9};
    OwnerAt(ring', 5, 9);
  }

  // ----- Rings the code builds -----

  datatype Change = Add(partition: int) | Remove(partition: int)

  function Built(hash: string -> nat, n: nat, changes: seq<Change>): Ring {
    if changes == [] then map[]
    else
      var before, c := Built(hash, n, changes[..|changes| - 1]), changes[|changes| - 1];
      var points := Points(hash, c.partition, n);
      if c.Add? then Added(before, points, c.partition) else Removed(before, points)
  }

  // Every point belongs to a partition that has a virtual node there.
  lemma {:induction false} BuiltPoints(hash: string -> nat, n: nat, changes: seq<Change>, x: nat)
    requires x in Built(hash, n, changes)
    ensures x in Points(hash, Built(hash, n, changes)[x], n)
    decreases |changes|
  {
    hide Composite;
    var before, c := Built(hash, n, changes[..|changes| - 1]), changes[|changes| - 1];
    if x !in Points(hash, c.partition, n) { BuiltPoints(hash, n, changes[..|changes| - 1], x); }
  }

  // No two of the partitions have a virtual node at the same point.
  ghost predicate DistinctHashes(hash: string -> nat, n: nat, all: set<int>) {
    forall p, q, x :: p in all && q in all && x in Points(hash, p, n) && x in Points(hash, q, n) ==> p == q
  }

  // Virtual nodes have different texts, so a hash that tells these apart will do.
  lemma CompositeInjective(p: int, v: nat, q: int, w: nat)
    requires Composite(p, v) == Composite(q, w)
    ensures p == q && v == w
  {
    hide ToString;
    var s, t := Composite(p, v), Composite(q, w);
    NoHash(p);
    NoHash(q);
    assert s[|ToString(p)|] == '#' && t[|ToString(q)|] == '#';
    assert |ToString(p)| == |ToString(q)|;
    assert s[..|ToString(p)|] == ToString(p) && t[..|ToString(q)|] == ToString(q);
    ToStringInjective(p, q);
    assert s[|ToString(p)| + 7..] == ToString(v) && t[|ToString(q)| + 7..] == ToString(w);
    ToStringInjective(v, w);
  }

  // A partition then has as many points as virtual nodes.
  lemma {:induction false} PointsCount(hash: string -> nat, partition: int, n: nat)
    requires forall v: nat, w: nat ::
               v < n && w < n && hash(Composite(partition, v)) == hash(Composite(partition, w)) ==> v == w
    ensures |Points(hash, partition, n)| == n
  {
    hide Composite;
    if n == 0 {
      assert Points(hash, partition, n) == {};
    } else {
      PointsCount(hash, partition, n - 1);
      OnePoint(hash, partition, n - 1);
      assert hash(Composite(partition, n - 1)) !in Points(hash, partition, n - 1);
    }
  }

  lemma CollisionFree(hash: string -> nat, n: nat, all: set<int>)
    requires forall p, q, v: nat, w: nat ::
               p in all && q in all && v < n && w < n && hash(Composite(p, v)) == hash(Composite(q, w)) ==>
                 Composite(p, v) == Composite(q, w)
    ensures DistinctHashes(hash, n, all)
  {
    hide Composite;
    forall p, q, x | p in all && q in all && x in Points(hash, p, n) && x in Points(hash, q, n) ensures p == q {
      var v: nat :| v < n && hash(Composite(p, v)) == x;
      var w: nat :| w < n && hash(Composite(q, w)) == x;
      CompositeInjective(p, v, q, w);
    }
  }

  // The changes concern only these partitions.
  predicate Concern(changes: seq<Change>, all: set<int>) {
    forall c :: c in changes ==> c.partition in all
  }

  lemma {:induction false} BuiltPartitions(hash: string -> nat, n: nat, changes: seq<Change>, all: set<int>, x: nat)
    requires Concern(changes, all) && x in Built(hash, n, changes)
    ensures Built(hash, n, changes)[x] in all
    decreases |changes|
  {
    hide Composite, Points;
    var before, c := Built(hash, n, changes[..|changes| - 1]), changes[|changes| - 1];
    assert c in changes;
    if x !in Points(hash, c.partition, n) { BuiltPartitions(hash, n, changes[..|changes| - 1], all, x); }
  }

  lemma BuiltUndisputed(hash: string -> nat, n: nat, changes: seq<Change>, all: set<int>, partition: int)
    requires DistinctHashes(hash, n, all) && Concern(changes, all) && partition in all
    ensures Undisputed(Built(hash, n, changes), Points(hash, partition, n), partition)
  {
    hide Composite, Built, Points;
    var ring, points := Built(hash, n, changes), Points(hash, partition, n);
    forall x | x in points && x in ring ensures ring[x] == partition {
      BuiltPoints(hash, n, changes, x);
      BuiltPartitions(hash, n, changes, all, x);
    }
  }

  lemma LastAddedTakes(hash: string -> nat, n: nat, p: int, q: int, x: nat)
    requires x in Points(hash, p, n) && x in Points(hash, q, n)
    ensures x in Built(hash, n, [Add(p), Add(q)]) && Built(hash, n, [Add(p), Add(q)])[x] == q
  {
    hide Points;
    assert [Add(p), Add(q)][..1] == [Add(p)];
  }

  /** No point is ever disputed, whatever additions and removals built the ring,
      exactly when different partitions' virtual nodes all hash differently. */
  lemma UndisputedIffDistinct(hash: string -> nat, n: nat, all: set<int>)
    ensures DistinctHashes(hash, n, all) <==>
            forall changes, p :: Concern(changes, all) && p in all ==>
              Undisputed(Built(hash, n, changes), Points(hash, p, n), p)
  {
    hide Built, Points;
    if DistinctHashes(hash, n, all) {
      forall changes, p | Concern(changes, all) && p in all
        ensures Undisputed(Built(hash, n, changes), Points(hash, p, n), p)
      {
        BuiltUndisputed(hash, n, changes, all, p);
      }
    } else {
      var p, q, x :| p in all && q in all && x in Points(hash, p, n) && x in Points(hash, q, n) && p != q;
      LastAddedTakes(hash, n, p, q, x);
      assert Concern([Add(p), Add(q)], all);
      assert !Undisputed(Built(hash, n, [Add(p), Add(q)]), Points(hash, p, n), p);
    }
  }

  /** Then, on every ring that additions and removals build, removing a
      partition moves only its own keys. */
  lemma RemoveMovesOnlyOwn(hash: string -> nat, n: nat, changes: seq<Change>, all: set<int>, partition: int, k: nat)
    requires DistinctHashes(hash, n, all) && Concern(changes, all) && partition in all
    ensures var ring, ring' := Built(hash, n, changes), Built(hash, n, changes + [Remove(partition)]);
            OwnerOf(ring, k) != Some(partition) ==> OwnerOf(ring', k) == OwnerOf(ring, k)
  {
    hide Points, Owner, SameBehind;
    BuiltUndisputed(hash, n, changes, all, partition);
    RemoveMovesOnlyOwnIff(Built(hash, n, changes), Points(hash, partition, n), partition);
    assert (changes + [Remove(partition)])[..|changes|] == changes;
  }

  /** And adding a partition that has no point on the ring, then removing it,
      restores the ring, and so every key's owner. */
  lemma AddRemoveRestores(hash: string -> nat, n: nat, changes: seq<Change>, all: set<int>, partition: int)
    requires DistinctHashes(hash, n, all) && Concern(changes, all) && partition in all
    requires partition !in Built(hash, n, changes).Values
    ensures Built(hash, n, changes + [Add(partition), Remove(partition)]) == Built(hash, n, changes)
  {
    hide Points, Undisputed, DistinctHashes, Concern;
    var ring, points := Built(hash, n, changes), Points(hash, partition, n);
    BuiltUndisputed(hash, n, changes, all, partition);
    NoPointTaken(ring, points, partition);
    AddRemoveRestoresRing(ring, points, partition);
    var added, both := changes + [Add(partition)], changes + [Add(partition), Remove(partition)];
    assert added[..|changes|] == changes && both[..|added|] == added;
  }

  lemma NoPointTaken(ring: Ring, points: set<nat>, partition: int)
    requires Undisputed(ring, points, partition) && partition !in ring.Values
    ensures points !! ring.Keys
  {
    assert forall x :: x in ring ==> ring[x] in ring.Values;
  }

  class ConsistentHashRing {
    const virtualNodes: nat
    const hash: string -> nat
    var ring: Ring

    constructor (hash: string -> nat, virtualNodes: nat)
      ensures ring == map[] && this.hash == hash && this.virtualNodes == virtualNodes
    {
      this.hash, this.virtualNodes := hash, virtualNodes;
      ring := map[];
    }

    method AddPartition(partition: int)
      modifies this
      ensures ring == Added(old(ring), Points(hash, partition, virtualNodes), partition)
    {
      for v := 0 to virtualNodes
        invariant ring == Added(old(ring), Points(hash, partition, v), partition)
      {
        OnePoint(hash, partition, v);
        ring := ring[hash(Composite(partition, v)) := partition];
      }
    }

    method RemovePartition(partition: int)
      modifies this
      ensures ring == Removed(old(ring), Points(hash, partition, virtualNodes))
    {
      for v := 0 to virtualNodes
        invariant ring == Removed(old(ring), Points(hash, partition, v))
      {
        OnePoint(hash, partition, v);
        ring := ring - {hash(Composite(partition, v))};
      }
    }

    /** The owner of a key, or nothing on an empty ring. */
    method PartitionFor(key: string) returns (r: Option<int>)
      ensures r == if ring.Keys == {} then None else Some(Owner(ring, hash(key)))
    {
      if ring.Keys == {} { return None; }
      var x := FirstFrom(ring.Keys, hash(key));
      OwnerAt(ring, hash(key), x);
      return Some(ring[x]);
    }
  }

  lemma OnePoint(hash: string -> nat, partition: int, v: nat)
    ensures Points(hash, partition, v + 1) == Points(hash, partition, v) + {hash(Composite(partition, v))}
  {
  }

  // The first point at or after k, or the least point if there is none.
  method FirstFrom(points: set<nat>, k: nat) returns (x: nat)
    requires points != {}
    ensures IsOwner(points, k, x)
  {
    x :| x in points;
    var left := points - {x};
    while left != {}
      invariant left <= points && x in points - left
      invariant forall y :: y in points - left ==> NoLater(k, x, y)
      decreases left
    {
      var y :| y in left;
      ghost var seen := points - left;
      assert forall z :: z in seen ==> NoLater(k, x, z);
      left := left - {y};
      assert points - left == seen + {y};
      if !NoLater(k, x, y) { x := y; }
    }
  }
}
