// Arithmetic shared by the ring buffers: residues of tickets modulo the
// capacity, powers of two, and the mask that replaces the modulo.
module RingArith {

  /** The slot of a ticket: the ticket modulo the capacity. */
  function SlotOf(t: nat, n: nat): (i: nat)
    requires n > 0
    ensures i < n
  {
    if t < n then t else SlotOf(t - n, n)
  }

  lemma {:induction false} SlotIsModulo(t: nat, n: nat)
    requires n > 0
    ensures SlotOf(t, n) == t % n
  {
    if t >= n {
      SlotIsModulo(t - n, n);
      LapKeepsResidue(t - n, n);
    }
  }

  /** Two tickets less than one lap apart that share a slot are the same ticket. */
  lemma SameSlotSameTicket(a: nat, b: nat, n: nat)
    requires n > 0
    requires a <= b < a + n
    requires SlotOf(a, n) == SlotOf(b, n)
    ensures a == b
  {
  }

  lemma NearbyTicketsShareSlotIffEqual(a: nat, b: nat, n: nat)
    requires n > 0
    requires a < b + n && b < a + n
    ensures SlotOf(a, n) == SlotOf(b, n) <==> a == b
  {
  }

  lemma LapKeepsSlot(t: nat, n: nat)
    requires n > 0
    ensures SlotOf(t + n, n) == SlotOf(t, n)
  {
  }

  /** Two tickets that share a slot and lie less than two laps apart are equal or one lap apart. */
  lemma SameSlotWithinTwoLaps(a: nat, b: nat, n: nat)
    requires n > 0
    requires a <= b < a + 2 * n
    requires SlotOf(a, n) == SlotOf(b, n)
    ensures b == a || b == a + n
  {
  }

  lemma MultipleAwayFromZero(n: nat, q: int)
    ensures q >= 1 ==> n * q >= n
    ensures q <= -1 ==> n * q + n <= 0
  {
  }

  lemma MulMonotone(a: nat, b: nat, n: nat)
    requires a <= b
    ensures a * n <= b * n
  {
  }

  lemma LapKeepsResidue(t: int, n: nat)
    requires n > 0
    ensures (t + n) % n == t % n
  {
    DivModUnique(t + n, n, t / n + 1, t % n);
  }

  lemma DivModUnique(x: int, n: nat, q: int, r: nat)
    requires n > 0 && r < n
    requires x == q * n + r
    ensures x / n == q && x % n == r
  {
    var d := x / n - q;
    assert d * n == r - x % n by {
      assert x == (x / n) * n + x % n;
      assert d * n == (x / n) * n - q * n;
    }
    assert d * n == n * d;
    MultipleAwayFromZero(n, d);
  }

  function Pow2(k: nat): (p: nat)
    ensures p >= 1
  {
    if k == 0 then 1 else 2 * Pow2(k - 1)
  }

  ghost predicate IsPow2(n: nat) { exists k: nat :: n == Pow2(k) }

  /** Bitwise conjunction, bit by bit from the least significant end. */
  function BitAnd(a: nat, b: nat): (r: nat) {
    if a == 0 || b == 0 then 0
    else (if a % 2 == 1 && b % 2 == 1 then 1 else 0) + 2 * BitAnd(a / 2, b / 2)
  }

  /** `pos & mask_` is the slot of `pos` when the capacity is a power of two. */
  lemma {:induction false} MaskIsSlot(x: nat, k: nat)
    ensures BitAnd(x, Pow2(k) - 1) == SlotOf(x, Pow2(k))
  {
    MaskIsModulo(x, k);
    SlotIsModulo(x, Pow2(k));
  }

  lemma {:induction false} MaskIsModulo(x: nat, k: nat)
    ensures BitAnd(x, Pow2(k) - 1) == x % Pow2(k)
    decreases k
  {
    if k == 0 || x == 0 {
      assert Pow2(0) == 1;
    } else {
      MaskIsModulo(x / 2, k - 1);
      HalfMask(Pow2(k - 1));
      ModuloByHalves(x, Pow2(k - 1));
    }
  }

  lemma HalfMask(m: nat)
    requires m > 0
    ensures (2 * m - 1) / 2 == m - 1 && (2 * m - 1) % 2 == 1
  {
  }

  lemma ModuloByHalves(x: nat, m: nat)
    requires m > 0
    ensures x % (2 * m) == x % 2 + 2 * ((x / 2) % m)
  {
    var y := x / 2;
    var q, r := y / m, y % m;
    assert y == q * m + r;
    assert q * (2 * m) == 2 * (q * m);
    DivModUnique(x, 2 * m, q, x % 2 + 2 * r);
  }

  lemma {:induction false} Pow2Monotone(j: nat, k: nat)
    requires j <= k
    ensures Pow2(j) <= Pow2(k)
    decreases k
  {
    if j < k { Pow2Monotone(j, k - 1); }
  }

  const MAX_SHIFT := 63

  /** The smallest power of two that is at least `v` (and at least 1).  The
      source shifts a 64-bit word, so a request above 2^63 never returns. */
  method RoundUpPow2(v: nat) returns (p: nat)
    requires v <= Pow2(MAX_SHIFT)
    ensures IsPow2(p)
    ensures p >= v
    ensures forall k: nat :: v <= Pow2(k) ==> p <= Pow2(k)
    ensures p >= 2 <==> v >= 2
  {
    p := 1;
    ghost var e: nat := 0;
    assert Pow2(0) == 1;
    while p < v
      invariant p == Pow2(e)
      invariant forall k: nat :: v <= Pow2(k) ==> p <= Pow2(k)
      invariant v < 2 ==> p == 1
      decreases v - p
    {
      forall k: nat | v <= Pow2(k) ensures 2 * p <= Pow2(k) {
        if k <= e { Pow2Monotone(k, e); } else { Pow2Monotone(e + 1, k); }
      }
      p := 2 * p;
      e := e + 1;
      assert p == Pow2(e);
    }
    assert p == Pow2(e);
  }
}
