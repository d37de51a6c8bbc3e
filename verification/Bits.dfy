/** Machine words as lists of bits, least significant bit first. */
module Bits {
  import opened RingArith

  type Byte = b: nat | b < 256

  type Word = seq<bool>

  function Zeros(n: nat): (r: Word)
    ensures |r| == n
  {
    seq(n, i => false)
  }

  function Xor(a: Word, b: Word): (r: Word)
    requires |a| == |b|
    ensures |r| == |a|
  {
    seq(|a|, i requires 0 <= i < |a| => a[i] != b[i])
  }

  lemma Associative<T>(a: seq<T>, b: seq<T>, c: seq<T>)
    ensures (a + b) + c == a + (b + c)
  {
  }

  /** `w >> k`. */
  function ShiftRight(w: Word, k: nat): (r: Word)
    requires k <= |w|
    ensures |r| == |w|
  {
    w[k..] + Zeros(k)
  }

  /** A short list of bits as a longer word. */
  function Extend(bits: Word, n: nat): (r: Word)
    requires |bits| <= n
    ensures |r| == n
  {
    bits + Zeros(n - |bits|)
  }

  // The low k bits of n.
  function NatBits(n: nat, k: nat): (r: Word)
    ensures |r| == k
  {
    if k == 0 then [] else [n % 2 == 1] + NatBits(n / 2, k - 1)
  }

  function ByteBits(b: Byte): (r: Word)
    ensures |r| == 8
  {
    NatBits(b, 8)
  }

  function ToNat(w: Word): (r: nat) {
    if w == [] then 0 else (if w[0] then 1 else 0) + 2 * ToNat(w[1..])
  }

  lemma {:induction false} ToNatBound(w: Word)
    ensures ToNat(w) < Pow2(|w|)
  {
    if w != [] { ToNatBound(w[1..]); }
  }

  lemma {:induction false} ToNatInjective(v: Word, w: Word)
    requires |v| == |w| && ToNat(v) == ToNat(w)
    ensures v == w
  {
    if v != [] {
      ToNatInjective(v[1..], w[1..]);
      assert v == [v[0]] + v[1..] && w == [w[0]] + w[1..];
    }
  }

  lemma {:induction false} ToNatZeros(n: nat)
    ensures ToNat(Zeros(n)) == 0
  {
    if n > 0 {
      assert Zeros(n)[1..] == Zeros(n - 1);
      ToNatZeros(n - 1);
    }
  }

  lemma {:induction false} NatBitsRoundTrip(n: nat, k: nat)
    requires n < Pow2(k)
    ensures ToNat(NatBits(n, k)) == n
    decreases k
  {
    if k > 0 {
      NatBitsRoundTrip(n / 2, k - 1);
      assert NatBits(n, k)[1..] == NatBits(n / 2, k - 1);
    }
  }

  /** The value of a byte's bits is the byte. */
  lemma ByteRoundTrip(b: Byte)
    ensures ToNat(ByteBits(b)) == b
  {
    assert Pow2(8) == 16 * Pow2(4) && Pow2(4) == 16;
    NatBitsRoundTrip(b, 8);
  }

  /** Every eight bits are the bits of the byte they denote. */
  lemma BitsRoundTrip(w: Word)
    requires |w| == 8
    ensures ToNat(w) < 256 && ByteBits(ToNat(w)) == w
  {
    assert Pow2(8) == 16 * Pow2(4) && Pow2(4) == 16;
    ToNatBound(w);
    ByteRoundTrip(ToNat(w));
    ToNatInjective(ByteBits(ToNat(w)), w);
  }

  lemma XorCancels(a: Word, b: Word)
    requires |a| == |b|
    ensures Xor(Xor(a, b), b) == a && Xor(b, Xor(b, a)) == a
  {
  }

  lemma XorInjective(x: Word, y: Word, z: Word)
    requires |x| == |y| == |z| && Xor(z, x) == Xor(z, y)
    ensures x == y
  {
    XorCancels(x, z);
    XorCancels(y, z);
  }
}
