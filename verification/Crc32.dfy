/** CRC-32 (IEEE 802.3, reflected): the table-driven loop of the source
    against the bit-serial shift register, and what the checksum detects.
    A `uint32_t` is a list of 32 bits, least significant first. */
module Crc32 {
  import opened RingArith
  import opened Bits

  type Bytes = seq<Byte>

  function ZeroBytes(n: nat): (r: Bytes)
    ensures |r| == n
  {
    seq(n, i => 0)
  }

  type Register = w: Word | |w| == 32 witness Zeros(32)

  // A machine word as a register.
  function BitsOf(x: bv32): Register { seq(32, i requires 0 <= i => BitOf(x, i)) }

  function BitOf(x: bv32, i: nat): bool
    decreases i
  {
    if i == 0 then Low(x) else BitOf(Half(x), i - 1)
  }

  function Low(x: bv32): bool { x & 1 != 0 }

  function Half(x: bv32): bv32 { x >> 1 }

  const POLY: Register := BitsOf(0xEDB8_8320)

  // All ones.
  const ONES: Register := Ones()

  function Ones(): Register { seq(32, _ => true) }

  // ----- The reference: one message bit at a time -----

  // One step of the shift register, with nothing fed in.
  function Shift(c: Register): Register {
    if c[0] then Xor(POLY, ShiftRight(c, 1)) else ShiftRight(c, 1)
  }

  // A message bit is added to the register's low bit, which decides whether
  // the polynomial is subtracted.
  function FeedBit(c: Register, bit: bool): Register { Shift(Xor(c, Extend([bit], 32))) }

  function FeedBits(c: Register, bits: Word): Register
    decreases |bits|
  {
    if bits == [] then c else FeedBits(FeedBit(c, bits[0]), bits[1..])
  }

  // The bits of a message: byte by byte, least significant bit first.
  function MessageBits(data: Bytes): (r: Word)
    ensures |r| == 8 * |data|
  {
    if data == [] then [] else ByteBits(data[0]) + MessageBits(data[1..])
  }

  function FeedMessage(data: Bytes): Register { FeedBits(ONES, MessageBits(data)) }

  function Remainder(data: Bytes): Register { Xor(FeedMessage(data), ONES) }

  function Checksum(data: Bytes): nat { ToNat(Remainder(data)) }

  // ----- Algebra of the shift register -----

  function Shifts(c: Register, k: nat): Register
    decreases k
  {
    if k == 0 then c else Shifts(Shift(c), k - 1)
  }

  lemma ShiftLinear(a: Register, b: Register)
    ensures Shift(Xor(a, b)) == Xor(Shift(a), Shift(b))
  {
  }

  lemma {:induction false} ShiftsLinear(a: Register, b: Register, k: nat)
    ensures Shifts(Xor(a, b), k) == Xor(Shifts(a, k), Shifts(b, k))
    decreases k
  {
    if k > 0 {
      ShiftLinear(a, b);
      ShiftsLinear(Shift(a), Shift(b), k - 1);
    }
  }

  // Bits above the k that are shifted out just move down.
  lemma {:induction false} ShiftsHigh(c: Register, k: nat)
    requires k <= 32 && forall i :: 0 <= i < k ==> !c[i]
    ensures Shifts(c, k) == ShiftRight(c, k)
    decreases k
  {
    if k > 0 {
      ShiftsHigh(ShiftRight(c, 1), k - 1);
      assert ShiftRight(ShiftRight(c, 1), k - 1) == ShiftRight(c, k);
    } else {
      assert c[0..] + Zeros(0) == c;
    }
  }

  // Feeding bits one by one is adding them all first and then shifting.
  lemma {:induction false} FeedBitsIsShifts(c: Register, bits: Word)
    requires |bits| <= 32
    ensures FeedBits(c, bits) == Shifts(Xor(c, Extend(bits, 32)), |bits|)
    decreases |bits|
  {
    if bits == [] {
      assert Xor(c, Extend(bits, 32)) == c;
    } else {
      FeedBitsIsShifts(FeedBit(c, bits[0]), bits[1..]);
      AddThenShift(c, bits);
    }
  }

  lemma AddThenShift(c: Register, bits: Word)
    requires 1 <= |bits| <= 32
    ensures Shift(Xor(c, Extend(bits, 32))) == Xor(FeedBit(c, bits[0]), Extend(bits[1..], 32))
  {
  }

  lemma {:induction false} FeedBitsConcat(c: Register, a: Word, b: Word)
    ensures FeedBits(c, a + b) == FeedBits(FeedBits(c, a), b)
    decreases |a|
  {
    if a == [] {
      assert a + b == b;
    } else {
      FeedBitsConcat(FeedBit(c, a[0]), a[1..], b);
      assert (a + b)[1..] == a[1..] + b;
    }
  }

  lemma {:induction false} MessageBitsConcat(a: Bytes, b: Bytes)
    ensures MessageBits(a + b) == MessageBits(a) + MessageBits(b)
    decreases |a|
  {
    hide ByteBits;
    if a == [] {
      assert a + b == b;
    } else {
      MessageBitsConcat(a[1..], b);
      assert (a + b)[0] == a[0] && (a + b)[1..] == a[1..] + b;
      Associative(ByteBits(a[0]), MessageBits(a[1..]), MessageBits(b));
    }
  }

  /** Feeding a byte is one table look-up: the low byte of the register plus
      the message byte selects an entry, the rest of the register moves down. */
  lemma FeedByteByTable(c: Register, b: Byte)
    ensures FeedBits(c, ByteBits(b)) ==
            Xor(Shifts(Extend(Xor(c[..8], ByteBits(b)), 32), 8), ShiftRight(c, 8))
  {
    var low: Register := Extend(Xor(c[..8], ByteBits(b)), 32);
    var high: Register := Zeros(8) + c[8..];
    FeedBitsIsShifts(c, ByteBits(b));
    assert Xor(c, Extend(ByteBits(b), 32)) == Xor(low, high);
    ShiftsLinear(low, high, 8);
    ShiftsHigh(high, 8);
    assert ShiftRight(high, 8) == ShiftRight(c, 8);
  }

  // ----- The source's loops -----

  // `(c ^ data[i]) & 0xFF`.
  function TableIndex(c: Register, b: Byte): Byte {
    BitsRoundTrip(Xor(c[..8], ByteBits(b)));
    ToNat(Xor(c[..8], ByteBits(b)))
  }

  // `table[...] ^ (c >> 8)`.
  function TableNext(entry: Register, c: Register): Register { Xor(entry, ShiftRight(c, 8)) }

  function TableEntry(i: Byte): Register { Shifts(Extend(ByteBits(i), 32), 8) }

  /** Entry i of the table is the register after eight shifts of i. */
  method MakeTable() returns (table: array<Register>)
    ensures fresh(table) && table.Length == 256
    ensures forall i: Byte :: table[i] == TableEntry(i)
  {
    hide TableEntry;
    table := new Register[256](_ => ONES);
    for i := 0 to 256
      invariant forall j: Byte :: j < i ==> table[j] == TableEntry(j)
    {
      table[i] := MakeEntry(i);
    }
  }

  method MakeEntry(i: Byte) returns (c: Register)
    ensures c == TableEntry(i)
  {
    hide Shift, ByteBits, Extend;
    c := Extend(ByteBits(i), 32);
    for k := 0 to 8
      invariant Shifts(c, 8 - k) == TableEntry(i)
    {
      c := Shift(c);
    }
  }

  lemma TableStep(c: Register, b: Byte)
    ensures TableNext(TableEntry(TableIndex(c, b)), c) == FeedBits(c, ByteBits(b))
  {
    BitsRoundTrip(Xor(c[..8], ByteBits(b)));
    FeedByteByTable(c, b);
  }

  /** The table-driven loop computes the bit-serial CRC-32 of every input. */
  method Compute(data: Bytes) returns (r: Register)
    ensures r == Remainder(data)
  {
    var table := MakeTable();
    var c := ONES;
    for i := 0 to |data|
      invariant forall b: Byte :: table[b] == TableEntry(b)
      invariant c == FeedMessage(data[..i])
    {
      NextByte(data, i);
      TableStep(c, data[i]);
      c := TableNext(table[TableIndex(c, data[i])], c);
    }
    assert data[..|data|] == data;
    r := Xor(c, ONES);
  }

  lemma NextByte(data: Bytes, i: nat)
    requires i < |data|
    ensures FeedMessage(data[..i + 1]) == FeedBits(FeedMessage(data[..i]), ByteBits(data[i]))
  {
    assert data[..i + 1] == data[..i] + [data[i]];
    MessageBitsConcat(data[..i], [data[i]]);
    assert MessageBits([data[i]]) == ByteBits(data[i]) + MessageBits([]);
    assert ByteBits(data[i]) + [] == ByteBits(data[i]);
    FeedBitsConcat(ONES, MessageBits(data[..i]), ByteBits(data[i]));
  }

  /** The checksum of nothing is zero. */
  lemma EmptyChecksum()
    ensures Checksum([]) == 0
  {
    assert Remainder([]) == Zeros(32);
    ToNatZeros(32);
  }

  lemma ChecksumBound(data: Bytes)
    ensures Checksum(data) < 0x1_0000_0000
  {
    ToNatBound(Remainder(data));
    WordIsPow2();
  }

  lemma WordIsPow2()
    ensures Pow2(32) == 0x1_0000_0000
  {
    assert Pow2(4) == 16;
    assert Pow2(8) == 16 * Pow2(4);
    assert Pow2(12) == 16 * Pow2(8);
    assert Pow2(16) == 16 * Pow2(12);
    assert Pow2(20) == 16 * Pow2(16);
    assert Pow2(24) == 16 * Pow2(20);
    assert Pow2(28) == 16 * Pow2(24);
    assert Pow2(32) == 16 * Pow2(28);
  }

  // ----- The residue -----

  // The shift register as the source computes it, on machine words.
  function ShiftWord(x: bv32): bv32 { if x & 1 != 0 then 0xEDB8_8320 ^ (x >> 1) else x >> 1 }

  function ShiftWords(x: bv32, k: nat): bv32
    decreases k
  {
    if k == 0 then x else ShiftWords(ShiftWord(x), k - 1)
  }

  function Sum(x: bv32, y: bv32): bv32 { x ^ y }

  lemma SumFacts(x: bv32, y: bv32)
    ensures Low(Sum(x, y)) == (Low(x) != Low(y)) && Half(Sum(x, y)) == Sum(Half(x), Half(y))
  {
  }

  lemma {:induction false} BitOfSum(x: bv32, y: bv32, i: nat)
    ensures BitOf(Sum(x, y), i) == (BitOf(x, i) != BitOf(y, i))
    decreases i
  {
    hide Low, Half, Sum;
    SumFacts(x, y);
    if i > 0 { BitOfSum(Half(x), Half(y), i - 1); }
  }

  lemma BitsOfSum(x: bv32, y: bv32)
    ensures BitsOf(Sum(x, y)) == Xor(BitsOf(x), BitsOf(y))
  {
    hide BitOf, Sum;
    forall i | 0 <= i < 32 ensures BitsOf(Sum(x, y))[i] == Xor(BitsOf(x), BitsOf(y))[i] { BitOfSum(x, y, i); }
  }

  function Nibbles(x: bv32, j: nat): bv32
    decreases j
  {
    if j == 0 then x else Nibbles(x >> 4, j - 1)
  }

  lemma FourHalves(x: bv32)
    ensures Half(Half(Half(Half(x)))) == x >> 4
  {
  }

  // Bits are counted from the lowest of the j-th nibble.
  lemma {:induction false} NibbleUp(x: bv32, j: nat, r: nat)
    ensures BitOf(x, 4 * j + r) == BitOf(Nibbles(x, j), r)
    decreases j
  {
    if j > 0 {
      FourHalves(x);
      hide Half, Low;
      var i := 4 * (j - 1) + r;
      assert BitOf(x, i + 4) == BitOf(Half(x), i + 3) == BitOf(Half(Half(x)), i + 2);
      assert BitOf(Half(Half(x)), i + 2) == BitOf(Half(Half(Half(x))), i + 1);
      NibbleUp(x >> 4, j - 1, r);
    }
  }

  lemma LowBits(x: bv32)
    ensures BitOf(x, 0) == (x & 1 != 0) && BitOf(x, 1) == (x & 2 != 0)
    ensures BitOf(x, 2) == (x & 4 != 0) && BitOf(x, 3) == (x & 8 != 0)
  {
    assert BitOf(Half(Half(Half(x))), 0) == BitOf(x, 3);
  }

  /** The generator of IEEE 802.3: besides x^32 it has the terms x^i for these i.
      The register keeps the coefficient of x^31 in its lowest bit. */
  lemma Generator(i: nat)
    requires i < 32
    ensures POLY[31 - i] <==> i in {0, 1, 2, 4, 5, 7, 8, 10, 11, 12, 16, 22, 23, 26}
  {
    hide BitOf;
    var k := 31 - i;
    NibbleUp(0xEDB88320, k / 4, k % 4);
    LowBits(Nibbles(0xEDB88320, k / 4));
    assert Nibbles(0xEDB88320, 0) == 0xEDB88320;
    assert Nibbles(0xEDB88320, 1) == 0xEDB8832;
    assert Nibbles(0xEDB88320, 2) == 0xEDB883;
    assert Nibbles(0xEDB88320, 3) == 0xEDB88;
    assert Nibbles(0xEDB88320, 4) == 0xEDB8;
    assert Nibbles(0xEDB88320, 5) == 0xEDB;
    assert Nibbles(0xEDB88320, 6) == 0xED;
    assert Nibbles(0xEDB88320, 7) == 0xE;
  }

  lemma OnesWord()
    ensures ONES == BitsOf(0xFFFFFFFF)
  {
    hide BitOf;
    forall k | 0 <= k < 32 ensures BitOf(0xFFFFFFFF, k) {
      NibbleUp(0xFFFFFFFF, k / 4, k % 4);
      LowBits(Nibbles(0xFFFFFFFF, k / 4));
      assert Nibbles(0xFFFFFFFF, 1) == 0xFFFFFFF;
      assert Nibbles(0xFFFFFFFF, 2) == 0xFFFFFF;
      assert Nibbles(0xFFFFFFFF, 3) == 0xFFFFF;
      assert Nibbles(0xFFFFFFFF, 4) == 0xFFFF;
      assert Nibbles(0xFFFFFFFF, 5) == 0xFFF;
      assert Nibbles(0xFFFFFFFF, 6) == 0xFF;
      assert Nibbles(0xFFFFFFFF, 7) == 0xF;
    }
  }

  lemma BitsOfHalf(x: bv32)
    ensures BitsOf(x >> 1) == ShiftRight(BitsOf(x), 1)
  {
    assert Half(x) == x >> 1;
    assert !BitOf(Half(x), 31) by { TopGone(x); }
    hide Low, Half;
    forall i | 0 <= i < 31 ensures BitOf(Half(x), i) == BitOf(x, i + 1) {}
  }

  lemma TopGone(x: bv32)
    ensures !BitOf(Half(x), 31)
  {
    hide BitOf;
    NibbleUp(Half(x), 7, 3);
    LowBits(Nibbles(Half(x), 7));
    assert Nibbles(Half(x), 7) == x >> 29;
  }

  lemma ShiftIsShiftWord(x: bv32)
    ensures Shift(BitsOf(x)) == BitsOf(ShiftWord(x))
  {
    BitsOfHalf(x);
    BitsOfSum(0xEDB88320, x >> 1);
    assert BitsOf(x)[0] == (x & 1 != 0);
    hide BitsOf;
  }

  lemma {:induction false} ShiftsAreShiftWords(x: bv32, k: nat)
    ensures Shifts(BitsOf(x), k) == BitsOf(ShiftWords(x, k))
    decreases k
  {
    hide Shift, ShiftWord, BitsOf;
    if k > 0 {
      ShiftIsShiftWord(x);
      ShiftsAreShiftWords(ShiftWord(x), k - 1);
    }
  }

  lemma {:induction false} ShiftsConcat(c: Register, j: nat, k: nat)
    ensures Shifts(c, j + k) == Shifts(Shifts(c, j), k)
    decreases j
  {
    hide Shift;
    if j > 0 { ShiftsConcat(Shift(c), j - 1, k); }
  }

  lemma EightShifts()
    ensures ShiftWords(0xFFFFFFFF, 8) == 0x2DFD1072 && ShiftWords(0x2DFD1072, 8) == 0xBE26ED00
    ensures ShiftWords(0xBE26ED00, 8) == 0x00BE26ED && ShiftWords(0x00BE26ED, 8) == 0xDEBB20E3
  {
  }

  lemma OnesShifted()
    ensures Shifts(ONES, 32) == BitsOf(0xDEBB20E3)
  {
    hide BitsOf, Shifts, ShiftWords;
    OnesWord();
    EightShifts();
    ShiftsAreShiftWords(0xFFFFFFFF, 8);
    ShiftsAreShiftWords(0x2DFD1072, 8);
    ShiftsConcat(ONES, 8, 8);
    ShiftsAreShiftWords(0xBE26ED00, 8);
    ShiftsConcat(ONES, 16, 8);
    ShiftsAreShiftWords(0x00BE26ED, 8);
    ShiftsConcat(ONES, 24, 8);
  }

  // Feeding a message and then the 32 bits of its checksum leaves the same
  // register whatever the message, and no other 32 bits do.
  lemma ResidueIff(data: Bytes, crc: Register)
    ensures FeedBits(FeedMessage(data), crc) == BitsOf(0xDEBB20E3) <==> crc == Remainder(data)
  {
    hide Shifts, FeedBits, BitsOf, MessageBits;
    var c, r := FeedMessage(data), Remainder(data);
    assert Extend(r, 32) == r;
    FeedBitsIsShifts(c, r);
    XorCancels(ONES, c);
    assert Xor(c, r) == ONES;
    OnesShifted();
    if FeedBits(c, crc) == BitsOf(0xDEBB20E3) { WindowInjective(c, crc, r); }
  }

  // ----- Strength -----

  // The polynomial's top bit is set, so a shift can be undone.
  lemma ShiftInjective(a: Register, b: Register)
    requires Shift(a) == Shift(b)
    ensures a == b
  {
    assert POLY[31] by { Generator(0); }
    assert Shift(a)[31] == a[0] && Shift(b)[31] == b[0];
    assert ShiftRight(a, 1) == ShiftRight(b, 1) by {
      if a[0] { XorInjective(ShiftRight(a, 1), ShiftRight(b, 1), POLY); }
    }
    forall i | 1 <= i < 32 ensures a[i] == b[i] {
      assert ShiftRight(a, 1)[i - 1] == ShiftRight(b, 1)[i - 1];
    }
  }

  lemma {:induction false} ShiftsInjective(a: Register, b: Register, k: nat)
    requires Shifts(a, k) == Shifts(b, k)
    ensures a == b
    decreases k
  {
    if k > 0 {
      ShiftsInjective(Shift(a), Shift(b), k - 1);
      ShiftInjective(a, b);
    }
  }

  lemma {:induction false} FeedBitsInjective(a: Register, b: Register, bits: Word)
    requires FeedBits(a, bits) == FeedBits(b, bits)
    ensures a == b
    decreases |bits|
  {
    if bits != [] {
      var e := Extend([bits[0]], 32);
      FeedBitsInjective(FeedBit(a, bits[0]), FeedBit(b, bits[0]), bits[1..]);
      ShiftInjective(Xor(a, e), Xor(b, e));
      XorCancels(a, e);
      XorCancels(b, e);
    }
  }

  // From one register, different windows of at most 32 bits lead to different
  // registers.
  lemma WindowInjective(c: Register, v: Word, w: Word)
    requires |v| == |w| <= 32 && FeedBits(c, v) == FeedBits(c, w)
    ensures v == w
  {
    FeedBitsIsShifts(c, v);
    FeedBitsIsShifts(c, w);
    ShiftsInjective(Xor(c, Extend(v, 32)), Xor(c, Extend(w, 32)), |v|);
    XorInjective(Extend(v, 32), Extend(w, 32), c);
    assert v == Extend(v, 32)[..|v|] && w == Extend(w, 32)[..|w|];
  }

  lemma BurstMoves(a: Word, v: Word, w: Word, b: Word)
    requires |v| == |w| <= 32 && v != w
    ensures FeedBits(ONES, a + v + b) != FeedBits(ONES, a + w + b)
  {
    if FeedBits(ONES, a + v + b) == FeedBits(ONES, a + w + b) {
      FeedBitsConcat(ONES, a + v, b);
      FeedBitsConcat(ONES, a + w, b);
      FeedBitsInjective(FeedBits(ONES, a + v), FeedBits(ONES, a + w), b);
      FeedBitsConcat(ONES, a, v);
      FeedBitsConcat(ONES, a, w);
      WindowInjective(FeedBits(ONES, a), v, w);
    }
  }

  /** Two messages of one length whose bits differ only inside a window of 32
      consecutive bits, wherever it starts, have different checksums. */
  lemma BurstDetected(x: Bytes, y: Bytes, a: Word, v: Word, w: Word, b: Word)
    requires MessageBits(x) == a + v + b && MessageBits(y) == a + w + b
    requires |v| == |w| <= 32 && v != w
    ensures Checksum(x) != Checksum(y)
  {
    BurstMoves(a, v, w, b);
    if Checksum(x) == Checksum(y) {
      ToNatInjective(Remainder(x), Remainder(y));
      XorCancels(FeedBits(ONES, MessageBits(x)), ONES);
      XorCancels(FeedBits(ONES, MessageBits(y)), ONES);
    }
  }

  lemma {:induction false} MessageBitsInjective(v: Bytes, w: Bytes)
    requires |v| == |w| && MessageBits(v) == MessageBits(w)
    ensures v == w
  {
    if v != [] {
      assert MessageBits(v)[..8] == ByteBits(v[0]) && MessageBits(v)[8..] == MessageBits(v[1..]);
      assert MessageBits(w)[..8] == ByteBits(w[0]) && MessageBits(w)[8..] == MessageBits(w[1..]);
      ByteRoundTrip(v[0]);
      ByteRoundTrip(w[0]);
      MessageBitsInjective(v[1..], w[1..]);
      assert v == [v[0]] + v[1..] && w == [w[0]] + w[1..];
    }
  }

  /** In particular, payloads of one length that differ only inside four
      consecutive bytes have different checksums. */
  lemma FourBytesDetected(a: Bytes, v: Bytes, w: Bytes, b: Bytes)
    requires |v| == |w| <= 4 && v != w
    ensures Checksum(a + v + b) != Checksum(a + w + b)
  {
    MessageBitsConcat(a + v, b);
    MessageBitsConcat(a + w, b);
    MessageBitsConcat(a, v);
    MessageBitsConcat(a, w);
    if MessageBits(v) == MessageBits(w) { MessageBitsInjective(v, w); }
    BurstDetected(a + v + b, a + w + b, MessageBits(a), MessageBits(v), MessageBits(w), MessageBits(b));
  }
}
