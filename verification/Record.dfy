/** The record format of a segment file, and what a front-to-back scan makes of
    any bytes: round trip, crash recovery, and detection of corruption. */
module Record {
  import opened Bits
  import opened Crc32
  import opened RingArith

  const HEADER: nat := 16
  const MAX_LEN: nat := 0x1_0000_0000
  const MAX_OFFSET: nat := 0x1_0000_0000_0000_0000

  // ----- Little-endian integers -----

  function EncodeLE(n: nat, k: nat): (r: Bytes)
    ensures |r| == k
  {
    if k == 0 then [] else [n % 256] + EncodeLE(n / 256, k - 1)
  }

  function DecodeLE(b: Bytes): (r: nat) {
    if b == [] then 0 else b[0] as nat + 256 * DecodeLE(b[1..])
  }

  function Pow256(k: nat): (r: nat)
    ensures r > 0
  {
    if k == 0 then 1 else 256 * Pow256(k - 1)
  }

  lemma FieldWidths()
    ensures Pow256(4) == MAX_LEN && Pow256(8) == MAX_OFFSET
  {
  }

  lemma {:induction false} EncodeDecode(n: nat, k: nat)
    requires n < Pow256(k)
    ensures DecodeLE(EncodeLE(n, k)) == n
    decreases k
  {
    if k > 0 {
      EncodeDecode(n / 256, k - 1);
      assert EncodeLE(n, k)[1..] == EncodeLE(n / 256, k - 1);
    }
  }

  lemma {:induction false} DecodeEncode(b: Bytes)
    ensures DecodeLE(b) < Pow256(|b|)
    ensures EncodeLE(DecodeLE(b), |b|) == b
  {
    if b != [] {
      DecodeEncode(b[1..]);
      var high: nat := DecodeLE(b[1..]);
      assert DecodeLE(b) == b[0] as nat + 256 * high;
      LowByte(b[0], high);
      assert b == [b[0]] + b[1..];
    }
  }

  lemma LowByte(low: Byte, high: nat)
    ensures (low as nat + 256 * high) / 256 == high && (low as nat + 256 * high) % 256 == low
  {
  }

  lemma {:induction false} DecodeZeros(b: Bytes)
    ensures DecodeLE(b) == 0 <==> forall i :: 0 <= i < |b| ==> b[i] == 0
  {
    if b != [] {
      DecodeZeros(b[1..]);
      assert forall i :: 1 <= i < |b| ==> b[i] == b[1..][i - 1];
    }
  }

  // ----- The checksum as bytes -----

  // Little-endian bytes have the value of their bits.
  lemma {:induction false} ValueOfBytes(b: Bytes)
    ensures ToNat(MessageBits(b)) == DecodeLE(b)
  {
    if b != [] {
      ValueOfBytes(b[1..]);
      ByteRoundTrip(b[0]);
      ValueOfByte(ByteBits(b[0]), MessageBits(b[1..]));
    }
  }

  lemma ValueOfByte(low: Word, high: Word)
    requires |low| == 8
    ensures ToNat(low + high) == ToNat(low) + 256 * ToNat(high)
  {
    ToNatConcat(low, high);
    assert Pow2(8) == 16 * Pow2(4) && Pow2(4) == 16;
  }

  lemma {:induction false} ToNatConcat(a: Word, b: Word)
    ensures ToNat(a + b) == ToNat(a) + Pow2(|a|) * ToNat(b)
  {
    if a == [] {
      assert a + b == b;
    } else {
      ToNatConcat(a[1..], b);
      assert (a + b)[1..] == a[1..] + b && (a + b)[0] == a[0];
      Doubled(Pow2(|a| - 1), ToNat(b));
    }
  }

  lemma Doubled(p: nat, t: nat)
    ensures 2 * (p * t) == (2 * p) * t
  {
  }

  lemma ChecksumBits(data: Bytes)
    ensures MessageBits(EncodeLE(Checksum(data), 4)) == Remainder(data)
  {
    var e := EncodeLE(Checksum(data), 4);
    ChecksumBound(data);
    FieldWidths();
    EncodeDecode(Checksum(data), 4);
    ValueOfBytes(e);
    ToNatInjective(MessageBits(e), Remainder(data));
  }

  /** The residue of CRC-32: a message followed by four bytes leaves the register
      0xDEBB20E3 exactly when these are its checksum, least significant first. */
  lemma ChecksumResidue(data: Bytes, crc: Bytes)
    requires |crc| == 4
    ensures FeedMessage(data + crc) == BitsOf(0xDEBB20E3) <==> crc == EncodeLE(Checksum(data), 4)
  {
    hide FeedMessage, Checksum, MessageBits, EncodeLE, BitsOf;
    FeedFollows(data, crc);
    ChecksumBits(data);
    ResidueIff(data, MessageBits(crc));
    if MessageBits(crc) == Remainder(data) { MessageBitsInjective(crc, EncodeLE(Checksum(data), 4)); }
  }

  lemma FeedFollows(data: Bytes, more: Bytes)
    ensures FeedMessage(data + more) == FeedBits(FeedMessage(data), MessageBits(more))
  {
    MessageBitsConcat(data, more);
    FeedBitsConcat(ONES, MessageBits(data), MessageBits(more));
  }

  // ----- Records -----

  datatype Header = Header(offset: nat, len: nat, crc: nat)

  predicate WellFormed(payload: Bytes) { |payload| < MAX_LEN }

  function EncodeHeader(h: Header): (r: Bytes)
    ensures |r| == HEADER
  {
    EncodeLE(h.offset, 8) + EncodeLE(h.len, 4) + EncodeLE(h.crc, 4)
  }

  function DecodeHeader(b: Bytes): Header
    requires |b| == HEADER
  {
    Header(DecodeLE(b[..8]), DecodeLE(b[8..12]), DecodeLE(b[12..]))
  }

  function HeaderFor(offset: nat, payload: Bytes): Header {
    Header(offset, |payload|, Checksum(payload))
  }

  function Encode(offset: nat, payload: Bytes): (r: Bytes)
    ensures |r| == HEADER + |payload|
  {
    EncodeHeader(HeaderFor(offset, payload)) + payload
  }

  lemma HeaderRoundTrip(h: Header)
    requires h.offset < MAX_OFFSET && h.len < MAX_LEN && h.crc < MAX_LEN
    ensures DecodeHeader(EncodeHeader(h)) == h
  {
    var b := EncodeHeader(h);
    FieldWidths();
    assert b[..8] == EncodeLE(h.offset, 8) && b[8..12] == EncodeLE(h.len, 4) && b[12..] == EncodeLE(h.crc, 4);
    EncodeDecode(h.offset, 8);
    EncodeDecode(h.len, 4);
    EncodeDecode(h.crc, 4);
  }

  /** A record on disk: eight bytes of offset, four of length, four of checksum,
      then the payload. */
  lemma RecordLayout(offset: nat, payload: Bytes)
    requires offset < MAX_OFFSET && WellFormed(payload)
    ensures var e := Encode(offset, payload);
            && |e| == 16 + |payload| && e[16..] == payload
            && DecodeLE(e[..8]) == offset && DecodeLE(e[8..12]) == |payload|
            && DecodeLE(e[12..16]) == Checksum(payload)
  {
    hide EncodeLE, DecodeLE, Checksum;
    var e := Encode(offset, payload);
    FieldWidths();
    ChecksumBound(payload);
    EncodeDecode(offset, 8);
    EncodeDecode(|payload|, 4);
    EncodeDecode(Checksum(payload), 4);
    assert e[..8] == EncodeLE(offset, 8) && e[8..12] == EncodeLE(|payload|, 4);
    assert e[12..16] == EncodeLE(Checksum(payload), 4);
  }

  lemma HeaderBytes(b: Bytes)
    requires |b| == HEADER
    ensures EncodeHeader(DecodeHeader(b)) == b
    ensures DecodeHeader(b).offset < MAX_OFFSET && DecodeHeader(b).len < MAX_LEN && DecodeHeader(b).crc < MAX_LEN
  {
    FieldWidths();
    DecodeEncode(b[..8]);
    DecodeEncode(b[8..12]);
    DecodeEncode(b[12..]);
    assert b == b[..8] + b[8..12] + b[12..];
  }

  // The bytes of consecutive records, the first at offset `base`.
  function EncodeAll(base: nat, records: seq<Bytes>): Bytes
    decreases |records|
  {
    if records == [] then [] else Encode(base, records[0]) + EncodeAll(base + 1, records[1..])
  }

  function Size(records: seq<Bytes>): nat {
    if records == [] then 0 else HEADER + |records[0]| + Size(records[1..])
  }

  lemma {:induction false} EncodeAllSize(base: nat, records: seq<Bytes>)
    ensures |EncodeAll(base, records)| == Size(records)
    decreases |records|
  {
    if records != [] { EncodeAllSize(base + 1, records[1..]); }
  }

  lemma {:induction false} EncodeAllConcat(base: nat, a: seq<Bytes>, b: seq<Bytes>)
    ensures EncodeAll(base, a + b) == EncodeAll(base, a) + EncodeAll(base + |a|, b)
    decreases |a|
  {
    hide Encode;
    if a == [] {
      assert a + b == b;
    } else {
      EncodeAllConcat(base + 1, a[1..], b);
      assert (a + b)[1..] == a[1..] + b;
    }
  }

  lemma {:induction false} SizeConcat(a: seq<Bytes>, b: seq<Bytes>)
    ensures Size(a + b) == Size(a) + Size(b)
  {
    if a == [] {
      assert a + b == b;
    } else {
      SizeConcat(a[1..], b);
      assert (a + b)[1..] == a[1..] + b;
    }
  }

  lemma FirstRecord(base: nat, p: Bytes, rest: seq<Bytes>)
    ensures EncodeAll(base, [p] + rest) == Encode(base, p) + EncodeAll(base + 1, rest)
    ensures Size([p] + rest) == HEADER + |p| + Size(rest)
  {
    hide Encode;
    assert ([p] + rest)[1..] == rest;
  }

  lemma EncodeAllSnoc(base: nat, records: seq<Bytes>, p: Bytes)
    ensures EncodeAll(base, records + [p]) == EncodeAll(base, records) + Encode(base + |records|, p)
    ensures Size(records + [p]) == Size(records) + HEADER + |p|
  {
    EncodeAllConcat(base, records, [p]);
    SizeConcat(records, [p]);
    assert EncodeAll(base + |records|, [p]) == Encode(base + |records|, p) + EncodeAll(base + |records| + 1, []);
    assert Size([p]) == HEADER + |p| + Size([]);
  }

  // ----- The scan of a segment when it is opened -----

  function HeaderAt(data: Bytes, pos: nat): Header
    requires pos + HEADER <= |data|
  {
    DecodeHeader(data[pos..pos + HEADER])
  }

  function PayloadAt(data: Bytes, pos: nat, len: nat): Bytes
    requires pos + HEADER + len <= |data|
  {
    data[pos + HEADER..pos + HEADER + len]
  }

  // The tests a record must pass, in the source's order.
  predicate Accepts(data: Bytes, pos: nat, expected: nat) {
    && pos + HEADER <= |data|
    && HeaderAt(data, pos) != Header(0, 0, 0)
    && HeaderAt(data, pos).offset == expected
    && pos + HEADER + HeaderAt(data, pos).len <= |data|
    && Checksum(PayloadAt(data, pos, HeaderAt(data, pos).len)) == HeaderAt(data, pos).crc
  }

  function Replay(data: Bytes, pos: nat, expected: nat): seq<Bytes>
    decreases |data| - pos
  {
    if Accepts(data, pos, expected) then
      var len := HeaderAt(data, pos).len;
      [PayloadAt(data, pos, len)] + Replay(data, pos + HEADER + len, expected + 1)
    else []
  }

  // The records a segment can hold: lengths fit 32 bits, offsets fit 64.
  ghost predicate Storable(base: nat, records: seq<Bytes>) {
    && base + |records| <= MAX_OFFSET
    && forall i :: 0 <= i < |records| ==> WellFormed(records[i])
  }

  // An empty payload at offset 0 is written as sixteen zero bytes.
  predicate LooksUntouched(base: nat, records: seq<Bytes>) {
    base == 0 && records != [] && records[0] == []
  }

  lemma AcceptsEncoded(data: Bytes, pos: nat, offset: nat, payload: Bytes)
    requires offset < MAX_OFFSET && WellFormed(payload)
    requires pos + HEADER + |payload| <= |data|
    requires data[pos..pos + HEADER + |payload|] == Encode(offset, payload)
    ensures HeaderAt(data, pos) == HeaderFor(offset, payload)
    ensures PayloadAt(data, pos, |payload|) == payload
    ensures Accepts(data, pos, offset) <==> !(offset == 0 && payload == [])
  {
    var e := Encode(offset, payload);
    ChecksumBound(payload);
    assert data[pos..pos + HEADER] == e[..HEADER] == EncodeHeader(HeaderFor(offset, payload));
    HeaderRoundTrip(HeaderFor(offset, payload));
    assert PayloadAt(data, pos, |payload|) == e[HEADER..] == payload;
    EmptyChecksum();
  }

  lemma LengthOfHeader(offset: nat, payload: Bytes)
    ensures HeaderFor(offset, payload).len == |payload|
  {
  }

  // Whatever the scan accepts is the encoding of what it returns.
  lemma AcceptedIsEncoded(data: Bytes, pos: nat, expected: nat) returns (payload: Bytes)
    requires Accepts(data, pos, expected)
    ensures expected < MAX_OFFSET && WellFormed(payload) && !(expected == 0 && payload == [])
    ensures pos + HEADER + |payload| <= |data|
    ensures data[pos..pos + HEADER + |payload|] == Encode(expected, payload)
    ensures Replay(data, pos, expected) == [payload] + Replay(data, pos + HEADER + |payload|, expected + 1)
  {
    hide DecodeHeader, EncodeHeader, Checksum;
    var b := data[pos..pos + HEADER];
    HeaderBytes(b);
    payload := PayloadAt(data, pos, HeaderAt(data, pos).len);
    assert data[pos..pos + HEADER + |payload|] == b + payload;
    EmptyChecksum();
  }

  lemma SplitSlice(data: Bytes, pos: nat, a: Bytes, b: Bytes)
    requires pos + |a| + |b| <= |data| && data[pos..pos + |a| + |b|] == a + b
    ensures data[pos..pos + |a|] == a && data[pos + |a|..pos + |a| + |b|] == b
  {
    var all := data[pos..pos + |a| + |b|];
    assert data[pos..pos + |a|] == all[..|a|] && data[pos + |a|..pos + |a| + |b|] == all[|a|..];
  }

  /** The scan recovers every complete record, unchanged and in order, and
      then goes on with whatever bytes follow. */
  lemma {:induction false} ReplayFrom(data: Bytes, pos: nat, base: nat, records: seq<Bytes>)
    requires Storable(base, records) && !LooksUntouched(base, records)
    requires pos + Size(records) <= |data|
    requires data[pos..pos + Size(records)] == EncodeAll(base, records)
    ensures Replay(data, pos, base) == records + Replay(data, pos + Size(records), base + |records|)
    decreases |records|
  {
    hide Encode, Accepts, HeaderAt, PayloadAt, WellFormed;
    if records != [] {
      var p, rest := records[0], records[1..];
      var next := pos + HEADER + |p|;
      EncodeAllSize(base + 1, rest);
      SplitSlice(data, pos, Encode(base, p), EncodeAll(base + 1, rest));
      AcceptsEncoded(data, pos, base, p);
      LengthOfHeader(base, p);
      assert Replay(data, pos, base) == [p] + Replay(data, next, base + 1);
      ReplayFrom(data, next, base + 1, rest);
      assert records == [p] + rest;
    }
  }

  /** Recovery of a segment file: the complete records are a prefix of what is
      recovered, whatever bytes follow them, exactly when the first record is
      not an empty payload at offset 0; in that case nothing is recovered. */
  lemma RecoversPrefix(base: nat, records: seq<Bytes>, tail: Bytes)
    requires Storable(base, records)
    ensures var found := Replay(EncodeAll(base, records) + tail, 0, base);
            && (records <= found <==> !LooksUntouched(base, records))
            && (LooksUntouched(base, records) ==> found == [])
  {
    hide Accepts, HeaderAt, PayloadAt, HeaderFor;
    var data := EncodeAll(base, records) + tail;
    EncodeAllSize(base, records);
    assert data[0..Size(records)] == EncodeAll(base, records);
    if LooksUntouched(base, records) {
      assert data[0..HEADER] == Encode(0, []) by {
        assert EncodeAll(base, records)[..HEADER] == Encode(0, []);
      }
      AcceptsEncoded(data, 0, 0, []);
    } else {
      ReplayFrom(data, 0, base, records);
    }
  }

  /** What is recovered is exactly what the recovered part of the file
      encodes, and the scan stopped because the next record is not acceptable. */
  lemma {:induction false} ReplaySound(data: Bytes, pos: nat, base: nat)
    requires pos <= |data| && base <= MAX_OFFSET
    ensures var found := Replay(data, pos, base);
            && Storable(base, found) && !LooksUntouched(base, found)
            && pos + Size(found) <= |data|
            && data[pos..pos + Size(found)] == EncodeAll(base, found)
            && !Accepts(data, pos + Size(found), base + |found|)
    decreases |data| - pos
  {
    hide Accepts, Encode, HeaderAt, PayloadAt, WellFormed;
    if Accepts(data, pos, base) {
      hide Replay, EncodeAll, Size;
      var p := AcceptedIsEncoded(data, pos, base);
      var next := pos + HEADER + |p|;
      ReplaySound(data, next, base + 1);
      var rest := Replay(data, next, base + 1);
      FirstRecord(base, p, rest);
      assert data[pos..next + Size(rest)] == data[pos..next] + data[next..next + Size(rest)];
    }
  }

  // A scan that starts where nothing acceptable is finds nothing more.
  lemma ReplayStops(base: nat, records: seq<Bytes>, tail: Bytes)
    requires Storable(base, records) && !LooksUntouched(base, records)
    ensures Replay(EncodeAll(base, records) + tail, 0, base) ==
            records + Replay(EncodeAll(base, records) + tail, Size(records), base + |records|)
    ensures |EncodeAll(base, records)| == Size(records)
  {
    var data := EncodeAll(base, records) + tail;
    EncodeAllSize(base, records);
    assert data[0..Size(records)] == EncodeAll(base, records);
    ReplayFrom(data, 0, base, records);
  }

  /** The records are recovered exactly when nothing behind them is acceptable. */
  lemma ReplayExactIff(base: nat, records: seq<Bytes>, tail: Bytes)
    requires Storable(base, records) && !LooksUntouched(base, records)
    ensures var data := EncodeAll(base, records) + tail;
            Replay(data, 0, base) == records <==> !Accepts(data, Size(records), base + |records|)
  {
    hide Accepts, EncodeAll, Size;
    ReplayStops(base, records, tail);
    var more := Replay(EncodeAll(base, records) + tail, Size(records), base + |records|);
    assert (records + more)[|records|..] == more;
  }

  // ----- A torn append -----

  // A record of which only the first `cut` bytes were stored, in zeroed space.
  function TornRecord(offset: nat, p: Bytes, cut: nat, room: nat): (r: Bytes)
    requires cut <= HEADER + |p| <= room
    ensures |r| == room
  {
    Encode(offset, p)[..cut] + ZeroBytes(room - cut)
  }

  lemma {:induction false} DecodeMonotone(a: Bytes, b: Bytes)
    requires |a| == |b| && forall i :: 0 <= i < |a| ==> a[i] <= b[i]
    ensures DecodeLE(a) <= DecodeLE(b)
  {
    if a != [] { DecodeMonotone(a[1..], b[1..]); }
  }

  // The length field of a torn record never exceeds the length meant, and
  // everything behind the payload it announces is zero.
  lemma TornLength(offset: nat, p: Bytes, cut: nat, room: nat)
    requires WellFormed(p) && cut <= HEADER + |p| <= room
    ensures var t := TornRecord(offset, p, cut, room);
            var len := HeaderAt(t, 0).len;
            len <= |p| && cut <= HEADER + len
  {
    hide Checksum, EncodeLE, DecodeLE;
    var t, e := TornRecord(offset, p, cut, room), Encode(offset, p);
    FieldWidths();
    assert e[8..12] == EncodeLE(|p|, 4);
    EncodeDecode(|p|, 4);
    assert t[0..HEADER][8..12] == t[8..12];
    DecodeMonotone(t[8..12], e[8..12]);
    if cut >= 12 {
      assert forall i :: 8 <= i < 12 ==> t[i] == e[i];
      assert t[8..12] == e[8..12];
    }
  }

  lemma ZeroHeaderStops(data: Bytes, pos: nat, expected: nat)
    requires forall i :: pos <= i < |data| ==> data[i] == 0
    ensures !Accepts(data, pos, expected)
  {
    hide Checksum;
    if pos + HEADER <= |data| {
      var b := data[pos..pos + HEADER];
      assert forall i :: 0 <= i < HEADER ==> b[i] == data[pos + i];
      DecodeZeros(b[..8]);
      DecodeZeros(b[8..12]);
      DecodeZeros(b[12..]);
    }
  }

  lemma TornTail(data: Bytes, pos: nat, offset: nat, p: Bytes, cut: nat, next: nat)
    requires pos + HEADER + |p| <= |data| && cut <= HEADER + |p| && pos + cut <= next
    requires data[pos..] == TornRecord(offset, p, cut, |data| - pos)
    ensures !Accepts(data, next, offset + 1)
  {
    hide Encode;
    forall i | next <= i < |data| ensures data[i] == 0 {
      assert data[i] == data[pos..][i - pos];
    }
    ZeroHeaderStops(data, next, offset + 1);
  }

  lemma OneRecord(data: Bytes, pos: nat, offset: nat, len: nat)
    requires pos + HEADER + len <= |data| && len == HeaderAt(data, pos).len
    requires !Accepts(data, pos + HEADER + len, offset + 1)
    ensures Replay(data, pos, offset) == if Accepts(data, pos, offset) then [PayloadAt(data, pos, len)] else []
  {
  }

  // How many of the `width` bytes of a field at `from` are stored.
  function Stored(cut: nat, from: nat, width: nat): (r: nat)
    ensures r <= width
  {
    if cut <= from then 0 else if cut - from < width then cut - from else width
  }

  // What the fields of a torn record read as, and its payload.
  function TornLen(p: Bytes, cut: nat): nat { |p| % Pow256(Stored(cut, 8, 4)) }

  function TornCrc(p: Bytes, cut: nat): nat { Checksum(p) % Pow256(Stored(cut, 12, 4)) }

  function TornPayload(p: Bytes, cut: nat): (r: Bytes)
    ensures |r| == TornLen(p, cut)
  {
    var s := Stored(cut, HEADER, |p|);
    RemainderSmaller(|p|, Pow256(Stored(cut, 8, 4)));
    (p[..s] + ZeroBytes(|p| - s))[..TornLen(p, cut)]
  }

  // The torn record of payload p at offset k passes every test of the scan.
  predicate TornAccepted(k: nat, p: Bytes, cut: nat) {
    && k < Pow256(Stored(cut, 0, 8))
    && !(k == 0 && TornLen(p, cut) == 0 && TornCrc(p, cut) == 0)
    && Checksum(TornPayload(p, cut)) == TornCrc(p, cut)
  }

  lemma RemainderSmaller(n: nat, m: nat)
    requires m > 0
    ensures n % m <= n
  {
  }

  lemma RemainderByDigits(n: nat, m: nat)
    requires m > 0
    ensures n % 256 + 256 * ((n / 256) % m) == n % (256 * m)
  {
    var h := n / 256;
    var q, r := h / m, h % m;
    assert h == q * m + r;
    assert n == q * (256 * m) + (256 * r + n % 256) by {
      assert 256 * (q * m) == q * (256 * m);
    }
    DivModUnique(n, 256 * m, q, 256 * r + n % 256);
  }

  // A field of which only the first s bytes are stored reads as a remainder.
  lemma {:induction false} DecodeStored(n: nat, k: nat, s: nat)
    requires s <= k
    ensures DecodeLE(EncodeLE(n, k)[..s] + ZeroBytes(k - s)) == n % Pow256(s)
    decreases k
  {
    var b := EncodeLE(n, k)[..s] + ZeroBytes(k - s);
    if s == 0 {
      DecodeZeros(b);
    } else {
      DecodeStored(n / 256, k - 1, s - 1);
      assert b[0] == n % 256;
      assert b[1..] == EncodeLE(n / 256, k - 1)[..s - 1] + ZeroBytes(k - s);
      RemainderByDigits(n, Pow256(s - 1));
    }
  }

  lemma TornField(e: Bytes, cut: nat, room: nat, from: nat, width: nat)
    requires cut <= |e| <= room && from + width <= |e|
    ensures var s := Stored(cut, from, width);
            (e[..cut] + ZeroBytes(room - cut))[from..from + width] == e[from..from + width][..s] + ZeroBytes(width - s)
  {
  }

  lemma TornFields(k: nat, p: Bytes, cut: nat, room: nat)
    requires cut <= HEADER + |p| <= room
    ensures var t := TornRecord(k, p, cut, room);
            && HeaderAt(t, 0) == Header(k % Pow256(Stored(cut, 0, 8)), TornLen(p, cut), TornCrc(p, cut))
            && TornLen(p, cut) <= |p| && PayloadAt(t, 0, TornLen(p, cut)) == TornPayload(p, cut)
  {
    hide Checksum, EncodeLE, DecodeLE, Stored, Pow256, HeaderAt;
    var e, t, crc := Encode(k, p), TornRecord(k, p, cut, room), Checksum(p);
    assert e[0..8] == EncodeLE(k, 8) && e[8..12] == EncodeLE(|p|, 4) && e[12..16] == EncodeLE(crc, 4);
    assert e[HEADER..HEADER + |p|] == p;
    TornField(e, cut, room, 0, 8);
    TornField(e, cut, room, 8, 4);
    TornField(e, cut, room, 12, 4);
    TornField(e, cut, room, HEADER, |p|);
    DecodeStored(k, 8, Stored(cut, 0, 8));
    DecodeStored(|p|, 4, Stored(cut, 8, 4));
    DecodeStored(crc, 4, Stored(cut, 12, 4));
    HeaderSlices(t);
    RemainderSmaller(|p|, Pow256(Stored(cut, 8, 4)));
    var len := TornLen(p, cut);
    assert t[HEADER..HEADER + len] == t[HEADER..HEADER + |p|][..len];
  }

  lemma HeaderSlices(t: Bytes)
    requires |t| >= HEADER
    ensures HeaderAt(t, 0) == Header(DecodeLE(t[0..8]), DecodeLE(t[8..12]), DecodeLE(t[12..16]))
  {
    var h := t[0..0 + HEADER];
    assert h[..8] == t[0..8] && h[8..12] == t[8..12] && h[12..] == t[12..16];
  }

  /** Crash recovery, exactly: if an append onto zeroed space is cut at any
      byte, in the order the source stores them, the completed records are
      recovered unchanged, followed by one more record exactly when the torn one
      passes the tests; its payload is then the stored part of the payload
      meant, padded with zeros and cut to the length that was stored. */
  lemma TornAppendExactly(base: nat, records: seq<Bytes>, p: Bytes, cut: nat, room: nat)
    requires Storable(base, records + [p]) && !LooksUntouched(base, records)
    requires cut <= HEADER + |p| <= room
    ensures var k := base + |records|;
            Replay(EncodeAll(base, records) + TornRecord(k, p, cut, room), 0, base) ==
            records + if TornAccepted(k, p, cut) then [TornPayload(p, cut)] else []
  {
    hide TornRecord, Accepts, Encode, EncodeAll, Replay, Size, TornAccepted, TornPayload, TornLen, HeaderAt, PayloadAt;
    var k := base + |records|;
    var torn := TornRecord(k, p, cut, room);
    var data, pos := EncodeAll(base, records) + torn, Size(records);
    assert WellFormed(p) by { assert (records + [p])[|records|] == p; }
    assert Storable(base, records) by {
      assert forall i :: 0 <= i < |records| ==> (records + [p])[i] == records[i];
    }
    ReplayStops(base, records, torn);
    assert data[pos..] == torn;
    TornReplay(data, pos, k, p, cut);
  }

  lemma TornReplay(data: Bytes, pos: nat, k: nat, p: Bytes, cut: nat)
    requires WellFormed(p) && k < MAX_OFFSET
    requires pos + HEADER + |p| <= |data| && cut <= HEADER + |p|
    requires data[pos..] == TornRecord(k, p, cut, |data| - pos)
    ensures Replay(data, pos, k) == if TornAccepted(k, p, cut) then [TornPayload(p, cut)] else []
  {
    hide TornRecord, Encode, Checksum, TornPayload, Accepts, HeaderAt, TornAccepted, Replay;
    var t := TornRecord(k, p, cut, |data| - pos);
    var len := TornLen(p, cut);
    TornFields(k, p, cut, |data| - pos);
    TornLength(k, p, cut, |data| - pos);
    ShiftedRecord(data, pos, len);
    TornTail(data, pos, k, p, cut, pos + HEADER + len);
    OneRecord(data, pos, k, len);
    TornTests(data, pos, k, p, cut);
  }

  // A header and payload read at pos are those of the bytes from pos on.
  lemma ShiftedRecord(data: Bytes, pos: nat, len: nat)
    requires pos + HEADER + len <= |data|
    ensures HeaderAt(data, pos) == HeaderAt(data[pos..], 0)
    ensures PayloadAt(data, pos, len) == PayloadAt(data[pos..], 0, len)
  {
    hide DecodeHeader;
    var t := data[pos..];
    assert data[pos..pos + HEADER] == t[0..HEADER];
    assert data[pos + HEADER..pos + HEADER + len] == t[HEADER..HEADER + len];
  }

  lemma TornTests(data: Bytes, pos: nat, k: nat, p: Bytes, cut: nat)
    requires pos + HEADER + TornLen(p, cut) <= |data|
    requires HeaderAt(data, pos) == Header(k % Pow256(Stored(cut, 0, 8)), TornLen(p, cut), TornCrc(p, cut))
    requires PayloadAt(data, pos, TornLen(p, cut)) == TornPayload(p, cut)
    ensures Accepts(data, pos, k) <==> TornAccepted(k, p, cut)
  {
    hide HeaderAt, PayloadAt, TornPayload, TornLen, TornCrc, Checksum;
    var m := Pow256(Stored(cut, 0, 8));
    if k < m { DivModUnique(k, m, 0, k); }
  }

  /** The completed records are recovered and at most one further record, at
      the torn position, whose payload is the stored part of the payload meant,
      padded with zeros and cut short. */
  lemma TornAppendRecovers(base: nat, records: seq<Bytes>, p: Bytes, cut: nat, room: nat)
    requires Storable(base, records + [p]) && !LooksUntouched(base, records)
    requires cut <= HEADER + |p| <= room
    ensures var found := Replay(EncodeAll(base, records) + TornRecord(base + |records|, p, cut, room), 0, base);
            || found == records
            || (|found| == |records| + 1 && found[..|records|] == records &&
                var q, s := found[|records|], Stored(cut, HEADER, |p|);
                |q| <= |p| && q == (p[..s] + ZeroBytes(|p| - s))[..|q|])
  {
    hide TornAccepted, Replay, TornRecord, EncodeAll;
    TornAppendExactly(base, records, p, cut, room);
    RemainderSmaller(|p|, Pow256(Stored(cut, 8, 4)));
    assert records + [] == records;
  }

  /** A phantom record: a torn append is recovered as an empty record exactly
      when the stored bytes spell the whole nonzero offset and a zero length.
      For a payload that is not empty that takes a cut before the checksum. */
  lemma PhantomIff(base: nat, records: seq<Bytes>, p: Bytes, cut: nat, room: nat)
    requires Storable(base, records + [p]) && !LooksUntouched(base, records)
    requires cut <= HEADER + |p| <= room
    ensures var k := base + |records|;
            var found := Replay(EncodeAll(base, records) + TornRecord(k, p, cut, room), 0, base);
            && (found == records + [[]] <==> 0 < k < Pow256(Stored(cut, 0, 8)) && TornLen(p, cut) == 0)
            && (p != [] && found == records + [[]] ==> cut < 12)
  {
    hide Replay, TornRecord, EncodeAll, Stored;
    var k := base + |records|;
    TornAppendExactly(base, records, p, cut, room);
    assert WellFormed(p) by { assert (records + [p])[|records|] == p; }
    EmptyChecksum();
    ZeroLength(p, cut);
    var more: seq<Bytes> := if TornAccepted(k, p, cut) then [TornPayload(p, cut)] else [];
    assert (records + more)[|records|..] == more && (records + [[]])[|records|..] == [[]];
    if TornLen(p, cut) == 0 { assert TornPayload(p, cut) == []; }
  }

  // With a zero length stored, either the payload meant is empty or no byte of
  // the checksum is stored.
  lemma ZeroLength(p: Bytes, cut: nat)
    requires WellFormed(p)
    ensures TornLen(p, cut) == 0 ==> TornCrc(p, cut) == 0
    ensures TornLen(p, cut) == 0 && p != [] ==> cut < 12
  {
    FieldWidths();
    EmptyChecksum();
    if cut >= 12 {
      DivModUnique(|p|, MAX_LEN, 0, |p|);
    }
  }

  /** Replay rejects a record whose payload was altered inside four
      consecutive bytes: the scan ends just before it. */
  lemma CorruptionRejected(base: nat, records: seq<Bytes>, a: Bytes, v: Bytes, w: Bytes, b: Bytes, tail: Bytes)
    requires Storable(base, records + [a + v + b]) && !LooksUntouched(base, records)
    requires |v| == |w| <= 4 && v != w
    ensures var k := base + |records|;
            var stored := EncodeHeader(HeaderFor(k, a + v + b)) + (a + w + b);
            Replay(EncodeAll(base, records) + (stored + tail), 0, base) == records
  {
    hide Accepts, Encode, EncodeHeader, DecodeHeader, Checksum, EncodeAll, PayloadAt;
    var k, p, q := base + |records|, a + v + b, a + w + b;
    var stored := EncodeHeader(HeaderFor(k, p)) + q;
    var data, pos := EncodeAll(base, records) + (stored + tail), Size(records);
    assert (records + [p])[|records|] == p;
    assert Storable(base, records) by {
      assert forall i :: 0 <= i < |records| ==> (records + [p])[i] == records[i];
    }
    ReplayStops(base, records, stored + tail);
    EncodeAllSize(base, records);
    Pieces(EncodeAll(base, records), EncodeHeader(HeaderFor(k, p)), q, tail);
    ChecksumBound(p);
    HeaderRoundTrip(HeaderFor(k, p));
    FourBytesDetected(a, v, w, b);
    WrongChecksumStops(data, pos, k, p, q);
    assert records + [] == records;
  }

  lemma Pieces(a: Bytes, b: Bytes, c: Bytes, d: Bytes)
    ensures var all := a + ((b + c) + d);
            all[|a|..|a| + |b|] == b && all[|a| + |b|..|a| + |b| + |c|] == c
  {
  }

  lemma WrongChecksumStops(data: Bytes, pos: nat, k: nat, p: Bytes, q: Bytes)
    requires pos + HEADER + |p| <= |data| && |p| == |q|
    requires HeaderAt(data, pos) == HeaderFor(k, p)
    requires data[pos + HEADER..pos + HEADER + |p|] == q && Checksum(p) != Checksum(q)
    ensures !Accepts(data, pos, k)
  {
  }

  lemma SliceOfPrefix(data: Bytes, a: Bytes, b: Bytes, c: Bytes)
    requires |a| + |b| + |c| <= |data| && data[..|a| + |b| + |c|] == a + (b + c)
    ensures data[|a|..|a| + |b|] == b
  {
    var all := data[..|a| + |b| + |c|];
    assert data[|a|..|a| + |b|] == all[|a|..|a| + |b|];
  }

  /** Where record i of an encoding is, and what its header says. */
  lemma RecordAt(data: Bytes, base: nat, records: seq<Bytes>, i: nat)
    requires Storable(base, records) && i < |records|
    requires Size(records) <= |data| && data[..Size(records)] == EncodeAll(base, records)
    ensures var pos, p := Size(records[..i]), records[i];
            && pos + HEADER + |p| <= Size(records)
            && HeaderAt(data, pos) == HeaderFor(base + i, p)
            && PayloadAt(data, pos, |p|) == p
  {
    hide Encode, EncodeAll, Size, HeaderAt, PayloadAt, HeaderFor, Accepts;
    var p, pos, after := records[i], Size(records[..i]), records[i + 1..];
    assert records == records[..i] + ([p] + after);
    EncodeAllConcat(base, records[..i], [p] + after);
    SizeConcat(records[..i], [p] + after);
    FirstRecord(base + i, p, after);
    EncodeAllSize(base, records[..i]);
    EncodeAllSize(base + i + 1, after);
    SliceOfPrefix(data, EncodeAll(base, records[..i]), Encode(base + i, p), EncodeAll(base + i + 1, after));
    AcceptsEncoded(data, pos, base + i, p);
  }

  /** Reopening a segment whose unused space is zero finds exactly its records. */
  lemma CleanReplay(base: nat, records: seq<Bytes>, n: nat)
    requires Storable(base, records) && !LooksUntouched(base, records)
    ensures Replay(EncodeAll(base, records) + ZeroBytes(n), 0, base) == records
  {
    hide Accepts, EncodeAll, Size;
    var data := EncodeAll(base, records) + ZeroBytes(n);
    ReplayStops(base, records, ZeroBytes(n));
    ZeroHeaderStops(data, Size(records), base + |records|);
    assert records + [] == records;
  }
}
