/** Length-prefixed frames over a byte stream. */
module Framing {
  import opened Options
  import opened Bits
  import opened Crc32

  const MAX_FRAME: nat := 16 * 1024 * 1024

  datatype Extract = Frame(payload: Bytes) | NeedMore | Malformed

  // ----- The header: four bytes, most significant first -----

  function EncodeLength(len: nat): (r: Bytes)
    ensures |r| == 4
  {
    [len / 0x100_0000 % 256, len / 0x1_0000 % 256, len / 0x100 % 256, len % 256]
  }

  function DecodeLength(b: Bytes): nat
    requires |b| >= 4
  {
    b[0] as nat * 0x100_0000 + b[1] as nat * 0x1_0000 + b[2] as nat * 0x100 + b[3] as nat
  }

  lemma LengthRoundTrip(len: nat)
    requires len < 0x1_0000_0000
    ensures DecodeLength(EncodeLength(len)) == len
  {
    var a, b, c := len / 0x100, len / 0x1_0000, len / 0x100_0000;
    assert b == a / 0x100 && c == b / 0x100;
    assert len == 0x100 * a + len % 0x100 && a == 0x100 * b + a % 0x100 && b == 0x100 * c + b % 0x100;
  }

  lemma LengthBytes(b: Bytes)
    requires |b| == 4
    ensures EncodeLength(DecodeLength(b)) == b
  {
    var n := DecodeLength(b);
    var x: nat, w: nat := b[0], b[1];
    var y := x * 0x100 + w;
    var z := y * 0x100 + b[2] as nat;
    assert n == z * 0x100 + b[3] as nat && n / 0x100 == z && n % 256 == b[3];
    assert n / 0x1_0000 == z / 0x100 == y && z % 256 == b[2];
    assert n / 0x100_0000 == y / 0x100 == x && y % 256 == b[1];
  }

  // Byte strings in dictionary order.
  predicate Before(a: Bytes, b: Bytes)
    requires |a| == |b|
  {
    a != [] && (a[0] < b[0] || (a[0] == b[0] && Before(a[1..], b[1..])))
  }

  /** The most significant byte comes first: headers are ordered as lengths are. */
  lemma HeadersInOrder(x: nat, y: nat)
    requires x < 0x1_0000_0000 && y < 0x1_0000_0000
    ensures x < y <==> Before(EncodeLength(x), EncodeLength(y))
  {
    LengthRoundTrip(x);
    LengthRoundTrip(y);
    BeforeIff(EncodeLength(x), EncodeLength(y));
  }

  lemma BeforeIff(a: Bytes, b: Bytes)
    requires |a| == |b| == 4
    ensures Before(a, b) <==> DecodeLength(a) < DecodeLength(b)
  {
    assert Before(a, b) == (a[0] < b[0] || (a[0] == b[0] && Before(a[1..], b[1..])));
    assert Before(a[1..], b[1..]) == (a[1] < b[1] || (a[1] == b[1] && Before(a[2..], b[2..]))) by {
      assert a[1..][1..] == a[2..] && b[1..][1..] == b[2..];
    }
    assert Before(a[2..], b[2..]) == (a[2] < b[2] || (a[2] == b[2] && Before(a[3..], b[3..]))) by {
      assert a[2..][1..] == a[3..] && b[2..][1..] == b[3..];
    }
    assert Before(a[3..], b[3..]) == (a[3] < b[3]);
  }

  // ----- One frame -----

  function Encoded(payload: Bytes): Bytes { EncodeLength(|payload|) + payload }

  function EncodedAll(payloads: seq<Bytes>): Bytes {
    if payloads == [] then [] else Encoded(payloads[0]) + EncodedAll(payloads[1..])
  }

  // A payload over the cap is refused.
  method EncodeFrame(payload: Bytes) returns (r: Option<Bytes>)
    ensures r == if |payload| > 0x100_0000 then None else Some(Encoded(payload))
  {
    if |payload| > MAX_FRAME { return None; }
    var out := new Byte[4 + |payload|](_ => 0);
    var len := |payload|;
    out[0] := len / 0x100_0000 % 256;
    out[1] := len / 0x1_0000 % 256;
    out[2] := len / 0x100 % 256;
    out[3] := len % 256;
    for i := 0 to len
      invariant out[..4] == EncodeLength(len) && out[4..4 + i] == payload[..i]
    {
      out[4 + i] := payload[i];
    }
    assert out[..] == out[..4] + out[4..4 + len] && payload[..len] == payload;
    return Some(out[..]);
  }

  function Extracted(buffer: Bytes): Extract {
    if |buffer| < 4 then NeedMore
    else if DecodeLength(buffer) > MAX_FRAME then Malformed
    else if |buffer| < 4 + DecodeLength(buffer) then NeedMore
    else Frame(buffer[4..4 + DecodeLength(buffer)])
  }

  function Rest(buffer: Bytes): (r: Bytes)
    ensures Extracted(buffer).Frame? ==> |r| < |buffer|
    ensures !Extracted(buffer).Frame? ==> r == buffer
  {
    if Extracted(buffer).Frame? then buffer[4 + |Extracted(buffer).payload|..] else buffer
  }

  // All the frames at the front of a stream, and what is left behind them.
  function Frames(bytes: Bytes): seq<Bytes>
    decreases |bytes|
  {
    if Extracted(bytes).Frame? then [Extracted(bytes).payload] + Frames(Rest(bytes)) else []
  }

  function Left(bytes: Bytes): Bytes
    decreases |bytes|
  {
    if Extracted(bytes).Frame? then Left(Rest(bytes)) else bytes
  }

  class FrameDecoder {
    var buffer: Bytes

    constructor ()
      ensures buffer == []
    {
      buffer := [];
    }

    method Feed(data: Bytes)
      modifies this
      ensures buffer == old(buffer) + data
    {
      buffer := buffer + data;
    }

    method TryExtract() returns (r: Extract)
      modifies this
      ensures r == Extracted(old(buffer)) && buffer == Rest(old(buffer))
    {
      if |buffer| < 4 { return NeedMore; }
      var len := DecodeLength(buffer[..4]);
      if len > MAX_FRAME { return Malformed; }
      if |buffer| < 4 + len { return NeedMore; }
      var payload := buffer[4..4 + len];
      buffer := buffer[4 + len..];
      return Frame(payload);
    }
  }

  // ----- Whole runs -----

  datatype Op = Feed(data: Bytes) | TryExtract

  function Fed(ops: seq<Op>): Bytes {
    if ops == [] then [] else (if ops[0].Feed? then ops[0].data else []) + Fed(ops[1..])
  }

  // The payloads a run extracts, and the buffer it leaves.
  function Outputs(buffer: Bytes, ops: seq<Op>): seq<Bytes>
    decreases |ops|
  {
    if ops == [] then []
    else if ops[0].Feed? then Outputs(buffer + ops[0].data, ops[1..])
    else (if Extracted(buffer).Frame? then [Extracted(buffer).payload] else []) + Outputs(Rest(buffer), ops[1..])
  }

  function Final(buffer: Bytes, ops: seq<Op>): Bytes
    decreases |ops|
  {
    if ops == [] then buffer
    else if ops[0].Feed? then Final(buffer + ops[0].data, ops[1..])
    else Final(Rest(buffer), ops[1..])
  }

  lemma ExtractedIsEncoded(buffer: Bytes)
    requires Extracted(buffer).Frame?
    ensures buffer == Encoded(Extracted(buffer).payload) + Rest(buffer)
  {
    var len := DecodeLength(buffer);
    assert buffer[..4] + buffer[4..4 + len] + buffer[4 + len..] == buffer;
    LengthBytes(buffer[..4]);
  }

  lemma EncodedIsExtracted(payload: Bytes, tail: Bytes)
    requires |payload| <= MAX_FRAME
    ensures Extracted(Encoded(payload) + tail) == Frame(payload)
    ensures Rest(Encoded(payload) + tail) == tail
  {
    LengthRoundTrip(|payload|);
    var b := Encoded(payload) + tail;
    assert DecodeLength(b) == DecodeLength(EncodeLength(|payload|));
    assert b[4..4 + |payload|] == payload && b[4 + |payload|..] == tail;
  }

  /** What an extract answers, without looking at its steps: a frame exactly if
      the buffer starts with the encoding of a payload within the cap; and, once
      the header is there, "malformed" exactly if no bytes to come can make it
      start so. */
  lemma ExtractIff(buffer: Bytes)
    ensures forall p :: Extracted(buffer) == Frame(p) <==> |p| <= 0x100_0000 && Encoded(p) <= buffer
    ensures Extracted(buffer) == Malformed <==>
            |buffer| >= 4 && forall p :: |p| <= 0x100_0000 ==> !(Encoded(p) <= buffer) && !(buffer <= Encoded(p))
  {
    hide Extracted, Encoded;
    forall p ensures Extracted(buffer) == Frame(p) <==> |p| <= MAX_FRAME && Encoded(p) <= buffer {
      FrameIff(buffer, p);
    }
    ShortBuffer(buffer);
    if |buffer| >= 4 && Extracted(buffer) == NeedMore { var p := Incomplete(buffer); }
    if p :| |p| <= MAX_FRAME && buffer <= Encoded(p) {
      ExtractsWhenComplete(p, [], |buffer|);
      assert (Encoded(p) + [])[..|buffer|] == buffer;
    }
  }

  lemma ShortBuffer(buffer: Bytes)
    ensures |buffer| < 4 ==> Extracted(buffer) == NeedMore
  {
  }

  lemma FrameIff(buffer: Bytes, p: Bytes)
    ensures Extracted(buffer) == Frame(p) <==> |p| <= MAX_FRAME && Encoded(p) <= buffer
  {
    if |p| <= MAX_FRAME && Encoded(p) <= buffer {
      EncodedIsExtracted(p, buffer[|Encoded(p)|..]);
      assert buffer == Encoded(p) + buffer[|Encoded(p)|..];
    }
    if Extracted(buffer) == Frame(p) { ExtractedIsEncoded(buffer); }
  }

  // A header that asks for more is that of a frame the buffer may become.
  lemma Incomplete(buffer: Bytes) returns (p: Bytes)
    requires |buffer| >= 4 && Extracted(buffer) == NeedMore
    ensures |p| <= MAX_FRAME && buffer <= Encoded(p)
  {
    HeaderOf(buffer);
    hide DecodeLength, EncodeLength;
    var more := ZeroBytes(DecodeLength(buffer) - (|buffer| - 4));
    Padded(buffer[..4], buffer[4..], more);
    assert buffer == buffer[..4] + buffer[4..];
    p := buffer[4..] + more;
  }

  lemma HeaderOf(buffer: Bytes)
    requires |buffer| >= 4
    ensures EncodeLength(DecodeLength(buffer)) == buffer[..4]
  {
    LengthBytes(buffer[..4]);
  }

  lemma Padded(header: Bytes, front: Bytes, more: Bytes)
    requires header == EncodeLength(|front| + |more|)
    ensures header + front <= Encoded(front + more)
  {
    hide EncodeLength;
    Associative(header, front, more);
  }

  // A frame that is there stays there when more bytes come.
  lemma ExtractedGrows(buffer: Bytes, more: Bytes)
    requires Extracted(buffer).Frame?
    ensures Extracted(buffer + more) == Extracted(buffer) && Rest(buffer + more) == Rest(buffer) + more
  {
    var len := DecodeLength(buffer);
    assert (buffer + more)[4..4 + len] == buffer[4..4 + len];
    assert (buffer + more)[4 + len..] == buffer[4 + len..] + more;
  }

  /** Chunk independence, for every byte stream: however it is cut into feeds
      and interleaved with extracts, what was extracted followed by what can
      still be extracted is what the whole stream holds; and what was extracted,
      encoded again, followed by the buffer, is what was fed. */
  lemma {:induction false} AnyChunking(buffer: Bytes, ops: seq<Op>)
    ensures Outputs(buffer, ops) + Frames(Final(buffer, ops)) == Frames(buffer + Fed(ops))
    ensures Left(Final(buffer, ops)) == Left(buffer + Fed(ops))
    ensures EncodedAll(Outputs(buffer, ops)) + Final(buffer, ops) == buffer + Fed(ops)
    decreases |ops|
  {
    hide Extracted, Rest, Encoded, Frames, Left, EncodedAll;
    if ops == [] {
      NothingOut(buffer);
    } else if ops[0].Feed? {
      AnyChunking(buffer + ops[0].data, ops[1..]);
      Associative(buffer, ops[0].data, Fed(ops[1..]));
    } else {
      AnyChunking(Rest(buffer), ops[1..]);
      assert Fed(ops) == Fed(ops[1..]);
      var later, end := Outputs(Rest(buffer), ops[1..]), Final(Rest(buffer), ops[1..]);
      if Extracted(buffer).Frame? {
        ExtractStep(buffer, Fed(ops), later, end);
      } else {
        assert [] + later == later;
      }
    }
  }

  lemma NothingOut(buffer: Bytes)
    ensures EncodedAll([]) == [] && [] + buffer == buffer == buffer + [] && [] + Frames(buffer) == Frames(buffer)
  {
    hide Frames;
  }

  lemma ExtractStep(buffer: Bytes, fed: Bytes, later: seq<Bytes>, end: Bytes)
    requires Extracted(buffer).Frame?
    requires later + Frames(end) == Frames(Rest(buffer) + fed)
    requires EncodedAll(later) + end == Rest(buffer) + fed
    ensures var out := [Extracted(buffer).payload] + later;
            && out + Frames(end) == Frames(buffer + fed)
            && EncodedAll(out) + end == buffer + fed
    ensures Left(buffer + fed) == Left(Rest(buffer) + fed)
  {
    hide Extracted, Rest, Encoded, Frames, EncodedAll;
    var p := Extracted(buffer).payload;
    FrameFirst(buffer, fed);
    ExtractedIsEncoded(buffer);
    FirstOut(p, later);
    Associative([p], later, Frames(end));
    Associative(Encoded(p), EncodedAll(later), end);
    Associative(Encoded(p), Rest(buffer), fed);
  }

  lemma FrameFirst(buffer: Bytes, fed: Bytes)
    requires Extracted(buffer).Frame?
    ensures Frames(buffer + fed) == [Extracted(buffer).payload] + Frames(Rest(buffer) + fed)
    ensures Left(buffer + fed) == Left(Rest(buffer) + fed)
  {
    hide Extracted, Rest;
    ExtractedGrows(buffer, fed);
  }

  lemma FirstOut(p: Bytes, rest: seq<Bytes>)
    ensures EncodedAll([p] + rest) == Encoded(p) + EncodedAll(rest)
  {
  }

  lemma {:induction false} FramesOfEncoded(payloads: seq<Bytes>)
    requires forall i :: 0 <= i < |payloads| ==> |payloads[i]| <= MAX_FRAME
    ensures Frames(EncodedAll(payloads)) == payloads && Left(EncodedAll(payloads)) == []
    decreases |payloads|
  {
    hide Rest, Encoded;
    if payloads != [] {
      EncodedIsExtracted(payloads[0], EncodedAll(payloads[1..]));
      FramesOfEncoded(payloads[1..]);
      assert payloads == [payloads[0]] + payloads[1..];
    }
  }

  lemma {:induction false} EncodedSplit(a: seq<Bytes>, b: seq<Bytes>)
    ensures EncodedAll(a + b) == EncodedAll(a) + EncodedAll(b)
    decreases |a|
  {
    if a == [] {
      assert a + b == b;
    } else {
      EncodedSplit(a[1..], b);
      assert (a + b)[1..] == a[1..] + b;
    }
  }

  /** For every list of payloads within the cap and every way of feeding their
      concatenated encodings, the decoder yields those payloads in order and
      its buffer is exactly the encoding of those still to come. */
  lemma ChunkedFrames(payloads: seq<Bytes>, ops: seq<Op>)
    requires forall i :: 0 <= i < |payloads| ==> |payloads[i]| <= MAX_FRAME
    requires Fed(ops) == EncodedAll(payloads)
    ensures var got := Outputs([], ops);
            got <= payloads && Final([], ops) == EncodedAll(payloads[|got|..])
  {
    hide Extracted, Rest, Encoded, Frames, Left, Outputs, Final;
    var got := Outputs([], ops);
    AnyChunking([], ops);
    assert [] + Fed(ops) == Fed(ops);
    FramesOfEncoded(payloads);
    assert payloads == got + payloads[|got|..];
    EncodedSplit(got, payloads[|got|..]);
    assert EncodedAll(got) + Final([], ops) == EncodedAll(got) + EncodedAll(payloads[|got|..]);
    SamePrefix(EncodedAll(got), Final([], ops), EncodedAll(payloads[|got|..]));
  }

  lemma SamePrefix(a: Bytes, x: Bytes, y: Bytes)
    requires a + x == a + y
    ensures x == y
  {
    assert x == (a + x)[|a|..] && y == (a + y)[|a|..];
  }

  /** An extract yields a payload exactly when the next frame is complete in
      what was fed so far; a well-formed stream is never called malformed. */
  lemma ExtractsWhenComplete(payload: Bytes, tail: Bytes, n: nat)
    requires |payload| <= MAX_FRAME && n <= |Encoded(payload) + tail|
    ensures Extracted((Encoded(payload) + tail)[..n]) == if n >= 4 + |payload| then Frame(payload) else NeedMore
  {
    var b := (Encoded(payload) + tail)[..n];
    LengthRoundTrip(|payload|);
    if n >= 4 {
      assert b[..4] == EncodeLength(|payload|);
      assert DecodeLength(b) == DecodeLength(b[..4]);
      if n >= 4 + |payload| { assert b[4..4 + |payload|] == payload; }
    }
  }
}
