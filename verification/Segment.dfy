/** The sparse index of a segment, as a function of the records appended. */
module SparseIndex {
  import opened Record
  import opened Crc32

  const INTERVAL: nat := 4096
  const MAX_PROBES: nat := 256

  datatype Entry = Entry(offset: nat, pos: nat)

  datatype Index = Index(entries: seq<Entry>, since: nat)

  const EMPTY: Index := Index([], 0)

  function MaybeIndex(ix: Index, offset: nat, pos: nat, size: nat): Index {
    if ix.entries == [] || ix.since + size >= INTERVAL
    then Index(ix.entries + [Entry(offset, pos)], 0)
    else Index(ix.entries, ix.since + size)
  }

  // The index built by appending `records` one after the other.
  function IndexOf(base: nat, records: seq<Bytes>): Index
    decreases |records|
  {
    if records == [] then EMPTY
    else
      var n := |records| - 1;
      MaybeIndex(IndexOf(base, records[..n]), base + n, Size(records[..n]), HEADER + |records[n]|)
  }

  lemma IndexOfSnoc(base: nat, records: seq<Bytes>, p: Bytes)
    ensures IndexOf(base, records + [p]) ==
            MaybeIndex(IndexOf(base, records), base + |records|, Size(records), HEADER + |p|)
  {
  }

  // Bytes of the first i records, and the bound on how many fit in how much.
  function Start(records: seq<Bytes>, i: nat): nat
    requires i <= |records|
  {
    Size(records[..i])
  }

  lemma StartStep(records: seq<Bytes>, i: nat)
    requires i < |records|
    ensures Start(records, i + 1) == Start(records, i) + HEADER + |records[i]|
  {
    assert records[..i + 1] == records[..i] + [records[i]];
    EncodeAllSnoc(0, records[..i], records[i]);
  }

  lemma {:induction false} StartGap(records: seq<Bytes>, i: nat, j: nat)
    requires i <= j <= |records|
    ensures Start(records, i) + HEADER * (j - i) <= Start(records, j)
    decreases j
  {
    if i < j {
      StartGap(records, i, j - 1);
      StartStep(records, j - 1);
    }
  }

  // The record at which the entry after entry j starts, or the end.
  function NextIndexed(base: nat, records: seq<Bytes>, entries: seq<Entry>, j: nat): int
    requires j < |entries|
  {
    if j + 1 < |entries| then entries[j + 1].offset - base else |records|
  }

  ghost predicate EntryOk(base: nat, records: seq<Bytes>, entries: seq<Entry>, j: nat)
    requires j < |entries|
  {
    var i, next := entries[j].offset - base, NextIndexed(base, records, entries, j);
    && 0 <= i < next <= |records|
    && entries[j].pos == Start(records, i)
    && Start(records, next) < Start(records, i + 1) + INTERVAL
  }

  // Entries are true record boundaries, in order, the first at the first
  // record, and less than INTERVAL bytes lie behind each before the next.
  ghost predicate IndexOk(base: nat, records: seq<Bytes>, ix: Index) {
    && (records == [] <==> ix.entries == [])
    && (records != [] ==> ix.entries[0].offset == base)
    && (forall j :: 0 <= j < |ix.entries| ==> EntryOk(base, records, ix.entries, j))
    && (records != [] ==>
          var i := ix.entries[|ix.entries| - 1].offset - base;
          0 <= i < |records| && Start(records, |records|) == Start(records, i + 1) + ix.since)
    && ix.since < INTERVAL
  }

  lemma StartAppend(records: seq<Bytes>, p: Bytes, i: nat)
    requires i <= |records|
    ensures Start(records + [p], i) == Start(records, i)
  {
    assert (records + [p])[..i] == records[..i];
  }

  lemma EntryKept(base: nat, records: seq<Bytes>, p: Bytes, entries: seq<Entry>, entries': seq<Entry>, j: nat)
    requires j < |entries| <= |entries'| && entries <= entries'
    requires EntryOk(base, records, entries, j)
    requires NextIndexed(base, records + [p], entries', j) == NextIndexed(base, records, entries, j)
    ensures EntryOk(base, records + [p], entries', j)
  {
    hide Start;
    StartAppend(records, p, entries[j].offset - base);
    StartAppend(records, p, entries[j].offset - base + 1);
    StartAppend(records, p, NextIndexed(base, records, entries, j));
  }

  /** Every index that appends build is sound. */
  lemma {:induction false} IndexOfOk(base: nat, records: seq<Bytes>)
    ensures IndexOk(base, records, IndexOf(base, records))
    decreases |records|
  {
    if records != [] {
      var n := |records| - 1;
      IndexOfOk(base, records[..n]);
      assert records == records[..n] + [records[n]];
      IndexStep(base, records[..n], records[n], IndexOf(base, records[..n]));
    }
  }

  /** The index is sparse: one entry for the first record, and then at most one
      for every 4096 bytes. */
  lemma {:induction false} IndexIsSparse(base: nat, records: seq<Bytes>)
    ensures var ix := IndexOf(base, records);
            ix.entries != [] ==> (|ix.entries| - 1) * 4096 + ix.since <= Size(records)
    decreases |records|
  {
    if records != [] {
      var n := |records| - 1;
      IndexIsSparse(base, records[..n]);
      assert records == records[..n] + [records[n]];
      EncodeAllSnoc(base, records[..n], records[n]);
    }
  }

  lemma IndexStep(base: nat, records: seq<Bytes>, p: Bytes, ix: Index)
    requires IndexOk(base, records, ix)
    ensures IndexOk(base, records + [p], MaybeIndex(ix, base + |records|, Size(records), HEADER + |p|))
  {
    hide IndexOk;
    assert records[..|records|] == records;
    if ix.entries == [] || ix.since + HEADER + |p| >= INTERVAL {
      IndexGrows(base, records, p, ix);
    } else {
      IndexStays(base, records, p, ix);
    }
  }

  lemma IndexGrows(base: nat, records: seq<Bytes>, p: Bytes, ix: Index)
    requires IndexOk(base, records, ix)
    ensures IndexOk(base, records + [p],
                    Index(ix.entries + [Entry(base + |records|, Start(records, |records|))], 0))
  {
    hide Start;
    var n, all := |records|, records + [p];
    var entries := ix.entries + [Entry(base + n, Start(records, n))];
    StartAppend(records, p, n);
    StartStep(all, n);
    forall j | 0 <= j < |ix.entries| ensures EntryOk(base, all, entries, j) {
      assert EntryOk(base, records, ix.entries, j);
      EntryKept(base, records, p, ix.entries, entries, j);
    }
  }

  lemma IndexStays(base: nat, records: seq<Bytes>, p: Bytes, ix: Index)
    requires IndexOk(base, records, ix) && ix.entries != [] && ix.since + HEADER + |p| < INTERVAL
    ensures IndexOk(base, records + [p], Index(ix.entries, ix.since + HEADER + |p|))
  {
    hide Start;
    var n, all, last := |records|, records + [p], |ix.entries| - 1;
    var i := ix.entries[last].offset - base;
    assert EntryOk(base, records, ix.entries, last);
    StartAppend(records, p, i);
    StartAppend(records, p, i + 1);
    StartAppend(records, p, n);
    StartStep(all, n);
    forall j | 0 <= j < last ensures EntryOk(base, all, ix.entries, j) {
      assert EntryOk(base, records, ix.entries, j);
      EntryKept(base, records, p, ix.entries, ix.entries, j);
    }
  }

  // At most 255 records lie between an entry's record and the next entry's.
  lemma FewBetween(base: nat, records: seq<Bytes>, entries: seq<Entry>, j: nat)
    requires j < |entries| && EntryOk(base, records, entries, j)
    ensures NextIndexed(base, records, entries, j) - (entries[j].offset - base) <= MAX_PROBES
  {
    StartGap(records, entries[j].offset - base + 1, NextIndexed(base, records, entries, j));
  }
}

/** One segment file, mapped into memory. */
module Segments {
  import opened Options
  import opened Bits
  import opened Crc32
  import opened Record
  import opened SparseIndex

  datatype ReadResult = ReadResult(offset: nat, payload: Bytes)

  // The bytes that end up mapped when a segment file is opened: a missing or
  // empty file is extended with zeros to the full size, and of a file longer
  // than that only the front is mapped.
  function Mapped(file: Option<Bytes>, maxBytes: nat): Bytes {
    if file == None || file.value == [] then ZeroBytes(maxBytes)
    else if |file.value| > maxBytes then file.value[..maxBytes]
    else file.value
  }

  // `bytes` with `x` stored at `pos`.
  function Patched(bytes: Bytes, pos: nat, x: Bytes): (r: Bytes)
    requires pos + |x| <= |bytes|
    ensures |r| == |bytes|
  {
    bytes[..pos] + x + bytes[pos + |x|..]
  }

  lemma PatchedTwice(bytes: Bytes, pos: nat, x: Bytes, y: Bytes)
    requires pos + |x| + |y| <= |bytes|
    ensures Patched(Patched(bytes, pos, x), pos + |x|, y) == Patched(bytes, pos, x + y)
  {
    var once := Patched(bytes, pos, x);
    assert once[..pos + |x|] == bytes[..pos] + x;
    assert once[pos + |x| + |y|..] == bytes[pos + |x| + |y|..];
    Associative(bytes[..pos], x, y);
  }

  lemma PatchedOne(bytes: Bytes, pos: nat, x: Byte)
    requires pos < |bytes|
    ensures bytes[pos := x] == Patched(bytes, pos, [x])
  {
  }

  lemma PatchedNone(bytes: Bytes, pos: nat)
    requires pos <= |bytes|
    ensures Patched(bytes, pos, []) == bytes
  {
  }

  method Store(a: array<Byte>, pos: nat, bytes: Bytes)
    requires pos + |bytes| <= a.Length
    modifies a
    ensures a[..] == Patched(old(a[..]), pos, bytes)
  {
    hide Patched;
    ghost var was := a[..];
    PatchedNone(was, pos);
    for i := 0 to |bytes|
      invariant a[..] == Patched(was, pos, bytes[..i])
    {
      PatchedTwice(was, pos, bytes[..i], [bytes[i]]);
      PatchedOne(a[..], pos + i, bytes[i]);
      assert bytes[..i] + [bytes[i]] == bytes[..i + 1];
      ghost var before := a[..];
      a[pos + i] := bytes[i];
      assert a[..] == before[pos + i := bytes[i]];
    }
    assert bytes[..|bytes|] == bytes;
  }

  method StoreHeader(a: array<Byte>, pos: nat, h: Header)
    requires pos + HEADER <= a.Length
    modifies a
    ensures a[..] == Patched(old(a[..]), pos, EncodeHeader(h))
  {
    hide EncodeLE, Patched;
    var offset, len, crc := EncodeLE(h.offset, 8), EncodeLE(h.len, 4), EncodeLE(h.crc, 4);
    PatchedTwice(a[..], pos, offset, len);
    PatchedTwice(a[..], pos, offset + len, crc);
    Store(a, pos, offset);
    Store(a, pos + 8, len);
    Store(a, pos + 12, crc);
  }

  // The copies of `append`: offset, length, checksum, then the payload.
  method StoreRecord(a: array<Byte>, pos: nat, offset: nat, payload: Bytes)
    requires pos + HEADER + |payload| <= a.Length
    modifies a
    ensures a[..] == Written(old(a[..]), pos, offset, payload)
  {
    hide EncodeHeader, Checksum, Patched;
    var crc := ComputeNat(payload);
    PatchedTwice(a[..], pos, EncodeHeader(HeaderFor(offset, payload)), payload);
    StoreHeader(a, pos, Header(offset, |payload|, crc));
    Store(a, pos + HEADER, payload);
  }

  // `bytes` with one record stored at `pos`.
  function Written(bytes: Bytes, pos: nat, offset: nat, payload: Bytes): Bytes
    requires pos + HEADER + |payload| <= |bytes|
  {
    Patched(bytes, pos, Encode(offset, payload))
  }

  lemma Extended(bytes: Bytes, base: nat, found: seq<Bytes>, p: Bytes)
    requires Size(found) + HEADER + |p| <= |bytes| && bytes[..Size(found)] == EncodeAll(base, found)
    requires bytes[Size(found)..Size(found) + HEADER + |p|] == Encode(base + |found|, p)
    ensures bytes[..Size(found) + HEADER + |p|] == EncodeAll(base, found + [p])
    ensures Size(found + [p]) == Size(found) + HEADER + |p|
    ensures IndexOf(base, found + [p]) == MaybeIndex(IndexOf(base, found), base + |found|, Size(found), HEADER + |p|)
  {
    hide Encode;
    EncodeAllSnoc(base, found, p);
    IndexOfSnoc(base, found, p);
    var n := Size(found);
    assert bytes[..n + HEADER + |p|] == bytes[..n] + bytes[n..n + HEADER + |p|];
  }

  lemma AppendedBytes(before: Bytes, after: Bytes, base: nat, records: seq<Bytes>, p: Bytes)
    requires Size(records) + HEADER + |p| <= |before| && before[..Size(records)] == EncodeAll(base, records)
    requires after == Written(before, Size(records), base + |records|, p)
    ensures after[..Size(records) + HEADER + |p|] == EncodeAll(base, records + [p])
    ensures Size(records + [p]) == Size(records) + HEADER + |p|
    ensures IndexOf(base, records + [p]) ==
            MaybeIndex(IndexOf(base, records), base + |records|, Size(records), HEADER + |p|)
    ensures |after| == |before|
    ensures forall i :: Size(records) + HEADER + |p| <= i < |after| ==> after[i] == before[i]
  {
    hide Encode;
    var n := Size(records);
    assert after[..n] == before[..n];
    assert after[n..n + HEADER + |p|] == Encode(base + |records|, p);
    Extended(after, base, records, p);
  }

  lemma StorableAppended(base: nat, records: seq<Bytes>, p: Bytes)
    requires Storable(base, records) && WellFormed(p) && base + |records| < MAX_OFFSET
    ensures Storable(base, records + [p])
  {
  }

  // What a scan has established when it stands at `pos`.
  ghost predicate Scanned(bytes: Bytes, base: nat, found: seq<Bytes>, pos: nat, ix: Index) {
    && Storable(base, found)
    && pos == Size(found) <= |bytes| && bytes[..pos] == EncodeAll(base, found)
    && ix == IndexOf(base, found)
    && Replay(bytes, 0, base) == found + Replay(bytes, pos, base + |found|)
  }

  lemma ScannedStep(bytes: Bytes, base: nat, found: seq<Bytes>, pos: nat, ix: Index, h: Header) returns (p: Bytes)
    requires Scanned(bytes, base, found, pos, ix)
    requires Accepts(bytes, pos, base + |found|) && h == HeaderAt(bytes, pos)
    ensures |p| == h.len && pos + HEADER + h.len <= |bytes|
    ensures Scanned(bytes, base, found + [p], pos + HEADER + h.len, MaybeIndex(ix, base + |found|, pos, HEADER + h.len))
  {
    hide Encode, MaybeIndex, EncodeAll, Accepts, Replay, Size, HeaderAt, IndexOf;
    p := AcceptedIsEncoded(bytes, pos, base + |found|);
    AcceptedLength(bytes, pos, base + |found|, p);
    Extended(bytes, base, found, p);
    var rest := Replay(bytes, pos + HEADER + |p|, base + |found| + 1);
    assert found + ([p] + rest) == (found + [p]) + rest;
  }

  lemma AcceptedLength(bytes: Bytes, pos: nat, expected: nat, p: Bytes)
    requires Accepts(bytes, pos, expected) && Replay(bytes, pos, expected) != []
    requires Replay(bytes, pos, expected)[0] == p
    ensures |p| == HeaderAt(bytes, pos).len && pos + HEADER + |p| <= |bytes|
  {
  }

  /** `replay`: accept records from the front until one fails a test.  What it
      finds, where it stops and the index it rebuilds are those of the records
      the bytes encode. */
  method Scan(data: array<Byte>, base: nat)
      returns (pos: nat, expected: nat, count: nat, ix: Index, ghost found: seq<Bytes>)
    requires base <= MAX_OFFSET
    ensures found == Replay(data[..], 0, base)
    ensures Storable(base, found) && expected == base + |found| && count == |found|
    ensures pos == Size(found) <= data.Length && data[..pos] == EncodeAll(base, found)
    ensures ix == IndexOf(base, found) && !Accepts(data[..], pos, expected)
  {
    hide Checksum, EncodeAll, IndexOf, MaybeIndex;
    pos, expected, count, ix, found := 0, base, 0, EMPTY, [];
    ghost var bytes := data[..];
    NothingScanned(bytes, base);
    while pos + HEADER <= data.Length
      invariant bytes == data[..] && Scanned(bytes, base, found, pos, ix)
      invariant expected == base + |found| && count == |found|
      decreases data.Length - pos
    {
      assert data[pos..pos + HEADER] == bytes[pos..pos + HEADER];
      var h := DecodeHeader(data[pos..pos + HEADER]);
      if h == Header(0, 0, 0) || h.offset != expected || pos + HEADER + h.len > data.Length { break; }
      assert data[pos + HEADER..pos + HEADER + h.len] == bytes[pos + HEADER..pos + HEADER + h.len];
      var crc := ComputeNat(data[pos + HEADER..pos + HEADER + h.len]);
      if crc != h.crc { break; }
      ghost var p := ScannedStep(bytes, base, found, pos, ix, h);
      found := found + [p];
      ix := MaybeIndex(ix, expected, pos, HEADER + h.len);
      pos := pos + HEADER + h.len;
      expected := expected + 1;
      count := count + 1;
    }
    assert Replay(bytes, pos, expected) == [];
    assert data[..pos] == bytes[..pos];
  }

  lemma NothingScanned(bytes: Bytes, base: nat)
    requires base <= MAX_OFFSET
    ensures Scanned(bytes, base, [], 0, EMPTY)
  {
  }

  method ComputeNat(data: Bytes) returns (r: nat)
    ensures r == Checksum(data)
  {
    var crc := Compute(data);
    r := ToNat(crc);
  }

  // The first entry whose offset is above the target.
  method FirstAfter(entries: seq<Entry>, target: nat) returns (lo: nat)
    ensures lo <= |entries|
    ensures lo > 0 ==> entries[lo - 1].offset <= target
    ensures lo < |entries| ==> target < entries[lo].offset
  {
    lo := 0;
    var hi := |entries|;
    while lo < hi
      invariant lo <= hi <= |entries|
      invariant lo > 0 ==> entries[lo - 1].offset <= target
      invariant hi < |entries| ==> target < entries[hi].offset
    {
      var mid := (lo + hi) / 2;
      if target < entries[mid].offset { hi := mid; } else { lo := mid + 1; }
    }
  }

  lemma NoEntries(base: nat, records: seq<Bytes>, ix: Index)
    requires IndexOk(base, records, ix)
    ensures records == [] <==> ix.entries == []
    ensures records != [] ==> ix.entries[0].offset == base
    ensures Start(records, 0) == 0
  {
  }

  lemma HintOk(base: nat, records: seq<Bytes>, ix: Index, j: nat, target: nat)
    requires IndexOk(base, records, ix) && j < |ix.entries| && ix.entries[j].offset <= target
    requires j + 1 < |ix.entries| ==> target < ix.entries[j + 1].offset
    ensures var at := ix.entries[j].offset - base;
            && 0 <= at <= |records| && ix.entries[j].pos == Start(records, at)
            && (if target < base + |records| then target + 1 - base else |records|) - at <= MAX_PROBES
  {
    hide Size, Start;
    assert EntryOk(base, records, ix.entries, j);
    FewBetween(base, records, ix.entries, j);
  }

  class Segment {
    const base: nat
    const maxBytes: nat
    var data: array<Byte>
    var writePos: nat
    var nextOffset: nat
    var recordCount: nat
    var sealed: bool
    var index: Index
    var fileSize: nat
    ghost var records: seq<Bytes>
    ghost var synced: nat           // leading bytes known to be on stable storage

    ghost predicate Valid()
      reads this, data
    {
      && Storable(base, records)
      && writePos == Size(records) <= fileSize <= data.Length
      && data[..writePos] == EncodeAll(base, records)
      && nextOffset == base + |records| && recordCount == |records|
      && index == IndexOf(base, records)
      && synced <= writePos
      && 0 < maxBytes && fileSize <= maxBytes && (!sealed ==> fileSize == data.Length == maxBytes)
      && (sealed && records == [] ==> fileSize < maxBytes)
      && (sealed ==> !Accepts(data[..fileSize], writePos, nextOffset))
    }

    // The file behind the mapping.
    ghost function FileBytes(): Bytes
      requires fileSize <= data.Length
      reads this, data
    {
      data[..fileSize]
    }

    // Nothing but zeros behind the records.
    ghost predicate ZeroTail()
      reads this`writePos, this`fileSize, this`data, data
    {
      forall i :: writePos <= i < fileSize <= data.Length ==> data[i] == 0
    }

    constructor Open(base: nat, maxBytes: nat, file: Option<Bytes>, ghost durable: nat)
      requires maxBytes > 0 && base <= MAX_OFFSET
      ensures Valid() && fresh(data) && this.base == base && this.maxBytes == maxBytes
      ensures data[..] == Mapped(file, maxBytes) && fileSize == data.Length
      ensures records == Replay(Mapped(file, maxBytes), 0, base)
      ensures sealed <==> file.Some? && 0 < |file.value| < maxBytes
      ensures synced == if durable < writePos then durable else writePos
    {
      hide Encode, EncodeAll, IndexOf, Replay, Size, Accepts;
      this.base := base;
      this.maxBytes := maxBytes;
      var bytes := Mapped(file, maxBytes);
      var mapping := new Byte[|bytes|](i requires 0 <= i < |bytes| => bytes[i]);
      assert mapping[..] == bytes;
      data := mapping;
      fileSize := |bytes|;
      sealed := file.Some? && 0 < |file.value| < maxBytes;
      var pos, expected, count, ix, found := Scan(mapping, base);
      writePos, nextOffset, recordCount, index := pos, expected, count, ix;
      assert mapping[..|bytes|] == mapping[..];
      records, synced := found, if durable < pos then durable else pos;
    }

    /** Appends exactly when the segment is active and the record fits; then
        the stored bytes are the record's encoding and nothing else changes. */
    method Append(payload: Bytes) returns (r: Option<nat>)
      requires Valid() && WellFormed(payload) && nextOffset < MAX_OFFSET
      modifies this, data
      ensures Valid() && data == old(data) && sealed == old(sealed)
      ensures fileSize == old(fileSize) && synced == old(synced)
      ensures r == if old(sealed || writePos + HEADER + |payload| > data.Length) then None else Some(old(nextOffset))
      ensures records == if r == None then old(records) else old(records) + [payload]
      ensures data[..] == if r == None then old(data[..])
                          else Written(old(data[..]), old(writePos), old(nextOffset), payload)
      ensures r == None ==> unchanged(this) && unchanged(data)
      ensures old(ZeroTail()) ==> ZeroTail()
    {
      hide Written, EncodeAll, IndexOf, MaybeIndex, Size, Storable;
      if sealed { return None; }
      var needed := HEADER + |payload|;
      if writePos + needed > data.Length { return None; }
      var offset := nextOffset;
      ghost var before := data[..];
      StoreRecord(data, writePos, offset, payload);
      ghost var after := data[..];
      AppendedBytes(before, after, base, records, payload);
      StorableAppended(base, records, payload);
      assert data[..writePos + needed] == after[..writePos + needed];
      records := records + [payload];
      index := MaybeIndex(index, offset, writePos, needed);
      writePos := writePos + needed;
      nextOffset := offset + 1;
      recordCount := recordCount + 1;
      return Some(offset);
    }

    method Flush()
      requires Valid()
      modifies this`synced
      ensures Valid() && synced == writePos
    {
      if writePos > 0 { synced := writePos; }
    }

    /** Sealing makes every byte durable, cuts the file to the bytes used and
        changes no record; a second seal does nothing. */
    method Seal()
      requires Valid()
      modifies this
      ensures Valid() && sealed && records == old(records)
      ensures old(sealed) ==> unchanged(this)
      ensures !old(sealed) ==> fresh(data) && fileSize == writePos == synced
      ensures !old(sealed) ==> FileBytes() == EncodeAll(base, records)
    {
      hide Encode, EncodeAll, IndexOf, Size;
      if sealed { return; }
      SizeOfNone();
      synced := writePos;
      var size := if writePos > 0 then writePos else 1;
      var used := data[..writePos];
      var mapping := new Byte[size](_ => 0);
      Store(mapping, 0, used);
      assert mapping[..writePos] == used;
      data := mapping;
      fileSize := writePos;
      sealed := true;
      NoRoom(data[..fileSize], nextOffset);
    }

    /** `position_hint_for`: a binary search of the sparse index.  The position
        is that of a record at or before the target, or of the first record,
        and at most 256 records lie from there to the target or the end. */
    method PositionHint(target: nat) returns (pos: nat, ghost at: nat)
      requires Valid()
      ensures at <= |records| && pos == Start(records, at)
      ensures base <= target < nextOffset ==> base + at <= target
      ensures target < base ==> at == 0
      ensures base <= target ==> (if target < nextOffset then target + 1 - base else |records|) - at <= MAX_PROBES
    {
      hide IndexOf, IndexOk, EntryOk, Size, EncodeAll, Storable, Accepts;
      IndexOfOk(base, records);
      NoEntries(base, records, index);
      if index.entries == [] { return 0, 0; }
      var after := FirstAfter(index.entries, target);
      if after == 0 { return 0, 0; }
      var e := index.entries[after - 1];
      HintOk(base, records, index, after - 1, target);
      return e.pos, e.offset - base;
    }

    /** `read_from`: scan headers from a record boundary.  Finds the target
        exactly when it lies between the start and the end. */
    method ReadFrom(target: nat, start: nat, ghost at: nat) returns (r: Option<ReadResult>, ghost inspected: nat)
      requires Valid() && at <= |records| && start == Start(records, at)
      ensures r == if base + at <= target < nextOffset then Some(ReadResult(target, records[target - base])) else None
      ensures inspected == if at == |records| then 0 else if target < base + at then 1
                           else if target < nextOffset then target - base - at + 1 else |records| - at
    {
      hide Encode, EncodeAll, IndexOf, Size, Checksum;
      var pos := start;
      ghost var i := at;
      inspected := 0;
      StartEnd(records);
      while pos + HEADER <= writePos
        invariant at <= i <= |records| && pos == Start(records, i) && inspected == i - at
        invariant i > at ==> base + i <= target
        decreases |records| - i
      {
        BoundaryIsRecord(records, i);
        RecordAt(data[..], base, records, i);
        assert data[pos..pos + HEADER] == data[..][pos..pos + HEADER];
        var h := DecodeHeader(data[pos..pos + HEADER]);
        inspected := inspected + 1;
        StartStep(records, i);
        if pos + HEADER + h.len > writePos { break; }
        if h.offset == target {
          assert data[pos + HEADER..pos + HEADER + h.len] == data[..][pos + HEADER..pos + HEADER + h.len];
          return Some(ReadResult(h.offset, data[pos + HEADER..pos + HEADER + h.len])), inspected;
        }
        if h.offset > target { return None, inspected; }
        pos := pos + HEADER + h.len;
        i := i + 1;
      }
      BoundaryAtEnd(records, i);
      return None, inspected;
    }

    /** A lookup through the index returns the record at an offset exactly when
        the segment holds it, and inspects at most 256 headers. */
    method Lookup(target: nat) returns (r: Option<ReadResult>, ghost inspected: nat)
      requires Valid()
      ensures r == if base <= target < nextOffset then Some(ReadResult(target, records[target - base])) else None
      ensures inspected <= 256
    {
      var hint, at := PositionHint(target);
      r, inspected := ReadFrom(target, hint, at);
    }
  }

  lemma NoRoom(bytes: Bytes, expected: nat)
    ensures !Accepts(bytes, |bytes|, expected)
  {
  }

  lemma NothingAccepted(bytes: Bytes, base: nat)
    ensures !Accepts(bytes, 0, base) ==> Replay(bytes, 0, base) == []
  {
  }

  lemma SizeOfNone()
    ensures Size([]) == 0
  {
  }

  lemma StartEnd(records: seq<Bytes>)
    ensures Start(records, |records|) == Size(records)
  {
    assert records[..|records|] == records;
  }

  // A boundary with room for a header behind it is the start of a record.
  lemma BoundaryIsRecord(records: seq<Bytes>, i: nat)
    requires i <= |records| && Start(records, i) + HEADER <= Size(records)
    ensures i < |records|
  {
    StartEnd(records);
  }

  lemma BoundaryAtEnd(records: seq<Bytes>, i: nat)
    requires i <= |records| && Start(records, i) + HEADER > Size(records)
    ensures i == |records|
  {
    StartEnd(records);
    StartGap(records, i, |records|);
  }

  // A record whose payload was altered, followed by an intact one.
  function Stale(k: nat, p: Bytes, q: Bytes, r: Bytes, tail: Bytes): Bytes {
    EncodeHeader(HeaderFor(k, p)) + q + (Encode(k + 1, r) + tail)
  }

  // Overwriting the altered record makes the intact one acceptable again.
  lemma StaleAfterWrite(base: nat, kept: seq<Bytes>, p: Bytes, altered: Bytes, q: Bytes, r: Bytes, tail: Bytes)
    requires Storable(base, kept + [q, r]) && !LooksUntouched(base, kept + [q])
    requires |p| == |altered| == |q|
    ensures var k := base + |kept|;
            var image := EncodeAll(base, kept) + Stale(k, p, altered, r, tail);
            && |EncodeAll(base, kept)| == Size(kept) && Size(kept) + HEADER + |q| <= |image|
            && kept + [q, r] <= Replay(Written(image, Size(kept), k, q), 0, base)
  {
    hide Encode, EncodeHeader, EncodeAll, Replay, Size, Accepts;
    var k := base + |kept|;
    EncodeAllSize(base, kept);
    var front := EncodeAll(base, kept);
    var image := front + Stale(k, p, altered, r, tail);
    var after := Written(image, |front|, k, q);
    assert image[..|front|] == front;
    assert image[|front| + HEADER + |q|..] == Encode(k + 1, r) + tail;
    EncodeAllSnoc(base, kept, q);
    EncodeAllSnoc(base, kept + [q], r);
    assert kept + [q] + [r] == kept + [q, r];
    assert after == EncodeAll(base, kept + [q, r]) + tail;
    assert !LooksUntouched(base, kept + [q, r]) by { assert (kept + [q, r])[0] == (kept + [q])[0]; }
    RecoversPrefix(base, kept + [q, r], tail);
  }

  /** Replay does not clear what lies behind the records it accepts, so a record
      that a segment does not hold can come back.  From a file in which one
      record was altered and an intact one follows, the segment opens without
      both; after one append of the same length it holds the appended record
      only, and when it is opened again it holds the intact one as well. */
  method StrayReturns(base: nat, kept: seq<Bytes>, a: Bytes, v: Bytes, w: Bytes, b: Bytes, q: Bytes, r: Bytes,
                      tail: Bytes)
      returns (before: Segment, after: Segment)
    requires Storable(base, kept + [q, r]) && !LooksUntouched(base, kept + [q])
    requires |v| == |w| <= 4 && v != w && |q| == |a + v + b|
    ensures before.records == kept + [q]
    ensures after.base == base && kept + [q, r] <= after.records
  {
    hide Stale, Written, EncodeAll, Replay, Size, Accepts, IndexOf, Storable, Segment.ZeroTail;
    var p, altered, k := a + v + b, a + w + b, base + |kept|;
    var image := EncodeAll(base, kept) + Stale(k, p, altered, r, tail);
    StaleAfterWrite(base, kept, p, altered, q, r, tail);
    KeptStorable(base, kept, p, q, r);
    StaleStops(base, kept, a, v, w, b, r, tail);
    before := new Segment.Open(base, |image|, Some(image), 0);
    QStorable(base, kept, q, r);
    var offset := before.Append(q);
    after := new Segment.Open(base, |image|, Some(before.data[..]), 0);
  }

  lemma StaleStops(base: nat, kept: seq<Bytes>, a: Bytes, v: Bytes, w: Bytes, b: Bytes, r: Bytes, tail: Bytes)
    requires Storable(base, kept + [a + v + b]) && !LooksUntouched(base, kept) && |v| == |w| <= 4 && v != w
    ensures Replay(EncodeAll(base, kept) + Stale(base + |kept|, a + v + b, a + w + b, r, tail), 0, base) == kept
  {
    hide Encode, EncodeHeader, EncodeAll, Replay, Storable;
    CorruptionRejected(base, kept, a, v, w, b, Encode(base + |kept| + 1, r) + tail);
  }

  lemma KeptStorable(base: nat, kept: seq<Bytes>, p: Bytes, q: Bytes, r: Bytes)
    requires Storable(base, kept + [q, r]) && !LooksUntouched(base, kept + [q]) && |p| == |q|
    ensures Storable(base, kept + [p]) && !LooksUntouched(base, kept)
  {
    var all := kept + [q, r];
    assert all[|kept|] == q && forall i :: 0 <= i < |kept| ==> all[i] == kept[i];
    assert kept != [] ==> (kept + [q])[0] == kept[0];
  }

  lemma QStorable(base: nat, kept: seq<Bytes>, q: Bytes, r: Bytes)
    requires Storable(base, kept + [q, r])
    ensures WellFormed(q) && base + |kept| < MAX_OFFSET
  {
    assert (kept + [q, r])[|kept|] == q;
  }
}
