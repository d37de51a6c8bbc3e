/** What a directory of segment files means, and what survives a crash. */
module Recovery {
  import opened Options
  import opened Bits
  import opened Crc32
  import opened Record
  import opened Segments

  // A segment file as found when the log is opened; `durable` leading bytes
  // are on stable storage.
  datatype File = File(base: nat, bytes: Bytes, durable: nat)

  function Recovered(f: File, maxBytes: nat): seq<Bytes> {
    Replay(Mapped(Some(f.bytes), maxBytes), 0, f.base)
  }

  // The record an opened log returns for offset k: the last file that starts
  // at or before k decides.
  function ReadAt(disk: seq<File>, maxBytes: nat, k: nat): Option<Bytes> {
    if disk == [] || disk[0].base > k then None
    else if |disk| > 1 && disk[1].base <= k then ReadAt(disk[1..], maxBytes, k)
    else
      var found := Recovered(disk[0], maxBytes);
      if k - disk[0].base < |found| then Some(found[k - disk[0].base]) else None
  }

  // The k-th of a sequence of records, if there is one.
  function At(records: seq<Bytes>, k: nat): Option<Bytes> {
    if k < |records| then Some(records[k]) else None
  }

  function Contents(disk: seq<File>, maxBytes: nat): seq<Bytes> {
    if disk == [] then [] else Recovered(disk[0], maxBytes) + Contents(disk[1..], maxBytes)
  }

  // Files follow each other without gap or overlap from offset `from`, every
  // file but the last holds records, and the records of a file that is not the
  // last or was cut to size are durable.
  ghost predicate Consistent(disk: seq<File>, maxBytes: nat, from: nat) {
    disk != [] ==>
      && disk[0].base == from <= MAX_OFFSET
      && (|disk| > 1 ==> Recovered(disk[0], maxBytes) != [])
      && (|disk| > 1 || 0 < |disk[0].bytes| < maxBytes ==> Size(Recovered(disk[0], maxBytes)) <= disk[0].durable)
      && Consistent(disk[1..], maxBytes, from + |Recovered(disk[0], maxBytes)|)
  }

  // Segment files as a directory lists them: by base offset, each once.
  predicate InOrder(disk: seq<File>) {
    && (forall i :: 0 <= i < |disk| ==> disk[i].base <= MAX_OFFSET)
    && (forall i, j :: 0 <= i < j < |disk| ==> disk[i].base < disk[j].base)
  }

  // Recovered records lie within the file.
  lemma RecoveredFits(f: File, maxBytes: nat)
    requires f.base <= MAX_OFFSET
    ensures Storable(f.base, Recovered(f, maxBytes))
    ensures Size(Recovered(f, maxBytes)) <= |f.bytes|
  {
    ReplaySound(Mapped(Some(f.bytes), maxBytes), 0, f.base);
    if f.bytes == [] { ZeroHeaderStops(ZeroBytes(maxBytes), 0, f.base); }
  }

  // Where the records of file i are among the contents.
  lemma {:induction false} ConsistentAt(disk: seq<File>, maxBytes: nat, from: nat, i: nat)
    requires Consistent(disk, maxBytes, from) && i < |disk|
    ensures var found, at := Recovered(disk[i], maxBytes), disk[i].base - from;
            && 0 <= at && at + |found| <= |Contents(disk, maxBytes)|
            && found == Contents(disk, maxBytes)[at..at + |found|]
            && disk[i].base <= MAX_OFFSET
            && (i + 1 < |disk| ==> disk[i + 1].base == disk[i].base + |found|)
            && (i + 1 == |disk| ==> at + |found| == |Contents(disk, maxBytes)|)
            && (i + 1 < |disk| || 0 < |disk[i].bytes| < maxBytes ==> Size(found) <= disk[i].durable)
    decreases |disk|
  {
    hide Recovered, Size;
    if i > 0 { ConsistentAt(disk[1..], maxBytes, from + |Recovered(disk[0], maxBytes)|, i - 1); }
  }

  lemma FirstBase(disk: seq<File>, maxBytes: nat, from: nat)
    requires Consistent(disk, maxBytes, from) && disk != []
    ensures disk[0].base == from
  {
  }

  lemma {:induction false} ConsistentRead(disk: seq<File>, maxBytes: nat, from: nat, k: nat)
    requires Consistent(disk, maxBytes, from)
    ensures ReadAt(disk, maxBytes, k) ==
            if from <= k < from + |Contents(disk, maxBytes)| then Some(Contents(disk, maxBytes)[k - from]) else None
    decreases |disk|
  {
    hide Recovered;
    if disk != [] {
      var found := Recovered(disk[0], maxBytes);
      ConsistentRead(disk[1..], maxBytes, from + |found|, k);
    }
  }

  // ----- What is durable -----

  // How many leading records fit in n bytes.
  function Fitting(records: seq<Bytes>, n: nat): (r: nat)
    ensures r <= |records|
  {
    if records == [] || HEADER + |records[0]| > n then 0
    else 1 + Fitting(records[1..], n - HEADER - |records[0]|)
  }

  lemma {:induction false} FittingIs(records: seq<Bytes>, n: nat, m: nat)
    requires m <= |records|
    ensures Size(records[..m]) <= n <==> m <= Fitting(records, n)
    decreases |records|
  {
    if m > 0 {
      assert records[..m][1..] == records[1..][..m - 1];
      if HEADER + |records[0]| <= n { FittingIs(records[1..], n - HEADER - |records[0]|, m - 1); }
    }
  }

  // How many leading records of a directory are on stable storage.
  function Durable(disk: seq<File>, maxBytes: nat): nat {
    if disk == [] then 0
    else if |disk| == 1 then Fitting(Recovered(disk[0], maxBytes), disk[0].durable)
    else |Recovered(disk[0], maxBytes)| + Durable(disk[1..], maxBytes)
  }

  lemma {:induction false} DurableAt(disk: seq<File>, maxBytes: nat, from: nat)
    requires Consistent(disk, maxBytes, from) && disk != []
    ensures var f := disk[|disk| - 1];
            && Durable(disk, maxBytes) == f.base - from + Fitting(Recovered(f, maxBytes), f.durable)
            && Durable(disk, maxBytes) <= |Contents(disk, maxBytes)|
    decreases |disk|
  {
    hide Recovered, Fitting, Size;
    if |disk| > 1 { DurableAt(disk[1..], maxBytes, from + |Recovered(disk[0], maxBytes)|); }
  }

  // If every byte is on stable storage, so is every record.
  lemma {:induction false} AllDurable(disk: seq<File>, maxBytes: nat)
    requires forall f :: f in disk ==> f.base <= MAX_OFFSET && |f.bytes| <= f.durable
    ensures Durable(disk, maxBytes) == |Contents(disk, maxBytes)|
    decreases |disk|
  {
    hide Recovered;
    if disk != [] {
      var f := disk[0];
      assert f in disk;
      RecoveredFits(f, maxBytes);
      var found := Recovered(f, maxBytes);
      assert found[..|found|] == found;
      FittingIs(found, f.durable, |found|);
      AllDurable(disk[1..], maxBytes);
    }
  }

  // ----- The segments of a running log -----

  // A segment: its records, how many of its bytes have been synced, and the
  // bytes of its file.
  datatype View = View(base: nat, records: seq<Bytes>, synced: nat, file: Bytes)

  function All(views: seq<View>): seq<Bytes> {
    if views == [] then [] else views[0].records + All(views[1..])
  }

  // The record at offset k: the last segment that starts at or before k decides.
  function Held(views: seq<View>, k: nat): Option<Bytes> {
    if views == [] || views[0].base > k then None
    else if |views| > 1 && views[1].base <= k then Held(views[1..], k)
    else if k - views[0].base < |views[0].records| then Some(views[0].records[k - views[0].base]) else None
  }

  lemma {:induction false} HeldIsReadAt(views: seq<View>, disk: seq<File>, maxBytes: nat, k: nat)
    requires |views| == |disk|
    requires forall i :: 0 <= i < |disk| ==>
               views[i].base == disk[i].base && views[i].records == Recovered(disk[i], maxBytes)
    ensures Held(views, k) == ReadAt(disk, maxBytes, k)
    decreases |views|
  {
    hide Recovered;
    if |views| > 1 { HeldIsReadAt(views[1..], disk[1..], maxBytes, k); }
  }

  // The file of a segment starts with its records.
  ghost predicate ViewOk(v: View, maxBytes: nat) {
    && Storable(v.base, v.records)
    && v.synced <= Size(v.records) <= |v.file| <= maxBytes
    && v.file[..Size(v.records)] == EncodeAll(v.base, v.records)
  }

  // All its records are synced and nothing behind them would be taken for one.
  ghost predicate Exact(v: View) {
    v.synced == Size(v.records) && !Accepts(v.file, Size(v.records), v.base + |v.records|)
  }

  // The invariant of a running log: segments follow each other, and a segment
  // that is not the last or was cut to size is exact.
  ghost predicate ViewsOk(views: seq<View>, maxBytes: nat, from: nat) {
    views != [] ==>
      && views[0].base == from && ViewOk(views[0], maxBytes)
      && (|views| > 1 || 0 < |views[0].file| < maxBytes ==> Exact(views[0]))
      && ViewsOk(views[1..], maxBytes, from + |views[0].records|)
  }

  lemma NotHeld(views: seq<View>, k: nat)
    ensures views == [] || k < views[0].base ==> Held(views, k) == None
  {
  }

  lemma {:induction false} HeldBy(views: seq<View>, i: nat, k: nat)
    requires i < |views| && views[i].base <= k && (i + 1 < |views| ==> k < views[i + 1].base)
    requires forall a, b :: 0 <= a < b < |views| ==> views[a].base <= views[b].base
    ensures Held(views, k) ==
            if k - views[i].base < |views[i].records| then Some(views[i].records[k - views[i].base]) else None
    decreases i
  {
    if i > 0 { HeldBy(views[1..], i - 1, k); }
  }

  // The segments of a running log hold, at each offset, one of its records.
  lemma {:induction false} ViewsHold(views: seq<View>, maxBytes: nat, from: nat, k: nat)
    requires ViewsOk(views, maxBytes, from)
    ensures Held(views, k) ==
            if from <= k < from + |All(views)| then Some(All(views)[k - from]) else None
    decreases |views|
  {
    hide ViewOk, Exact;
    if views != [] { ViewsHold(views[1..], maxBytes, from + |views[0].records|, k); }
  }

  // The directory of a log whose segments have the given files.  A segment
  // without records shares its file with the next one, which has the same base.
  function Directory(views: seq<View>, files: seq<File>): seq<File>
    requires |views| == |files|
  {
    if views == [] then []
    else if |views| > 1 && views[0].records == [] then Directory(views[1..], files[1..])
    else [files[0]] + Directory(views[1..], files[1..])
  }

  // The files are those of the segments.
  predicate FilesOf(views: seq<View>, files: seq<File>) {
    |files| == |views| && forall i :: 0 <= i < |views| ==> files[i].base == views[i].base
  }

  lemma PrependInOrder(f: File, rest: seq<File>)
    requires InOrder(rest) && f.base <= MAX_OFFSET && forall g :: g in rest ==> f.base < g.base
    ensures InOrder([f] + rest)
  {
  }

  lemma NoneInOrder()
    ensures InOrder([])
  {
  }

  // Such a directory can be opened.
  lemma {:induction false} DirectoryInOrder(views: seq<View>, files: seq<File>, maxBytes: nat, from: nat)
    requires FilesOf(views, files) && ViewsOk(views, maxBytes, from)
    ensures InOrder(Directory(views, files))
    ensures forall f :: f in Directory(views, files) ==> from <= f.base && f in files
    decreases |views|
  {
    hide InOrder, Exact, Size, EncodeAll;
    NoneInOrder();
    if views != [] {
      DirectoryInOrder(views[1..], files[1..], maxBytes, from + |views[0].records|);
      if |views| == 1 || views[0].records != [] {
        PrependInOrder(files[0], Directory(views[1..], files[1..]));
      }
    }
  }

  // ----- Crashes -----

  // A crash keeps the synced bytes of a segment and may leave anything behind
  // them; a segment that is not the last was not written to since it was
  // synced.  What is left is on stable storage.
  ghost predicate CrashFile(v: View, last: bool, maxBytes: nat, f: File) {
    && f.base == v.base && f.durable == |f.bytes| <= maxBytes
    && v.synced <= |f.bytes| && v.synced <= |EncodeAll(v.base, v.records)|
    && f.bytes[..v.synced] == EncodeAll(v.base, v.records)[..v.synced]
    && (!last ==> f.bytes == v.file)
  }

  ghost predicate CrashFiles(views: seq<View>, maxBytes: nat, files: seq<File>) {
    && |files| == |views|
    && forall i :: 0 <= i < |views| ==> CrashFile(views[i], i == |views| - 1, maxBytes, files[i])
  }

  // How many records have all their bytes synced.
  ghost predicate Acknowledged(views: seq<View>, n: nat) {
    views != [] &&
    if |views| == 1 then n <= |views[0].records| && Size(views[0].records[..n]) <= views[0].synced
    else n <= |views[0].records| || Acknowledged(views[1..], n - |views[0].records|)
  }

  lemma FileOfSynced(v: View, last: bool, maxBytes: nat, f: File, n: nat)
    requires CrashFile(v, last, maxBytes, f) && Storable(v.base, v.records)
    requires n <= |v.records| && Size(v.records[..n]) <= v.synced
    ensures f.bytes == EncodeAll(v.base, v.records[..n]) + f.bytes[Size(v.records[..n])..]
    ensures Storable(v.base, v.records[..n])
  {
    hide Encode;
    var whole, part := EncodeAll(v.base, v.records), EncodeAll(v.base, v.records[..n]);
    assert v.records == v.records[..n] + v.records[n..];
    EncodeAllConcat(v.base, v.records[..n], v.records[n..]);
    EncodeAllSize(v.base, v.records[..n]);
    var s := Size(v.records[..n]);
    assert f.bytes[..s] == f.bytes[..v.synced][..s] == whole[..v.synced][..s] == whole[..s] == part;
  }

  // A file holds the acknowledged records of its segment.
  lemma FileHolds(v: View, last: bool, maxBytes: nat, f: File, n: nat)
    requires CrashFile(v, last, maxBytes, f) && Storable(v.base, v.records)
    requires n <= |v.records| && Size(v.records[..n]) <= v.synced
    ensures !LooksUntouched(v.base, v.records[..n]) ==> v.records[..n] <= Recovered(f, maxBytes)
    ensures n > 0 && LooksUntouched(v.base, v.records[..n]) ==> Recovered(f, maxBytes) == []
  {
    hide Encode, EncodeAll, Replay;
    var part := v.records[..n];
    FileOfSynced(v, last, maxBytes, f, n);
    EncodeAllSize(v.base, part);
    RecoversPrefix(v.base, part, f.bytes[Size(part)..]);
    if n > 0 {
      NotEmpty(part);
      assert f.bytes != [];
    }
  }

  lemma NotEmpty(records: seq<Bytes>)
    requires records != []
    ensures Size(records) >= HEADER
  {
  }

  // What a scan would take for records behind those of a segment.
  function Stray(v: View): seq<Bytes> { Replay(v.file, Size(v.records), v.base + |v.records|) }

  lemma ExactIffNoStray(v: View)
    ensures Stray(v) == [] <==> !Accepts(v.file, Size(v.records), v.base + |v.records|)
  {
  }

  // The file of a segment is recovered as its records and the stray ones.
  lemma FileRecovered(v: View, maxBytes: nat, f: File)
    requires ViewOk(v, maxBytes) && f.base == v.base && f.bytes == v.file
    ensures Recovered(f, maxBytes) == if LooksUntouched(v.base, v.records) then [] else v.records + Stray(v)
  {
    hide Encode, EncodeAll, Replay, Size;
    EncodeAllSize(v.base, v.records);
    var tail := v.file[Size(v.records)..];
    assert v.file == EncodeAll(v.base, v.records) + tail;
    if v.file == [] {
      EmptyFile(v, maxBytes);
    } else {
      RecoversPrefix(v.base, v.records, tail);
      if !LooksUntouched(v.base, v.records) { ReplayStops(v.base, v.records, tail); }
    }
  }

  lemma EmptyFile(v: View, maxBytes: nat)
    requires ViewOk(v, maxBytes) && v.file == []
    ensures v.records == [] && Stray(v) == [] && Replay(ZeroBytes(maxBytes), 0, v.base) == []
  {
    if v.records != [] { NotEmpty(v.records); }
    ZeroHeaderStops(ZeroBytes(maxBytes), 0, v.base);
  }

  lemma FileBounds(v: View, last: bool, maxBytes: nat, f: File)
    requires CrashFile(v, last, maxBytes, f)
    ensures f.base == v.base && f.durable == |f.bytes| <= maxBytes && (!last ==> f.bytes == v.file)
  {
  }

  lemma TailFiles(views: seq<View>, maxBytes: nat, files: seq<File>)
    requires |views| > 1 && CrashFiles(views, maxBytes, files)
    ensures CrashFiles(views[1..], maxBytes, files[1..])
    ensures CrashFile(views[0], false, maxBytes, files[0])
  {
  }

  /** After a crash the directory is consistent again and starts with every
      acknowledged record. */
  lemma {:induction false} CrashConsistent(views: seq<View>, maxBytes: nat, files: seq<File>, from: nat, n: nat)
    requires ViewsOk(views, maxBytes, from) && CrashFiles(views, maxBytes, files)
    requires Acknowledged(views, n) && n <= |All(views)| && from <= MAX_OFFSET
    requires !LooksUntouched(from, All(views)[..n]) && (|views| > 1 ==> !LooksUntouched(from, All(views)))
    ensures Consistent(Directory(views, files), maxBytes, from)
    ensures All(views)[..n] <= Contents(Directory(views, files), maxBytes)
    decreases |views|
  {
    hide Recovered, Encode, EncodeAll, Replay, Size, CrashFile, ViewOk, Exact;
    if |views| == 1 {
      LastFile(views, maxBytes, files, from, n);
    } else {
      var v, views', files' := views[0], views[1..], files[1..];
      var n' := if n <= |v.records| then 0 else n - |v.records|;
      TailFiles(views, maxBytes, files);
      NoneAcknowledged(views');
      assert All(views) == v.records + All(views');
      InRange(v, maxBytes);
      CrashConsistent(views', maxBytes, files', from + |v.records|, n');
      if v.records == [] {
        assert All(views) == All(views');
      } else {
        SealedFile(v, maxBytes, files[0], Directory(views', files'), n, All(views'), n');
      }
    }
  }

  lemma NoneAcknowledged(views: seq<View>)
    requires views != []
    ensures Acknowledged(views, 0)
  {
  }

  lemma LastFile(views: seq<View>, maxBytes: nat, files: seq<File>, from: nat, n: nat)
    requires |views| == 1 && ViewsOk(views, maxBytes, from) && CrashFiles(views, maxBytes, files)
    requires Acknowledged(views, n) && from <= MAX_OFFSET && !LooksUntouched(from, All(views)[..n])
    ensures All(views) == views[0].records
    ensures Consistent(Directory(views, files), maxBytes, from)
    ensures All(views)[..n] <= Contents(Directory(views, files), maxBytes)
  {
    hide Recovered, Encode, EncodeAll, Replay, CrashFile, Exact;
    var v, f := views[0], files[0];
    assert All(views) == v.records + [];
    assert CrashFile(v, true, maxBytes, f);
    FileBounds(v, true, maxBytes, f);
    FileHolds(v, true, maxBytes, f, n);
    RecoveredFits(f, maxBytes);
    assert Directory(views, files) == [f];
    assert Contents([f], maxBytes) == Recovered(f, maxBytes) + Contents([], maxBytes);
    assert Recovered(f, maxBytes) + [] == Recovered(f, maxBytes);
  }

  lemma SealedFile(v: View, maxBytes: nat, f: File, disk: seq<File>, n: nat, rest: seq<Bytes>, n': nat)
    requires CrashFile(v, false, maxBytes, f) && ViewOk(v, maxBytes) && Exact(v)
    requires v.base <= MAX_OFFSET && v.records != [] && !LooksUntouched(v.base, v.records)
    requires Consistent(disk, maxBytes, v.base + |v.records|)
    requires n' == (if n <= |v.records| then 0 else n - |v.records|) && n <= |v.records| + |rest|
    requires rest[..n'] <= Contents(disk, maxBytes)
    ensures Consistent([f] + disk, maxBytes, v.base)
    ensures (v.records + rest)[..n] <= Contents([f] + disk, maxBytes)
  {
    hide Recovered, Encode, EncodeAll, Replay, Size, CrashFile, ViewOk, Accepts;
    FileBounds(v, false, maxBytes, f);
    FileRecovered(v, maxBytes, f);
    ExactIffNoStray(v);
    assert v.records + [] == v.records;
    RecoveredFits(f, maxBytes);
    assert ([f] + disk)[1..] == disk;
    assert Contents([f] + disk, maxBytes) == v.records + Contents(disk, maxBytes);
  }

  // A first record that looks untouched hides its whole file.
  lemma {:induction false} UntouchedIsLost(views: seq<View>, maxBytes: nat, files: seq<File>, n: nat)
    requires ViewsOk(views, maxBytes, 0) && CrashFiles(views, maxBytes, files)
    requires Acknowledged(views, n) && 0 < n <= |All(views)| && All(views)[0] == []
    ensures ReadAt(Directory(views, files), maxBytes, 0) == None
    decreases |views|
  {
    hide Recovered, Encode, EncodeAll, Replay, Size, CrashFile, Exact, Accepts;
    var v := views[0];
    assert All(views) == v.records + All(views[1..]);
    assert CrashFile(v, |views| == 1, maxBytes, files[0]);
    FileBounds(v, |views| == 1, maxBytes, files[0]);
    if |views| > 1 { TailFiles(views, maxBytes, files); }
    if v.records == [] {
      assert All(views) == All(views[1..]);
      UntouchedIsLost(views[1..], maxBytes, files[1..], n);
    } else {
      if |views| == 1 {
        FileHolds(v, true, maxBytes, files[0], n);
      } else {
        FileRecovered(v, maxBytes, files[0]);
      }
      CrashBases(views, maxBytes, files);
      FirstFileLost(views, files, maxBytes);
    }
  }

  lemma FirstFileLost(views: seq<View>, files: seq<File>, maxBytes: nat)
    requires ViewsOk(views, maxBytes, 0) && FilesOf(views, files) && views != [] && views[0].records != []
    requires Recovered(files[0], maxBytes) == []
    ensures ReadAt(Directory(views, files), maxBytes, 0) == None
  {
    hide Recovered, ViewOk, Exact;
    DirectoryInOrder(views, files, maxBytes, 0);
    var disk := Directory(views, files);
    assert disk[0] == files[0];
  }

  lemma CrashBases(views: seq<View>, maxBytes: nat, files: seq<File>)
    requires CrashFiles(views, maxBytes, files)
    ensures FilesOf(views, files) && forall f :: f in files ==> f.durable == |f.bytes|
  {
    hide CrashFile;
    forall i | 0 <= i < |views| ensures files[i].base == views[i].base && files[i].durable == |files[i].bytes| {
      assert CrashFile(views[i], i == |views| - 1, maxBytes, files[i]);
      FileBounds(views[i], i == |views| - 1, maxBytes, files[i]);
    }
  }

  /** Acknowledged durability: after a crash that keeps synced bytes and leaves
      any others, the reopened log returns every acknowledged record at its
      offset, exactly when the record at offset 0 is not an empty payload. */
  lemma AcknowledgedSurvive(views: seq<View>, maxBytes: nat, files: seq<File>, n: nat)
    requires views != [] && ViewsOk(views, maxBytes, 0) && CrashFiles(views, maxBytes, files)
    requires Acknowledged(views, n) && n <= |All(views)|
    ensures (forall k: nat :: k < n ==> ReadAt(Directory(views, files), maxBytes, k) == Some(All(views)[k])) <==>
            n == 0 || All(views)[0] != []
  {
    hide Recovered, CrashFile, ViewsOk, Directory, ReadAt, Consistent;
    if n > 0 {
      if All(views)[0] == [] {
        UntouchedIsLost(views, maxBytes, files, n);
        assert ReadAt(Directory(views, files), maxBytes, 0) != Some(All(views)[0]);
      } else {
        CrashConsistent(views, maxBytes, files, 0, n);
        var disk := Directory(views, files);
        forall k: nat | k < n ensures ReadAt(disk, maxBytes, k) == Some(All(views)[k]) {
          ConsistentRead(disk, maxBytes, 0, k);
          assert All(views)[..n][k] == All(views)[k];
        }
      }
    }
  }

  // ----- Closing and reopening -----

  // The files a log leaves when it is simply closed.
  predicate ClosedFiles(views: seq<View>, files: seq<File>) {
    && |files| == |views|
    && forall i :: 0 <= i < |views| ==> files[i] == File(views[i].base, views[i].file, views[i].synced)
  }

  function LastStray(views: seq<View>): seq<Bytes> {
    if views == [] then [] else Stray(views[|views| - 1])
  }

  /** A log that is closed and reopened has the contents it had, followed by
      the stray records behind those of its newest segment. */
  lemma {:induction false} ClosedContents(views: seq<View>, maxBytes: nat, files: seq<File>, from: nat)
    requires ViewsOk(views, maxBytes, from) && ClosedFiles(views, files) && from <= MAX_OFFSET
    requires !LooksUntouched(from, All(views))
    ensures Consistent(Directory(views, files), maxBytes, from)
    ensures Contents(Directory(views, files), maxBytes) == All(views) + LastStray(views)
    decreases |views|
  {
    hide Recovered, Size, ViewOk, Exact, Stray;
    if views != [] {
      var v, views', files' := views[0], views[1..], files[1..];
      assert All(views) == v.records + All(views');
      InRange(v, maxBytes);
      ClosedContents(views', maxBytes, files', from + |v.records|);
      if |views| > 1 && v.records == [] {
        assert All(views) == All(views');
      } else {
        ClosedFile(v, |views| == 1, maxBytes, files[0]);
        assert ([files[0]] + Directory(views', files'))[1..] == Directory(views', files');
        if |views| == 1 {
          assert All(views') == [] && v.records + [] == v.records;
          assert Contents(Directory(views, files), maxBytes) == Recovered(files[0], maxBytes) + [];
        } else {
          Associative(v.records, All(views'), LastStray(views'));
        }
      }
    }
  }

  lemma InRange(v: View, maxBytes: nat)
    requires ViewOk(v, maxBytes)
    ensures v.base + |v.records| <= MAX_OFFSET
  {
  }

  lemma ClosedFile(v: View, last: bool, maxBytes: nat, f: File)
    requires ViewOk(v, maxBytes) && (!last || 0 < |v.file| < maxBytes ==> Exact(v))
    requires f == File(v.base, v.file, v.synced) && !LooksUntouched(v.base, v.records)
    ensures Recovered(f, maxBytes) == v.records + Stray(v)
    ensures !last || 0 < |f.bytes| < maxBytes ==>
              Stray(v) == [] && Recovered(f, maxBytes) == v.records && Size(Recovered(f, maxBytes)) <= f.durable
  {
    hide Recovered, Size, EncodeAll, Accepts, Stray;
    FileRecovered(v, maxBytes, f);
    ExactIffNoStray(v);
    assert v.records + [] == v.records;
  }

  // Unless its first record looks untouched: then the first file is lost.
  lemma {:induction false} ClosedLost(views: seq<View>, maxBytes: nat, files: seq<File>)
    requires ViewsOk(views, maxBytes, 0) && ClosedFiles(views, files) && LooksUntouched(0, All(views))
    ensures ReadAt(Directory(views, files), maxBytes, 0) == None
    decreases |views|
  {
    hide Recovered, Size, ViewOk, Exact, Stray;
    var v := views[0];
    assert All(views) == v.records + All(views[1..]);
    if v.records == [] {
      assert All(views) == All(views[1..]);
      ClosedLost(views[1..], maxBytes, files[1..]);
    } else {
      FileRecovered(v, maxBytes, files[0]);
      FirstFileLost(views, files, maxBytes);
    }
  }

  /** Closing and reopening changes no read exactly when the payload at offset 0
      is not empty and nothing stray lies behind the records of the newest
      segment. */
  lemma ClosedReads(views: seq<View>, maxBytes: nat, files: seq<File>)
    requires ViewsOk(views, maxBytes, 0) && ClosedFiles(views, files)
    ensures (forall k: nat :: ReadAt(Directory(views, files), maxBytes, k) == At(All(views), k)) <==>
            (All(views) == [] || All(views)[0] != []) && LastStray(views) == []
  {
    hide ReadAt, Directory, ViewsOk, Consistent, LastStray, Contents;
    var disk, all, stray := Directory(views, files), All(views), LastStray(views);
    if LooksUntouched(0, all) {
      ClosedLost(views, maxBytes, files);
      assert ReadAt(disk, maxBytes, 0) != At(all, 0);
    } else {
      ClosedContents(views, maxBytes, files, 0);
      forall k: nat ensures ReadAt(disk, maxBytes, k) == At(all + stray, k) {
        ConsistentRead(disk, maxBytes, 0, k);
      }
      if stray == [] {
        assert all + stray == all;
      } else {
        assert ReadAt(disk, maxBytes, |all|) != At(all, |all|);
      }
    }
  }

  // What was acknowledged is still known to be durable after reopening.
  lemma {:induction false} ClosedDurable(views: seq<View>, maxBytes: nat, files: seq<File>, from: nat, n: nat)
    requires ViewsOk(views, maxBytes, from) && ClosedFiles(views, files) && !LooksUntouched(from, All(views))
    requires Acknowledged(views, n) && n <= |All(views)|
    ensures n <= Durable(Directory(views, files), maxBytes)
    decreases |views|
  {
    hide Recovered, Size, ViewOk, Exact, Stray, Fitting;
    var v, views', files' := views[0], views[1..], files[1..];
    assert All(views) == v.records + All(views');
    if |views| > 1 && v.records == [] {
      assert All(views) == All(views');
      NoneAcknowledged(views');
      ClosedDurable(views', maxBytes, files', from, n);
    } else {
      ClosedFile(v, |views| == 1, maxBytes, files[0]);
      var found := Recovered(files[0], maxBytes);
      if |views| == 1 {
        assert found[..n] == v.records[..n];
        FittingIs(found, v.synced, n);
      } else {
        var n' := if n <= |v.records| then 0 else n - |v.records|;
        NoneAcknowledged(views');
        ClosedDurable(views', maxBytes, files', from + |v.records|, n');
        DirectoryNotEmpty(views', files');
        assert Directory(views, files)[1..] == Directory(views', files');
      }
    }
  }

  lemma {:induction false} DirectoryNotEmpty(views: seq<View>, files: seq<File>)
    requires views != [] && |views| == |files|
    ensures Directory(views, files) != []
    decreases |views|
  {
    if |views| > 1 { DirectoryNotEmpty(views[1..], files[1..]); }
  }

  // ----- Files with nothing but zeros behind their records -----

  ghost predicate ZeroBehind(f: File, maxBytes: nat) {
    forall i :: Size(Recovered(f, maxBytes)) <= i < |f.bytes| && i < maxBytes ==> f.bytes[i] == 0
  }

  ghost predicate ZeroTailed(v: View) {
    forall i :: Size(v.records) <= i < |v.file| ==> v.file[i] == 0
  }

  lemma ZeroTailedHasNoStray(v: View)
    requires ZeroTailed(v)
    ensures Stray(v) == []
  {
    ZeroHeaderStops(v.file, Size(v.records), v.base + |v.records|);
  }

  lemma {:induction false} ClosedZeroBehind(views: seq<View>, maxBytes: nat, files: seq<File>, from: nat)
    requires ViewsOk(views, maxBytes, from) && ClosedFiles(views, files) && !LooksUntouched(from, All(views))
    requires forall i :: 0 <= i < |views| ==> ZeroTailed(views[i])
    ensures forall f :: f in Directory(views, files) ==> ZeroBehind(f, maxBytes)
    decreases |views|
  {
    hide Recovered, Size, ViewOk, Exact, Stray, ZeroTailed, ZeroBehind;
    if views != [] {
      var v, views', files' := views[0], views[1..], files[1..];
      assert All(views) == v.records + All(views');
      if |views| > 1 && v.records == [] { assert All(views) == All(views'); }
      ClosedZeroBehind(views', maxBytes, files', from + |v.records|);
      if |views| == 1 || v.records != [] { ZeroFile(v, |views| == 1, maxBytes, files[0]); }
    }
  }

  lemma ZeroFile(v: View, last: bool, maxBytes: nat, f: File)
    requires ViewOk(v, maxBytes) && (!last || 0 < |v.file| < maxBytes ==> Exact(v)) && ZeroTailed(v)
    requires f == File(v.base, v.file, v.synced) && !LooksUntouched(v.base, v.records)
    ensures ZeroBehind(f, maxBytes)
  {
    hide Recovered, Size, ViewOk, Exact, Stray;
    ClosedFile(v, last, maxBytes, f);
    ZeroTailedHasNoStray(v);
    assert v.records + [] == v.records;
  }
}
