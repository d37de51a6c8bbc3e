/** The log of one partition: appends go to the newest segment, which is sealed
    and replaced when a record does not fit; reads find the segment and then
    the record. */
module Logs {
  import opened Options
  import opened Bits
  import opened Crc32
  import opened Record
  import opened SparseIndex
  import opened Segments
  import opened Recovery

  datatype AppendResult = Appended(offset: nat) | TooLarge

  datatype BatchResult = BatchAppended(first: nat) | LengthError | BatchFailed

  predicate Fits(payload: Bytes, maxBytes: nat) { HEADER + |payload| <= maxBytes }

  ghost function ViewOf(s: Segment): View
    reads s, s.data
  {
    View(s.base, s.records, s.synced, if s.fileSize <= s.data.Length then s.FileBytes() else [])
  }

  ghost function ViewsOf(segments: seq<Segment>): (views: seq<View>)
    reads segments, set s | s in segments :: s.data
    ensures |views| == |segments|
    ensures forall i :: 0 <= i < |views| ==> views[i] == ViewOf(segments[i])
  {
    if segments == [] then [] else [ViewOf(segments[0])] + ViewsOf(segments[1..])
  }

  // A segment opened from a file, and possibly sealed since.
  ghost predicate OpenedFrom(s: Segment, f: File, maxBytes: nat)
    reads s, s.data
  {
    && s.Valid() && s.base == f.base && s.maxBytes == maxBytes
    && s.records == Recovered(f, maxBytes)
    && (f.durable <= s.synced || s.synced == s.writePos)
    && (s.sealed ==> 0 < |f.bytes| < maxBytes || s.synced == s.writePos)
    && (ZeroBehind(f, maxBytes) ==> s.ZeroTail())
  }

  // The file of a sealed segment.
  predicate CutToSize(f: File, maxBytes: nat) { 0 < |f.bytes| < maxBytes }

  method OpenSegment(f: File, maxBytes: nat) returns (s: Segment)
    requires maxBytes > 0 && f.base <= MAX_OFFSET
    ensures fresh(s) && fresh(s.data) && OpenedFrom(s, f, maxBytes)
    ensures (s.sealed <==> CutToSize(f, maxBytes)) && s.fileSize > 0
  {
    hide Size, EncodeAll, IndexOf, Replay, Start, Storable;
    s := new Segment.Open(f.base, maxBytes, Some(f.bytes), f.durable);
    RecoveredFits(f, maxBytes);
    assert forall i :: 0 <= i < s.data.Length ==> s.data[i] == s.data[..][i];
  }

  method SealOpened(s: Segment, ghost f: File, ghost maxBytes: nat)
    requires OpenedFrom(s, f, maxBytes)
    modifies s
    ensures OpenedFrom(s, f, maxBytes) && s.sealed
    ensures s.data == old(s.data) || fresh(s.data)
  {
    hide Size, EncodeAll, IndexOf, Replay, Start, Storable;
    if !s.sealed { s.Seal(); }
  }

  class Log {
    const maxBytes: nat
    var segments: seq<Segment>
    var nextOffset: nat
    var flushCalls: nat
    ghost var contents: seq<Bytes>    // the payload of every offset
    ghost var flushed: nat            // offsets below this one were acknowledged as durable

    ghost predicate Separate()
      reads this`segments, segments
    {
      forall i, j :: 0 <= i < j < |segments| ==>
        segments[i] != segments[j] && segments[i].data != segments[j].data
    }

    ghost predicate SegmentOk(i: nat)
      requires i < |segments|
      reads this`segments, this`contents, this`flushed, segments, segments[i].data
    {
      var s := segments[i];
      && s.Valid() && s.maxBytes == maxBytes
      && s.nextOffset <= |contents| && s.records == contents[s.base..s.nextOffset]
      && (s.sealed ==> s.synced == s.writePos)
      && (if i + 1 < |segments|
          then s.sealed && segments[i + 1].base == s.nextOffset
          else s.nextOffset == |contents| && FlushedIn(s))
    }

    // The acknowledged records of a segment are synced.
    ghost predicate FlushedIn(s: Segment)
      reads this`flushed, s
    {
      s.base < flushed ==> flushed - s.base <= |s.records| && Start(s.records, flushed - s.base) <= s.synced
    }

    // Everything but the cached next offset.
    ghost predicate SegmentsOk()
      reads this`segments, this`contents, this`flushed, segments, set s | s in segments :: s.data
    {
      && maxBytes > 0 && flushed <= |contents|
      && segments != [] && segments[0].base == 0
      && Separate()
      && (forall i :: 0 <= i < |segments| ==> SegmentOk(i))
    }

    ghost predicate Valid()
      reads this, segments, set s | s in segments :: s.data
    {
      SegmentsOk() && nextOffset == |contents|
    }

    ghost function Active(): Segment
      requires segments != []
      reads this`segments
    {
      segments[|segments| - 1]
    }

    // The newest segment is a sealed file from which nothing was recovered:
    // its name is taken, so no segment can follow it.
    ghost predicate Stuck()
      requires segments != []
      reads this`segments, segments
    {
      Active().sealed && Active().records == [] && Active().fileSize > 0
    }

    // Every byte written has been synced.
    ghost predicate Synced()
      reads this`segments, segments
    {
      forall i :: 0 <= i < |segments| ==> segments[i].synced == segments[i].writePos
    }

    // No file holds anything but its records and zeros.
    ghost predicate Clean()
      reads this`segments, segments, set s | s in segments :: s.data
    {
      forall i :: 0 <= i < |segments| ==> segments[i].ZeroTail()
    }

    // Enough to read: the segments are sound and in order of their offsets.
    ghost predicate Readable()
      reads this`segments, segments, set s | s in segments :: s.data
    {
      && (forall i :: 0 <= i < |segments| ==> segments[i].Valid())
      && (forall i, j :: 0 <= i < j < |segments| ==> segments[i].base <= segments[j].base)
    }

    lemma {:induction false} BasesIncrease(i: nat, j: nat)
      requires SegmentsOk() && i < j < |segments|
      ensures segments[i].base <= segments[j].base
      decreases j
    {
      hide Size, EncodeAll, IndexOf, Replay, Start;
      assert SegmentOk(j - 1);
      if i < j - 1 { BasesIncrease(i, j - 1); }
    }

    lemma ValidIsReadable()
      requires SegmentsOk()
      ensures Readable()
    {
      forall i | 0 <= i < |segments| ensures segments[i].Valid() { assert SegmentOk(i); }
      forall i, j | 0 <= i < j < |segments| ensures segments[i].base <= segments[j].base { BasesIncrease(i, j); }
    }

    /** Reading offset k, through both binary searches and the scan, returns
        what the last segment starting at or before k holds for it. */
    method Read(k: nat) returns (r: Option<ReadResult>)
      requires Readable()
      ensures r == var held := Held(ViewsOf(segments), k);
                   if held == None then None else Some(ReadResult(k, held.value))
    {
      hide Held, ViewsOf, Readable, Segment.Valid;
      var lo := SegmentsUpTo(k);
      HeldNowhere(k);
      if lo == 0 { return None; }
      HeldIn(lo - 1, k);
      ghost var inspected;
      r, inspected := segments[lo - 1].Lookup(k);
    }

    lemma HeldNowhere(k: nat)
      ensures segments == [] || k < segments[0].base ==> Held(ViewsOf(segments), k) == None
    {
      hide Held;
      NotHeld(ViewsOf(segments), k);
    }

    lemma HeldIn(i: nat, k: nat)
      requires Readable() && i < |segments| && segments[i].base <= k
      requires i + 1 < |segments| ==> k < segments[i + 1].base
      ensures var s := segments[i];
              && s.Valid() && s.nextOffset == s.base + |s.records|
              && Held(ViewsOf(segments), k) == if k < s.nextOffset then Some(s.records[k - s.base]) else None
    {
      hide Size, EncodeAll, IndexOf, Replay, Start, Storable, Held;
      assert segments[i].Valid();
      HeldBy(ViewsOf(segments), i, k);
    }

    // The binary search over segments: how many start at or before k.
    method SegmentsUpTo(k: nat) returns (lo: nat)
      ensures lo <= |segments|
      ensures lo > 0 ==> segments[lo - 1].base <= k
      ensures lo < |segments| ==> k < segments[lo].base
    {
      var hi := |segments|;
      lo := 0;
      while lo < hi
        invariant 0 <= lo <= hi <= |segments|
        invariant lo > 0 ==> segments[lo - 1].base <= k
        invariant hi < |segments| ==> k < segments[hi].base
      {
        var mid := (lo + hi) / 2;
        if k < segments[mid].base { hi := mid; } else { lo := mid + 1; }
      }
    }

    /** The running log as seen by a crash: the invariant of durability holds,
        the segments together hold the contents, and what was flushed is synced. */
    lemma {:induction false} ViewsOkFrom(i: nat)
      requires SegmentsOk() && i < |segments|
      ensures var base := segments[i].base;
              && ViewsOk(ViewsOf(segments[i..]), maxBytes, base)
              && base <= |contents| && All(ViewsOf(segments[i..])) == contents[base..]
              && Acknowledged(ViewsOf(segments[i..]), if flushed <= base then 0 else flushed - base)
      decreases |segments| - i
    {
      hide EncodeAll, IndexOf, Replay, Storable;
      assert SegmentOk(i);
      var s, n := segments[i], |segments|;
      assert segments[i..][1..] == segments[i + 1..];
      assert s.records[..0] == [];
      if i + 1 < n {
        ViewsOkFrom(i + 1);
      } else {
        assert ViewsOf(segments[i..])[1..] == [];
        assert All(ViewsOf(segments[i..])) == s.records + [];
      }
    }

    /** The log refines the sequence of its payloads: offset k holds the k-th
        payload when k is below the next offset, and nothing otherwise. */
    lemma HoldsContents(k: nat)
      requires Valid()
      ensures Held(ViewsOf(segments), k) == At(contents, k)
      ensures Readable()
    {
      ValidIsReadable();
      ViewsOkFrom(0);
      assert segments[0..] == segments && contents[0..] == contents;
      ViewsHold(ViewsOf(segments), maxBytes, 0, k);
    }

    /** Acknowledged durability: after a crash that keeps synced bytes and
        leaves any others, reopening returns every flushed record at its offset,
        exactly when the payload at offset 0 is not empty. */
    lemma FlushedSurvive(files: seq<File>)
      requires SegmentsOk() && CrashFiles(ViewsOf(segments), maxBytes, files)
      ensures (forall k: nat :: k < flushed ==>
                 ReadAt(Directory(ViewsOf(segments), files), maxBytes, k) == Some(contents[k])) <==>
              flushed == 0 || contents[0] != []
    {
      ViewsOkFrom(0);
      assert segments[0..] == segments && contents[0..] == contents;
      AcknowledgedSurvive(ViewsOf(segments), maxBytes, files, flushed);
    }

    // Segments before the newest stay as they are when only the newest changes.
    twostate lemma OthersKept()
      requires old(SegmentsOk()) && segments == old(segments)
      requires old(contents) <= contents
      requires forall i :: 0 <= i < |segments| - 1 ==> unchanged(segments[i]) && unchanged(segments[i].data)
      ensures forall i :: 0 <= i < |segments| - 1 ==> SegmentOk(i)
      ensures old(Clean()) ==> forall i :: 0 <= i < |segments| - 1 ==> segments[i].ZeroTail()
    {
      hide Size, EncodeAll, IndexOf, Replay, Start, Segment.ZeroTail;
      forall i | 0 <= i < |segments| - 1 ensures SegmentOk(i) {
        assert old(SegmentOk(i));
        assert old(segments[i].Valid());
      }
    }

    // The newest segment, sized and placed.
    lemma ActiveOk()
      requires SegmentsOk()
      ensures segments != [] && SegmentOk(|segments| - 1)
      ensures Active().Valid() && Active().maxBytes == maxBytes && Active().nextOffset == |contents|
    {
    }

    // An append to the newest segment is an append to the log.
    twostate lemma ActiveExtended(payload: Bytes)
      requires old(SegmentsOk()) && segments == old(segments) && flushed == old(flushed)
      requires contents == old(contents) + [payload]
      requires forall i :: 0 <= i < |segments| - 1 ==> unchanged(segments[i]) && unchanged(segments[i].data)
      requires Active().Valid() && Active().data == old(Active().data) && Active().synced == old(Active().synced)
      requires Active().records == old(Active().records) + [payload] && !Active().sealed
      ensures SegmentsOk()
    {
      hide Size, EncodeAll, IndexOf, Replay, Start, Written, Storable, WellFormed, Segment.ZeroTail;
      assert old(SegmentOk(|segments| - 1));
      OthersKept();
      if Active().base < flushed { StartAppend(old(Active().records), payload, flushed - Active().base); }
    }

    // The directory a crash leaves: it can be opened, what it reads as, and
    // that all of it is on stable storage.
    lemma CrashDirectory(files: seq<File>)
      requires SegmentsOk() && CrashFiles(ViewsOf(segments), maxBytes, files)
      ensures var disk := Directory(ViewsOf(segments), files);
              && InOrder(disk) && Durable(disk, maxBytes) == |Recovery.Contents(disk, maxBytes)|
              && ((forall k: nat :: k < flushed ==> ReadAt(disk, maxBytes, k) == Some(contents[k])) <==>
                  flushed == 0 || contents[0] != [])
              && (contents == [] || contents[0] != [] ==>
                    Consistent(disk, maxBytes, 0) && contents[..flushed] <= Recovery.Contents(disk, maxBytes))
    {
      hide ReadAt, Directory, CrashFile, Consistent, Recovery.Contents, SegmentOk, ViewsOk, Acknowledged, Durable;
      var views := ViewsOf(segments);
      FlushedSurvive(files);
      ViewsOkFrom(0);
      assert segments[0..] == segments && contents[0..] == contents;
      CrashBases(views, maxBytes, files);
      DirectoryInOrder(views, files, maxBytes, 0);
      InOrderBases(Directory(views, files));
      AllDurable(Directory(views, files), maxBytes);
      if contents == [] || contents[0] != [] {
        CrashConsistent(views, maxBytes, files, 0, flushed);
      }
    }

    /** Opening a directory, whatever its files hold: every offset reads as the
        last file starting at or before it says.  If the files follow each other
        from offset 0 the log is their contents. */
    constructor Open(disk: seq<File>, maxBytes: nat)
      requires maxBytes > 0
      requires InOrder(disk)
      ensures this.maxBytes == maxBytes && flushCalls == 0 && flushed == Durable(disk, maxBytes)
      ensures forall i :: 0 <= i < |segments| ==> fresh(segments[i]) && fresh(segments[i].data)
      ensures Readable()
      ensures forall k: nat :: Held(ViewsOf(segments), k) == ReadAt(disk, maxBytes, k)
      ensures Consistent(disk, maxBytes, 0) ==> Valid() && contents == Contents(disk, maxBytes)
      ensures (forall f :: f in disk ==> ZeroBehind(f, maxBytes)) ==> Clean()
      ensures segments != []
      ensures Stuck() <==>
              disk != [] && var f := disk[|disk| - 1]; CutToSize(f, maxBytes) && Recovered(f, maxBytes) == []
    {
      hide OpenedFrom, Recovered, Held, ReadAt, Contents, Consistent, ZeroBehind, Durable, ViewsOf;
      hide SegmentsOk, Readable, Valid, Clean, Segment.Valid, Segment.ZeroTail;
      this.maxBytes := maxBytes;
      segments := [];
      nextOffset, flushCalls := 0, 0;
      contents, flushed := Contents(disk, maxBytes), Durable(disk, maxBytes);
      new;
      Recover(disk);
      if segments != [] {
        nextOffset := segments[|segments| - 1].nextOffset;
        RecoveredLog(disk);
      } else {
        var s := new Segment.Open(0, maxBytes, None, 0);
        segments := [s];
        FreshLog(disk);
      }
    }

    lemma RecoveredLog(disk: seq<File>)
      requires maxBytes > 0 && |segments| == |disk| > 0 && Separate() && OpenedAll(disk)
      requires forall i :: 0 <= i < |segments| - 1 ==> segments[i].sealed
      requires InOrder(disk)
      requires contents == Contents(disk, maxBytes) && flushed == Durable(disk, maxBytes)
      requires nextOffset == Active().nextOffset
      ensures Readable()
      ensures forall k: nat :: Held(ViewsOf(segments), k) == ReadAt(disk, maxBytes, k)
      ensures Consistent(disk, maxBytes, 0) ==> Valid()
      ensures (forall f :: f in disk ==> ZeroBehind(f, maxBytes)) ==> Clean()
      ensures Active().records == Recovered(disk[|disk| - 1], maxBytes)
    {
      hide OpenedFrom, SegmentOk, Held, ReadAt, Consistent, Contents, ZeroBehind, Recovered;
      hide Segment.Valid, Segment.ZeroTail;
      forall i | 0 <= i < |disk|
        ensures segments[i].Valid() && segments[i].base == disk[i].base
        ensures segments[i].records == Recovered(disk[i], maxBytes)
        ensures ZeroBehind(disk[i], maxBytes) ==> segments[i].ZeroTail()
        ensures Consistent(disk, maxBytes, 0) ==> SegmentOk(i)
      {
        RecoveredSegment(disk, i);
      }
      forall k: nat { HeldIsReadAt(ViewsOf(segments), disk, maxBytes, k); }
      if Consistent(disk, maxBytes, 0) {
        FirstBase(disk, maxBytes, 0);
        DurableAt(disk, maxBytes, 0);
        LastSegment();
      }
    }

    lemma LastSegment()
      requires segments != [] && SegmentOk(|segments| - 1)
      ensures Active().nextOffset == |contents|
    {
    }

    lemma RecoveredSegment(disk: seq<File>, i: nat)
      requires maxBytes > 0 && |segments| == |disk| && OpenedAll(disk) && i < |disk|
      requires forall i :: 0 <= i < |segments| - 1 ==> segments[i].sealed
      requires contents == Contents(disk, maxBytes) && flushed == Durable(disk, maxBytes)
      ensures segments[i].Valid() && segments[i].base == disk[i].base
      ensures segments[i].records == Recovered(disk[i], maxBytes)
      ensures ZeroBehind(disk[i], maxBytes) ==> segments[i].ZeroTail()
      ensures Consistent(disk, maxBytes, 0) ==> SegmentOk(i)
    {
      hide Size, EncodeAll, IndexOf, Replay, Start, Storable, ZeroBehind, Recovered, Consistent, Contents, Durable;
      hide Segment.ZeroTail;
      assert OpenedFrom(segments[i], disk[i], maxBytes);
      if Consistent(disk, maxBytes, 0) {
        ConsistentAt(disk, maxBytes, 0, i);
        if i + 1 < |segments| {
          assert OpenedFrom(segments[i + 1], disk[i + 1], maxBytes);
        } else {
          DurableFlushed(disk);
        }
      }
    }

    // The durable records of the newest file count as flushed.
    lemma DurableFlushed(disk: seq<File>)
      requires |segments| == |disk| > 0 && OpenedAll(disk) && Consistent(disk, maxBytes, 0)
      requires flushed == Durable(disk, maxBytes)
      ensures FlushedIn(Active())
    {
      hide EncodeAll, IndexOf, Replay, Storable, ZeroBehind, Recovered, Consistent, Segment.ZeroTail, Fitting, Size;
      var s, f := Active(), disk[|disk| - 1];
      assert OpenedFrom(s, f, maxBytes);
      DurableAt(disk, maxBytes, 0);
      var n := Fitting(s.records, f.durable);
      FittingIs(s.records, f.durable, n);
      StartGap(s.records, n, |s.records|);
      StartEnd(s.records);
    }

    lemma FreshLog(disk: seq<File>)
      requires maxBytes > 0 && disk == [] && contents == Contents(disk, maxBytes) && nextOffset == 0
      requires flushed == Durable(disk, maxBytes)
      requires |segments| == 1 && Active().Valid() && Active().base == 0 && Active().maxBytes == maxBytes
      requires Active().data[..] == ZeroBytes(maxBytes) && !Active().sealed
      requires Active().records == Replay(ZeroBytes(maxBytes), 0, 0)
      ensures Readable() && Valid() && Clean()
      ensures forall k: nat :: Held(ViewsOf(segments), k) == ReadAt(disk, maxBytes, k)
    {
      NothingIn(0, maxBytes);
      assert forall i :: 0 <= i < Active().data.Length ==> Active().data[i] == Active().data[..][i];
    }

    // A scan would take nothing behind the records of the newest file for one.
    ghost predicate NothingStray()
      requires segments != []
      reads this`segments, segments, set s | s in segments :: s.data
    {
      var s := Active();
      s.fileSize <= s.data.Length ==> !Accepts(s.FileBytes(), s.writePos, s.nextOffset)
    }

    /** A log, closed and reopened, reads at every offset as before exactly when
        the payload at offset 0 is not empty and nothing behind the records of
        the newest file would be taken for a record.  What was flushed is then
        still known to be durable. */
    lemma CloseAndReopen(files: seq<File>)
      requires SegmentsOk() && ClosedFiles(ViewsOf(segments), files)
      ensures maxBytes > 0 && segments != []
      ensures var disk := Directory(ViewsOf(segments), files);
              && InOrder(disk)
              && ((forall k: nat :: ReadAt(disk, maxBytes, k) == At(contents, k)) <==>
                  (contents == [] || contents[0] != []) && NothingStray())
              && (contents == [] || contents[0] != [] ==>
                    && Consistent(disk, maxBytes, 0) && contents <= Recovery.Contents(disk, maxBytes)
                    && flushed <= Durable(disk, maxBytes)
                    && (NothingStray() ==> Recovery.Contents(disk, maxBytes) == contents))
    {
      hide ReadAt, Directory, Consistent, Recovery.Contents, SegmentOk, ViewsOk, Acknowledged, Durable, Replay;
      var views := ViewsOf(segments);
      ViewsOkFrom(0);
      assert segments[0..] == segments && contents[0..] == contents;
      StrayIff();
      DirectoryInOrder(views, files, maxBytes, 0);
      ClosedReads(views, maxBytes, files);
      if contents == [] || contents[0] != [] {
        ClosedContents(views, maxBytes, files, 0);
        ClosedDurable(views, maxBytes, files, 0, flushed);
        assert contents + [] == contents;
      }
    }

    lemma StrayIff()
      requires SegmentsOk()
      ensures NothingStray() <==> LastStray(ViewsOf(segments)) == []
    {
      hide EncodeAll, IndexOf, Size, Storable;
      ActiveOk();
      ExactIffNoStray(ViewOf(Active()));
    }

    /** That is so for every log that never held stray bytes, and it stays so. */
    lemma CleanReopens(files: seq<File>)
      requires SegmentsOk() && Clean() && ClosedFiles(ViewsOf(segments), files)
      ensures NothingStray()
      ensures contents == [] || contents[0] != [] ==>
                forall f :: f in Directory(ViewsOf(segments), files) ==> ZeroBehind(f, maxBytes)
    {
      hide SegmentOk, ViewsOk, ZeroBehind, Stray, Directory;
      var views := ViewsOf(segments);
      forall i | 0 <= i < |views| ensures ZeroTailed(views[i]) { CleanSegment(i); }
      ViewsOkFrom(0);
      assert segments[0..] == segments && contents[0..] == contents;
      StrayIff();
      ZeroTailedHasNoStray(views[|views| - 1]);
      if contents == [] || contents[0] != [] { ClosedZeroBehind(views, maxBytes, files, 0); }
    }

    lemma CleanSegment(i: nat)
      requires SegmentsOk() && Clean() && i < |segments|
      ensures ZeroTailed(ViewOf(segments[i]))
    {
      hide EncodeAll, IndexOf, Replay, Start, Storable, Size;
      assert SegmentOk(i);
      var s := segments[i];
      assert s.ZeroTail();
      assert forall j :: 0 <= j < s.fileSize ==> s.FileBytes()[j] == s.data[j];
    }

    // `recover_existing_segments`: open every file in order, and seal all but
    // the last.
    method Recover(disk: seq<File>)
      requires segments == [] && maxBytes > 0
      requires forall i :: 0 <= i < |disk| ==> disk[i].base <= MAX_OFFSET
      modifies this`segments
      ensures |segments| == |disk| && Separate() && OpenedAll(disk)
      ensures forall i :: 0 <= i < |segments| - 1 ==> segments[i].sealed
      ensures forall i :: 0 <= i < |segments| ==> fresh(segments[i]) && fresh(segments[i].data)
      ensures segments != [] ==> (Active().sealed <==> CutToSize(disk[|disk| - 1], maxBytes)) && Active().fileSize > 0
    {
      hide OpenedFrom;
      for n := 0 to |disk|
        invariant |segments| == n && Separate() && OpenedAll(disk)
        invariant forall i :: 0 <= i < |segments| ==> fresh(segments[i]) && fresh(segments[i].data)
        invariant n > 0 ==> (Active().sealed <==> CutToSize(disk[n - 1], maxBytes)) && Active().fileSize > 0
      {
        var s := OpenSegment(disk[n], maxBytes);
        segments := segments + [s];
      }
      ghost var listed := segments;
      var n := 0;
      while n + 1 < |segments|
        invariant segments == listed && n <= |segments| && Separate() && OpenedAll(disk)
        invariant forall i :: 0 <= i < n ==> segments[i].sealed
        invariant forall i :: 0 <= i < |segments| ==> fresh(segments[i]) && fresh(segments[i].data)
        invariant segments != [] ==> n < |segments|
        invariant segments != [] ==>
                    (Active().sealed <==> CutToSize(disk[|disk| - 1], maxBytes)) && Active().fileSize > 0
      {
        SealOpened(segments[n], disk[n], maxBytes);
        n := n + 1;
      }
    }

    ghost predicate OpenedAll(disk: seq<File>)
      reads this`segments, segments, set s | s in segments :: s.data
    {
      |segments| <= |disk| && forall i :: 0 <= i < |segments| ==> OpenedFrom(segments[i], disk[i], maxBytes)
    }

    // Tries the newest segment.
    method AppendToActive(payload: Bytes) returns (r: Option<nat>)
      requires SegmentsOk() && WellFormed(payload) && |contents| < MAX_OFFSET
      modifies this`contents, Active(), Active().data
      ensures SegmentsOk() && Active().data == old(Active().data)
      ensures old(Clean()) ==> Clean()
      ensures r == if old(Active().sealed || Active().writePos + HEADER + |payload| > Active().data.Length)
                   then None else Some(old(|contents|))
      ensures contents == if r == None then old(contents) else old(contents) + [payload]
      ensures Active().sealed == old(Active().sealed) && Stuck() == old(Stuck())
    {
      hide SegmentOk, Segment.Valid, Written, Segment.ZeroTail;
      ActiveOk();
      r := segments[|segments| - 1].Append(payload);
      if r != None {
        contents := contents + [payload];
        ActiveExtended(payload);
      }
    }

    // Seals the newest segment: all its bytes are synced before it is cut.
    method SealActive()
      requires SegmentsOk()
      modifies Active()
      ensures SegmentsOk() && Active().sealed && Stuck() == old(Stuck())
      ensures old(Clean()) ==> Clean()
      ensures Active().data == old(Active().data) || fresh(Active().data)
    {
      hide Size, EncodeAll, IndexOf, Replay, Start, Encode;
      ghost var last := |segments| - 1;
      assert SegmentOk(last);
      segments[|segments| - 1].Seal();
      SizeOfNone();
      if Active().base < flushed {
        StartGap(Active().records, flushed - Active().base, |Active().records|);
        StartEnd(Active().records);
      }
      OthersKept();
    }

    // `roll_new_segment`: open the file named by `base`.  It exists only if
    // the newest segment has the same base.
    method RollNewSegment(base: nat)
      requires SegmentsOk() && base == |contents| <= MAX_OFFSET && Active().sealed
      modifies this`segments
      ensures SegmentsOk() && contents == old(contents)
      ensures old(Clean()) ==> Clean()
      ensures |segments| == |old(segments)| + 1 && segments[..|old(segments)|] == old(segments)
      ensures fresh(Active()) && fresh(Active().data)
      ensures Active().sealed == Stuck() == old(Stuck()) && Active().writePos == 0
      ensures !Stuck() ==> Active().data.Length == maxBytes
    {
      hide SegmentOk, Segment.Valid, Replay, Size;
      ActiveOk();
      LastFileOk();
      var last := segments[|segments| - 1];
      var file := if last.base == base then Some(last.data[..last.fileSize]) else None;
      var s := new Segment.Open(base, maxBytes, file, 0);
      NothingIn(base, maxBytes);
      segments := segments + [s];
      Rolled(s);
      assert forall i :: 0 <= i < s.data.Length ==> s.data[i] == Mapped(file, maxBytes)[i];
    }

    // What reopening the newest segment's file finds.
    lemma LastFileOk()
      requires SegmentsOk() && Active().sealed
      ensures var s := Active();
              && (s.records == [] ==> s.writePos == 0)
              && s.fileSize <= s.data.Length && s.fileSize <= maxBytes
              && (s.base == |contents| <==> s.records == [])
              && (s.records == [] ==> s.fileSize < maxBytes)
              && (Stuck() ==> Replay(s.data[..s.fileSize], 0, s.base) == [])
    {
      hide EncodeAll, Size, IndexOf, Replay, Start, Storable;
      ActiveOk();
      SizeOfNone();
      NothingAccepted(Active().data[..Active().fileSize], Active().base);
    }

    // A new empty segment behind a sealed one.
    twostate lemma Rolled(new s: Segment)
      requires old(SegmentsOk()) && old(Active().sealed) && contents == old(contents) && flushed == old(flushed)
      requires segments == old(segments) + [s] && fresh(s) && fresh(s.data)
      requires forall i :: 0 <= i < |segments| - 1 ==> unchanged(old(segments)[i]) && unchanged(old(segments)[i].data)
      requires s.Valid() && s.maxBytes == maxBytes && s.base == |contents| && s.records == []
      ensures SegmentsOk() && s.writePos == 0
    {
      hide EncodeAll, Size, IndexOf, Replay, Start, Storable, Segment.ZeroTail;
      SizeOfNone();
      forall i | 0 <= i < |segments| ensures SegmentOk(i) {
        if i < |old(segments)| { assert old(SegmentOk(i)); }
      }
    }

    // Append, sealing and rolling once if the record does not fit.  A record
    // is stored exactly when it fits an empty segment and the log is not stuck.
    method AppendRecord(payload: Bytes) returns (r: Option<nat>)
      requires SegmentsOk() && WellFormed(payload) && |contents| < MAX_OFFSET
      modifies this`segments, this`contents, Active(), Active().data
      ensures SegmentsOk() && Stuck() == old(Stuck()) && (old(Clean()) ==> Clean())
      ensures r == if Fits(payload, maxBytes) && !old(Stuck()) then Some(old(|contents|)) else None
      ensures contents == if r == None then old(contents) else old(contents) + [payload]
      ensures Active() == old(Active()) || fresh(Active())
      ensures Active().data == old(Active().data) || fresh(Active().data)
    {
      assert SegmentOk(|segments| - 1);
      r := AppendToActive(payload);
      if r != None { return; }
      SealActive();
      assert SegmentOk(|segments| - 1);
      RollNewSegment(segments[|segments| - 1].nextOffset);
      r := AppendToActive(payload);
    }

    /** A rejected append changes no record and no offset. */
    method Append(payload: Bytes) returns (r: AppendResult)
      requires Valid() && WellFormed(payload) && |contents| < MAX_OFFSET
      modifies this`segments, this`contents, this`nextOffset, Active(), Active().data
      ensures Valid() && Stuck() == old(Stuck()) && (old(Clean()) ==> Clean())
      ensures r == if Fits(payload, maxBytes) && !old(Stuck()) then Appended(old(nextOffset)) else TooLarge
      ensures contents == if r == TooLarge then old(contents) else old(contents) + [payload]
      ensures Active() == old(Active()) || fresh(Active())
      ensures Active().data == old(Active().data) || fresh(Active().data)
    {
      var offset := AppendRecord(payload);
      if offset == None { return TooLarge; }
      nextOffset := offset.value + 1;
      return Appended(offset.value);
    }

    // `flush`: every byte written so far is on stable storage.
    method Flush()
      requires Valid()
      modifies this`flushCalls, this`flushed, Active()`synced
      ensures Valid() && Synced() && flushed == |contents| && flushCalls == old(flushCalls) + 1
      ensures Stuck() == old(Stuck()) && (old(Clean()) ==> Clean())
    {
      hide SegmentOk, Segment.Valid, Segment.ZeroTail, Written;
      ActiveOk();
      segments[|segments| - 1].Flush();
      flushCalls := flushCalls + 1;
      flushed := |contents|;
      ActiveFlushed();
    }

    // Syncing the newest segment makes the whole log durable.
    twostate lemma ActiveFlushed()
      requires old(SegmentsOk()) && segments == old(segments) && contents == old(contents) && flushed == |contents|
      requires forall i :: 0 <= i < |segments| - 1 ==> unchanged(segments[i]) && unchanged(segments[i].data)
      requires Active().Valid() && Active().data == old(Active().data) && Active().records == old(Active().records)
      requires Active().synced == Active().writePos
      ensures SegmentsOk() && Synced()
    {
      hide Size, EncodeAll, IndexOf, Replay, Start, Written, Storable, WellFormed, Segment.ZeroTail;
      assert old(SegmentOk(|segments| - 1));
      OthersKept();
      StartEnd(Active().records);
      forall i | 0 <= i < |segments| ensures segments[i].synced == segments[i].writePos {
        if i < |segments| - 1 { assert SegmentOk(i); }
      }
    }

    /** A batch is rejected before anything is written if some record can never
        fit; otherwise it is stored whole, consecutively, across as many rolls
        as it takes, and synced by one flush if asked. */
    method AppendBatch(payloads: seq<Bytes>, flushAfter: bool) returns (r: BatchResult)
      requires Valid() && |contents| + |payloads| < MAX_OFFSET
      modifies this, Active(), Active().data
      ensures Valid() && Stuck() == old(Stuck()) && (old(Clean()) ==> Clean())
      ensures r == if exists p :: p in payloads && !(WellFormed(p) && Fits(p, maxBytes)) then LengthError
                   else if payloads != [] && old(Stuck()) then BatchFailed
                   else BatchAppended(old(nextOffset))
      ensures contents == if r.BatchAppended? then old(contents) + payloads else old(contents)
      ensures r.BatchAppended? && payloads != [] && flushAfter ==> Synced() && flushed == |contents|
      ensures !(r.BatchAppended? && payloads != [] && flushAfter) ==> flushed == old(flushed)
      ensures flushCalls == old(flushCalls) + if r.BatchAppended? && payloads != [] && flushAfter then 1 else 0
    {
      hide SegmentsOk, Clean, Stuck, Segment.Valid, SegmentOk, Fits, WellFormed;
      var fit := AllFit(payloads);
      if !fit { return LengthError; }
      ActiveOk();
      var first := segments[|segments| - 1].nextOffset;
      if payloads == [] { return BatchAppended(first); }
      var stored := AppendAll(payloads);
      ActiveOk();
      nextOffset := segments[|segments| - 1].nextOffset;
      if !stored { return BatchFailed; }
      if flushAfter { Flush(); }
      return BatchAppended(first);
    }

    method AllFit(payloads: seq<Bytes>) returns (fit: bool)
      ensures fit <==> forall j :: 0 <= j < |payloads| ==> WellFormed(payloads[j]) && Fits(payloads[j], maxBytes)
    {
      for i := 0 to |payloads|
        invariant forall j :: 0 <= j < i ==> WellFormed(payloads[j]) && Fits(payloads[j], maxBytes)
      {
        if |payloads[i]| >= MAX_LEN || HEADER + |payloads[i]| > maxBytes { return false; }
      }
      return true;
    }

    // The loop of `append_batch`, up to the first record that is refused.
    method AppendAll(payloads: seq<Bytes>) returns (stored: bool)
      requires SegmentsOk() && |contents| + |payloads| < MAX_OFFSET && payloads != []
      requires forall j :: 0 <= j < |payloads| ==> WellFormed(payloads[j]) && Fits(payloads[j], maxBytes)
      modifies this`segments, this`contents, Active(), Active().data
      ensures SegmentsOk() && Stuck() == old(Stuck()) && (old(Clean()) ==> Clean())
      ensures stored == !old(Stuck())
      ensures contents == if stored then old(contents) + payloads else old(contents)
      ensures Active() == old(Active()) || fresh(Active())
      ensures Active().data == old(Active().data) || fresh(Active().data)
    {
      hide SegmentOk, Separate;
      var i := 0;
      while i < |payloads|
        invariant 0 <= i <= |payloads|
        invariant SegmentsOk() && Stuck() == old(Stuck()) && (old(Clean()) ==> Clean())
        invariant contents == old(contents) + payloads[..i] && (i > 0 ==> !Stuck())
        invariant Active() == old(Active()) || fresh(Active())
        invariant Active().data == old(Active().data) || fresh(Active().data)
      {
        var offset := AppendRecord(payloads[i]);
        if offset == None { return false; }
        i := i + 1;
      }
      return true;
    }

    static lemma NothingIn(base: nat, n: nat)
      requires base <= MAX_OFFSET
      ensures Replay(ZeroBytes(n), 0, base) == []
      ensures Size([]) == 0
    {
      CleanReplay(base, [], n);
      assert EncodeAll(base, []) + ZeroBytes(n) == ZeroBytes(n);
    }
  }

  /** Reopening after a crash: from any bytes a crash may leave, at any moment,
      the log opens and returns every flushed record at its offset, exactly when
      the payload at offset 0 is not empty.  If it never was, the log is valid
      again, its contents start with everything flushed, and all of them count as
      flushed: so the next crash cannot lose them either. */
  method OpenAfterCrash(crashed: Log, ghost files: seq<File>, disk: seq<File>) returns (reopened: Log)
    requires crashed.SegmentsOk() && CrashFiles(ViewsOf(crashed.segments), crashed.maxBytes, files)
    requires disk == Directory(ViewsOf(crashed.segments), files)
    ensures fresh(reopened) && reopened.Readable()
    ensures (forall k: nat :: k < crashed.flushed ==>
               Held(ViewsOf(reopened.segments), k) == Some(crashed.contents[k])) <==>
            crashed.flushed == 0 || crashed.contents[0] != []
    ensures crashed.contents == [] || crashed.contents[0] != [] ==>
              && reopened.Valid() && crashed.contents[..crashed.flushed] <= reopened.contents
              && reopened.flushed == |reopened.contents|
  {
    hide Log.Valid, Held, ReadAt, Directory, CrashFiles, Durable;
    crashed.CrashDirectory(files);
    reopened := new Log.Open(disk, crashed.maxBytes);
  }

  /** Reopening after a close, whatever lies behind the records: every offset
      reads as before exactly when the payload at offset 0 is not empty and
      nothing stray lies behind the records of the newest segment.  Flushed
      records stay flushed, and a clean log stays clean. */
  method OpenAfterClose(closed: Log, disk: seq<File>, ghost files: seq<File>) returns (reopened: Log)
    requires closed.SegmentsOk() && ClosedFiles(ViewsOf(closed.segments), files)
    requires disk == Directory(ViewsOf(closed.segments), files)
    ensures fresh(reopened) && reopened.Readable() && closed.segments != []
    ensures (forall k: nat :: Held(ViewsOf(reopened.segments), k) == At(closed.contents, k)) <==>
            (closed.contents == [] || closed.contents[0] != []) && closed.NothingStray()
    ensures closed.contents == [] || closed.contents[0] != [] ==>
              && reopened.Valid() && closed.contents <= reopened.contents && closed.flushed <= reopened.flushed
              && (closed.NothingStray() ==> reopened.contents == closed.contents)
              && (closed.Clean() ==> reopened.Clean() && closed.NothingStray())
  {
    hide Log.Valid, Log.SegmentsOk, Log.Clean, Held, ReadAt, Directory, ZeroBehind, Log.NothingStray, Durable;
    hide Log.Readable, Log.Stuck, ClosedFiles, Recovery.Contents, Consistent;
    closed.CloseAndReopen(files);
    if closed.Clean() { closed.CleanReopens(files); }
    reopened := new Log.Open(disk, closed.maxBytes);
    SameReads(ViewsOf(reopened.segments), disk, closed.maxBytes, closed.contents);
  }

  lemma SameReads(views: seq<View>, disk: seq<File>, maxBytes: nat, contents: seq<Bytes>)
    requires forall k: nat :: Held(views, k) == ReadAt(disk, maxBytes, k)
    ensures (forall k: nat :: Held(views, k) == At(contents, k)) <==>
            (forall k: nat :: ReadAt(disk, maxBytes, k) == At(contents, k))
  {
    hide Held, ReadAt, At;
    if forall k: nat :: Held(views, k) == At(contents, k) {
      forall k: nat ensures ReadAt(disk, maxBytes, k) == At(contents, k) { assert Held(views, k) == At(contents, k); }
    }
  }

  lemma InOrderBases(disk: seq<File>)
    requires InOrder(disk)
    ensures forall f :: f in disk ==> f.base <= MAX_OFFSET
  {
  }

  /** Such a directory exists for every segment size: the file of a sealed
      segment whose only record is an empty payload at offset 0.  The log opens
      valid, empty and unable to append. */
  method OpenStuck(maxBytes: nat) returns (log: Log)
    requires maxBytes > HEADER
    ensures log.Valid() && log.contents == [] && log.Stuck()
  {
    hide Log.Valid, Log.Stuck, EncodeAll;
    var f := File(0, EncodeAll(0, [[]]), HEADER);
    NothingRecovered(f, maxBytes);
    log := new Log.Open([f], maxBytes);
  }

  lemma NothingRecovered(f: File, maxBytes: nat)
    requires f == File(0, EncodeAll(0, [[]]), HEADER) && maxBytes > HEADER
    ensures CutToSize(f, maxBytes) && Recovered(f, maxBytes) == [] && InOrder([f])
    ensures Consistent([f], maxBytes, 0) && Contents([f], maxBytes) == []
  {
    hide Encode, EncodeAll, Replay;
    var records: seq<Bytes> := [[]];
    EncodeAllSize(0, records);
    assert Size(records) == HEADER + Size([]);
    RecoversPrefix(0, records, []);
    assert f.bytes + [] == f.bytes;
  }
}
