/** The persistent log over whole runs: its files always spell out its records, a crash
    loses nothing but the torn tail, and compaction only drops what it may. */
module WalTheorems {
  import opened Types
  import opened Ordering
  import opened WalModel
  import opened WalFileModel
  import opened LocalWalModel
  import opened PersistentWalModel

  // ----- The files spell out the segments -----

  /** The id column of a list of segments. */
  function Ids(segments: seq<Segment>): (ids: seq<nat>)
    ensures |ids| == |segments|
    ensures forall i :: 0 <= i < |ids| ==> ids[i] == segments[i].segmentId
  {
    seq(|segments|, i requires 0 <= i < |segments| => segments[i].segmentId)
  }

  /** A segment as reading its records back would make it. */
  ghost predicate Described(h: Hash, s: Segment) {
    s == SegmentWith(s.segmentId, s.records, s.isSealed) && AllValid(h, s.records)
  }

  /** The segment ids ascend and are the file names. */
  ghost predicate WellShaped(w: PersistentWal) {
    && w.segments != [] && Ascending(Ids(w.segments))
    && w.nextSegmentId == ActiveId(w) + 1
    && (forall id :: id in w.files <==> id in Ids(w.segments))
  }

  /** The file of a segment holds exactly its records; all but the last are sealed. */
  ghost predicate InSync(c: Codec, h: Hash, w: PersistentWal, i: nat)
    requires i < |w.segments|
  {
    var s := w.segments[i];
    && Described(h, s) && s.isSealed == (i != |w.segments| - 1)
    && s.segmentId in w.files && w.files[s.segmentId] == EncodeAll(c, s.records)
  }

  ghost predicate Synced(c: Codec, h: Hash, w: PersistentWal) {
    WellShaped(w) && forall i: nat :: i < |w.segments| ==> InSync(c, h, w, i)
  }

  lemma IdsDiffer(segments: seq<Segment>, i: nat, j: nat)
    requires Ascending(Ids(segments)) && i < |segments| && j < |segments|
    ensures segments[i].segmentId == segments[j].segmentId ==> i == j
  {
  }

  lemma {:induction false} EncodeAllAppend(c: Codec, rs: seq<WalRecord>, r: WalRecord)
    ensures EncodeAll(c, rs + [r]) == EncodeAll(c, rs) + EncodeLine(c, r)
  {
    if rs == [] {
      assert rs + [r] == [r] && EncodeAll(c, [r]) == EncodeLine(c, r) + EncodeAll(c, []);
    } else {
      assert (rs + [r])[1..] == rs[1..] + [r];
      EncodeAllAppend(c, rs[1..], r);
      ConcatAssociative(EncodeLine(c, rs[0]), EncodeAll(c, rs[1..]), EncodeLine(c, r));
    }
  }

  lemma FiledIsDescribed(h: Hash, s: Segment, r: WalRecord)
    requires Described(h, s) && ChecksumValid(h, r)
    ensures var f := Filed(s, r);
            && Described(h, f) && f.segmentId == s.segmentId && f.isSealed == s.isSealed
            && f.records == s.records + [r]
  {
  }

  lemma IdsOfUpdate(segments: seq<Segment>, i: nat, s: Segment)
    requires i < |segments| && s.segmentId == segments[i].segmentId
    ensures Ids(segments[i := s]) == Ids(segments)
  {
  }

  lemma WriteKeepsSynced(c: Codec, h: Hash, w: PersistentWal, r: WalRecord)
    requires Synced(c, h, w) && ChecksumValid(h, r) && ActiveId(w) in w.files
    ensures Synced(c, h, WriteRecord(c, w, r))
  {
    var v := WriteRecord(c, w, r);
    var n := |w.segments| - 1;
    var s := w.segments[n];
    assert InSync(c, h, w, n);
    FiledIsDescribed(h, s, r);
    IdsOfUpdate(w.segments, n, Filed(s, r));
    EncodeAllAppend(c, s.records, r);
    hide EncodeAll, EncodeLine, Filed, Described;
    forall i: nat | i < |v.segments| ensures InSync(c, h, v, i) {
      assert InSync(c, h, w, i);
      IdsDiffer(w.segments, i, n);
    }
  }

  lemma RollKeepsShape(c: Codec, w: PersistentWal)
    requires WellShaped(w)
    ensures WellShaped(Roll(c, w))
  {
    var ids, more := Ids(w.segments), Ids(Roll(c, w).segments);
    var n := |ids| - 1;
    hide EncodeAll;
    assert more == ids + [w.nextSegmentId];
    forall i | 0 <= i < n ensures ids[i] < ids[n] {
    }
    assert ids[n] in ids;
  }

  lemma RollKeepsSynced(c: Codec, h: Hash, w: PersistentWal)
    requires Synced(c, h, w)
    ensures Synced(c, h, Roll(c, w))
  {
    RollKeepsShape(c, w);
    var v := Roll(c, w);
    var n := |w.segments| - 1;
    assert EncodeAll(c, []) == [] && Described(h, EmptySegment(w.nextSegmentId));
    hide EncodeAll, Described;
    forall i: nat | i < |v.segments| ensures InSync(c, h, v, i) {
      if i <= n {
        assert InSync(c, h, w, i);
        IdsDiffer(w.segments, i, n);
        DescribedWhenSealed(h, w.segments[i]);
        assert Ids(w.segments)[i] <= Ids(w.segments)[n];
      }
    }
  }

  lemma DescribedWhenSealed(h: Hash, s: Segment)
    requires Described(h, s)
    ensures Described(h, s.(isSealed := true))
  {
  }

  lemma AppendKeepsSynced(c: Codec, h: Hash, w: PersistentWal, r: WalRecord)
    requires Synced(c, h, w)
    ensures ActiveId(w) in w.files && Synced(c, h, AppendRecord(c, h, w, r))
    ensures Records(AppendRecord(c, h, w, r).segments) == Records(w.segments) + [Sealed(h, r)]
  {
    var ids := Ids(w.segments);
    assert ids[|ids| - 1] in ids;
    var s := Sealed(h, r);
    var v := w;
    if MustRoll(c, w, s) {
      v := Roll(c, w);
      RollKeepsSynced(c, h, w);
      RollKeepsRecords(c, w);
      assert ActiveId(v) in v.files;
    }
    WriteKeepsSynced(c, h, v, s);
    WriteAddsRecord(c, v, s);
  }

  lemma RollKeepsRecords(c: Codec, w: PersistentWal)
    requires w.segments != []
    ensures Records(Roll(c, w).segments) == Records(w.segments)
  {
    hide Records;
    var sealedLast := Last(w.segments).(isSealed := true);
    ReplaceLastRecords(w.segments, sealedLast);
    RecordsOfLast(w.segments);
    RecordsAppend(w.segments[|w.segments| - 1 := sealedLast], [EmptySegment(w.nextSegmentId)]);
    EmptyHasNoRecords(w.nextSegmentId);
  }

  lemma WriteAddsRecord(c: Codec, w: PersistentWal, r: WalRecord)
    requires w.segments != [] && ActiveId(w) in w.files
    ensures Records(WriteRecord(c, w, r).segments) == Records(w.segments) + [r]
  {
    hide Records;
    RecordsOfLast(w.segments);
    ReplaceLastRecords(w.segments, Filed(Last(w.segments), r));
    ConcatAssociative(Records(w.segments[..|w.segments| - 1]), Last(w.segments).records, [r]);
  }

  // ----- Reopening after a crash -----

  lemma AscendingUnique(a: seq<nat>, b: seq<nat>)
    requires Ascending(a) && Ascending(b) && forall x :: x in a <==> x in b
    ensures a == b
    decreases |a|
  {
    if a != [] {
      assert a[0] in a;
    }
    if b != [] {
      assert b[0] in b;
    }
    if a != [] && b != [] {
      assert a[0] == b[0];
      forall x ensures x in a[1..] <==> x in b[1..] {
        assert x in a[1..] <==> x in a && x != a[0];
        assert x in b[1..] <==> x in b && x != b[0];
      }
      AscendingUnique(a[1..], b[1..]);
      assert a == [a[0]] + a[1..] && b == [b[0]] + b[1..];
    }
  }

  /** The directory after a crash: the active file may have torn bytes at its end. */
  function Crashed(w: PersistentWal, tail: Bytes): map<nat, Bytes>
    requires w.segments != [] && ActiveId(w) in w.files
  {
    w.files[ActiveId(w) := w.files[ActiveId(w)] + tail]
  }

  /** The bytes a crash adds to the file of segment i. */
  function TailOf(w: PersistentWal, tail: Bytes, i: nat): Bytes {
    if i == |w.segments| - 1 then tail else []
  }

  lemma CrashedFile(c: Codec, h: Hash, w: PersistentWal, tail: Bytes, i: nat)
    requires Lawful(c) && Synced(c, h, w) && ActiveId(w) in w.files && i < |w.segments|
    requires tail == [] || CorruptTail(c, h, tail)
    ensures var s, file := w.segments[i], Crashed(w, tail);
            && s.segmentId in file
            && Read(c, h, file[s.segmentId]).records == s.records
            && Truncate(c, h, file[s.segmentId]) == w.files[s.segmentId]
            && (Read(c, h, file[s.segmentId]).truncated <==> TailOf(w, tail, i) != [])
  {
    var s := w.segments[i];
    assert InSync(c, h, w, i);
    IdsDiffer(w.segments, i, |w.segments| - 1);
    assert Crashed(w, tail)[s.segmentId] == EncodeAll(c, s.records) + TailOf(w, tail, i);
    FileRoundTrip(c, h, s.records, TailOf(w, tail, i));
  }

  lemma CrashedIds(c: Codec, h: Hash, w: PersistentWal, tail: Bytes)
    requires Synced(c, h, w) && ActiveId(w) in w.files
    ensures SortedKeys(Crashed(w, tail).Keys) == Ids(w.segments)
  {
    var ids := Ids(w.segments);
    assert ActiveId(w) == ids[|ids| - 1];
    forall x ensures x in SortedKeys(Crashed(w, tail).Keys) <==> x in ids {
      assert x in Crashed(w, tail).Keys <==> x in w.files;
    }
    AscendingUnique(SortedKeys(Crashed(w, tail).Keys), ids);
  }

  /** Main result: reopening the directory after a crash, whatever torn bytes follow the last
      complete record, restores the segments and the files exactly and says whether
      anything was cut. */
  lemma ReopenAfterCrash(c: Codec, h: Hash, w: PersistentWal, tail: Bytes)
    requires Lawful(c) && Synced(c, h, w) && ActiveId(w) in w.files
    requires tail == [] || CorruptTail(c, h, tail)
    ensures Open(c, h, w.options, Crashed(w, tail)) == w.(released := 0, truncatedSeen := tail != [])
  {
    var files := Crashed(w, tail);
    SegmentsRestored(c, h, w, tail);
    FilesRestored(c, h, w, tail);
    hide SegmentsIn, TruncatedFiles, AnyTruncated;
  }

  lemma SegmentsRestored(c: Codec, h: Hash, w: PersistentWal, tail: Bytes)
    requires Lawful(c) && Synced(c, h, w) && ActiveId(w) in w.files
    requires tail == [] || CorruptTail(c, h, tail)
    ensures SegmentsIn(c, h, Crashed(w, tail)) == w.segments
  {
    var files := Crashed(w, tail);
    CrashedIds(c, h, w, tail);
    var ids := Ids(w.segments);
    hide Read, Truncate, EncodeAll, SortedKeys, CorruptTail, Crashed;
    forall i: nat | i < |ids| ensures SegmentOf(c, h, ids[i], files[ids[i]], i != |ids| - 1) == w.segments[i] {
      CrashedFile(c, h, w, tail, i);
      assert InSync(c, h, w, i);
    }
  }

  lemma CrashedFileOf(c: Codec, h: Hash, w: PersistentWal, tail: Bytes, id: nat)
    requires Lawful(c) && Synced(c, h, w) && ActiveId(w) in w.files && id in w.files
    requires tail == [] || CorruptTail(c, h, tail)
    ensures var files := Crashed(w, tail);
            && Truncate(c, h, files[id]) == w.files[id]
            && (Read(c, h, files[id]).truncated <==> id == ActiveId(w) && tail != [])
  {
    hide Read, Truncate, EncodeAll, CorruptTail, Crashed;
    var ids := Ids(w.segments);
    var i: nat :| i < |ids| && ids[i] == id;
    CrashedFile(c, h, w, tail, i);
    IdsDiffer(w.segments, i, |w.segments| - 1);
  }

  lemma FilesRestored(c: Codec, h: Hash, w: PersistentWal, tail: Bytes)
    requires Lawful(c) && Synced(c, h, w) && ActiveId(w) in w.files
    requires tail == [] || CorruptTail(c, h, tail)
    ensures TruncatedFiles(c, h, Crashed(w, tail)) == w.files
    ensures AnyTruncated(c, h, Crashed(w, tail)) <==> tail != []
  {
    var files := Crashed(w, tail);
    hide Read, Truncate, CorruptTail, Synced;
    forall id | id in files
      ensures id in w.files && Truncate(c, h, files[id]) == w.files[id]
      ensures Read(c, h, files[id]).truncated <==> id == ActiveId(w) && tail != []
    {
      CrashedFileOf(c, h, w, tail, id);
    }
    assert ActiveId(w) in files;
  }

  // ----- Reopening after any crash of a write -----

  lemma FileWithTail(c: Codec, h: Hash, w: PersistentWal, tail: Bytes, i: nat)
    requires Lawful(c) && Synced(c, h, w) && ActiveId(w) in w.files && i < |w.segments|
    ensures var id, files := w.segments[i].segmentId, Crashed(w, tail);
            id in files && Read(c, h, files[id]).records == w.segments[i].records + Read(c, h, TailOf(w, tail, i)).records
  {
    var s := w.segments[i];
    assert InSync(c, h, w, i);
    IdsDiffer(w.segments, i, |w.segments| - 1);
    assert Crashed(w, tail)[s.segmentId] == EncodeAll(c, s.records) + TailOf(w, tail, i);
    ReadAfterRecords(c, h, s.records, TailOf(w, tail, i));
  }

  lemma SegmentWithTail(c: Codec, h: Hash, w: PersistentWal, tail: Bytes, i: nat)
    requires Lawful(c) && Synced(c, h, w) && ActiveId(w) in w.files && i < |w.segments|
    ensures var found := SegmentsIn(c, h, Crashed(w, tail));
            && |found| == |w.segments|
            && found[i].records == w.segments[i].records + Read(c, h, TailOf(w, tail, i)).records
            && (i < |w.segments| - 1 ==> found[i] == w.segments[i])
  {
    CrashedIds(c, h, w, tail);
    FileWithTail(c, h, w, tail, i);
    assert InSync(c, h, w, i) && w.segments[i].records + [] == w.segments[i].records;
    assert Read(c, h, []).records == [];
    hide Read, EncodeAll, SortedKeys, Crashed;
    assert Ids(w.segments)[i] == w.segments[i].segmentId;
  }

  lemma SegmentsWithTail(c: Codec, h: Hash, w: PersistentWal, tail: Bytes)
    requires Lawful(c) && Synced(c, h, w) && ActiveId(w) in w.files
    ensures var found, n := SegmentsIn(c, h, Crashed(w, tail)), |w.segments| - 1;
            && |found| == |w.segments| && found[..n] == w.segments[..n]
            && found[n].records == w.segments[n].records + Read(c, h, tail).records
  {
    var n := |w.segments| - 1;
    var found := SegmentsIn(c, h, Crashed(w, tail));
    assert TailOf(w, tail, n) == tail;
    hide *;
    SegmentWithTail(c, h, w, tail, n);
    forall i: nat | i < n ensures found[i] == w.segments[i] {
      SegmentWithTail(c, h, w, tail, i);
    }
  }

  /** Main result: whatever bytes a crash leaves after the active file, reopening finds the
      records that were there and then those that the bytes hold. */
  lemma ReopenWithAnyTail(c: Codec, h: Hash, w: PersistentWal, tail: Bytes)
    requires Lawful(c) && Synced(c, h, w) && ActiveId(w) in w.files
    ensures Records(Open(c, h, w.options, Crashed(w, tail)).segments) == Records(w.segments) + Read(c, h, tail).records
  {
    SegmentsWithTail(c, h, w, tail);
    var found, n := SegmentsIn(c, h, Crashed(w, tail)), |w.segments| - 1;
    assert Open(c, h, w.options, Crashed(w, tail)).segments == found;
    hide Records, SegmentsIn, Read, Synced, Open;
    RecordsOfLast(found);
    RecordsOfLast(w.segments);
    ConcatAssociative(Records(w.segments[..n]), w.segments[n].records, Read(c, h, tail).records);
  }

  /** The log an append writes its line to. */
  function Ready(c: Codec, h: Hash, w: PersistentWal, r: WalRecord): PersistentWal
    requires w.segments != [] && ActiveId(w) in w.files
  {
    if MustRoll(c, w, Sealed(h, r)) then Roll(c, w) else w
  }

  lemma ReadyIsSynced(c: Codec, h: Hash, w: PersistentWal, r: WalRecord)
    requires Synced(c, h, w) && ActiveId(w) in w.files
    ensures var v := Ready(c, h, w, r);
            && Synced(c, h, v) && ActiveId(v) in v.files && v.options == w.options
            && Records(v.segments) == Records(w.segments)
  {
    if MustRoll(c, w, Sealed(h, r)) {
      RollKeepsSynced(c, h, w);
      RollKeepsRecords(c, w);
      SyncedHasActiveFile(c, h, Roll(c, w));
    }
    hide Records, Synced, EncodeAll;
  }

  /** The directory when a crash stops an append after n bytes of its line. */
  function CrashedInAppend(c: Codec, h: Hash, w: PersistentWal, r: WalRecord, n: nat): map<nat, Bytes>
    requires Synced(c, h, w) && ActiveId(w) in w.files && n <= |EncodeLine(c, Sealed(h, r))|
  {
    ReadyIsSynced(c, h, w, r);
    Crashed(Ready(c, h, w, r), EncodeLine(c, Sealed(h, r))[..n])
  }

  /** Main result: a crash at any byte of an append loses no record that was there, and the new
      record is found exactly when it was written but for its newline at most. */
  lemma CrashInAppendKeepsRecords(c: Codec, h: Hash, w: PersistentWal, r: WalRecord, n: nat)
    requires Lawful(c) && Delimited(c) && Synced(c, h, w) && ActiveId(w) in w.files
    requires n <= |EncodeLine(c, Sealed(h, r))|
    ensures Records(Open(c, h, w.options, CrashedInAppend(c, h, w, r, n)).segments)
            == Records(w.segments) + if n >= |c.encode(Sealed(h, r))| then [Sealed(h, r)] else []
  {
    var s := Sealed(h, r);
    ReadyIsSynced(c, h, w, r);
    ReadPrefix(c, h, [s], n);
    assert EncodeAll(c, [s]) == EncodeLine(c, s) + EncodeAll(c, []) == EncodeLine(c, s);
    assert Whole(c, [s], n) == if n >= |c.encode(s)| then 1 else 0;
    hide Records, Synced, Open, Ready, Crashed, Read, EncodeAll;
    ReopenWithAnyTail(c, h, Ready(c, h, w, r), EncodeLine(c, s)[..n]);
  }

  /** The directory when a crash stops a roll after n bytes of the sealed file, which the roll
      writes again from its start. */
  function CrashedInRoll(c: Codec, w: PersistentWal, n: nat): map<nat, Bytes>
    requires w.segments != [] && n <= |EncodeAll(c, Last(w.segments).records)|
  {
    w.files[ActiveId(w) := EncodeAll(c, Last(w.segments).records)[..n]]
  }

  lemma FileInRoll(c: Codec, h: Hash, w: PersistentWal, n: nat, i: nat)
    requires Lawful(c) && Delimited(c) && Synced(c, h, w) && i < |w.segments|
    requires n <= |EncodeAll(c, Last(w.segments).records)|
    ensures var id, files := w.segments[i].segmentId, CrashedInRoll(c, w, n);
            && id in files
            && Read(c, h, files[id]).records
               == if i == |w.segments| - 1 then w.segments[i].records[..Whole(c, w.segments[i].records, n)]
                  else w.segments[i].records
  {
    var s := w.segments[i];
    assert InSync(c, h, w, i);
    IdsDiffer(w.segments, i, |w.segments| - 1);
    if i == |w.segments| - 1 {
      ReadPrefix(c, h, s.records, n);
    } else {
      FileRoundTrip(c, h, s.records, []);
    }
  }

  lemma SegmentInRoll(c: Codec, h: Hash, w: PersistentWal, n: nat, i: nat)
    requires Lawful(c) && Delimited(c) && Synced(c, h, w) && i < |w.segments|
    requires n <= |EncodeAll(c, Last(w.segments).records)|
    ensures var found := SegmentsIn(c, h, CrashedInRoll(c, w, n));
            && |found| == |w.segments|
            && (i < |w.segments| - 1 ==> found[i] == w.segments[i])
            && (i == |w.segments| - 1 ==>
                  found[i].records == w.segments[i].records[..Whole(c, w.segments[i].records, n)])
  {
    SyncedHasActiveFile(c, h, w);
    assert CrashedInRoll(c, w, n).Keys == Crashed(w, []).Keys;
    CrashedIds(c, h, w, []);
    FileInRoll(c, h, w, n, i);
    assert InSync(c, h, w, i);
    hide Read, EncodeAll, SortedKeys, CrashedInRoll, Whole, Lawful, Delimited;
    assert Ids(w.segments)[i] == w.segments[i].segmentId;
  }

  lemma SegmentsInRoll(c: Codec, h: Hash, w: PersistentWal, n: nat)
    requires Lawful(c) && Delimited(c) && Synced(c, h, w) && w.segments != [] && n <= |EncodeAll(c, Last(w.segments).records)|
    ensures var found, last := SegmentsIn(c, h, CrashedInRoll(c, w, n)), |w.segments| - 1;
            && |found| == |w.segments| && found[..last] == w.segments[..last]
            && found[last].records == w.segments[last].records[..Whole(c, w.segments[last].records, n)]
  {
    hide *;
    var found, last := SegmentsIn(c, h, CrashedInRoll(c, w, n)), |w.segments| - 1;
    SegmentInRoll(c, h, w, n, last);
    forall i: nat | i < last ensures found[i] == w.segments[i] {
      SegmentInRoll(c, h, w, n, i);
    }
  }

  /** How many records are left when a roll stopped after n bytes. */
  function LeftInRoll(c: Codec, w: PersistentWal, n: nat): nat
    requires w.segments != []
  {
    |Records(w.segments[..|w.segments| - 1])| + Whole(c, Last(w.segments).records, n)
  }

  /** Main result: a crash while a roll rewrites the sealed file keeps the records of the other
      files and, of that file, only those written again so far: nothing is lost exactly when
      at most its last newline is missing. */
  lemma CrashInRollKeepsExactly(c: Codec, h: Hash, w: PersistentWal, n: nat)
    requires Lawful(c) && Delimited(c) && Synced(c, h, w) && n <= |EncodeAll(c, Last(w.segments).records)|
    ensures var left := Records(Open(c, h, w.options, CrashedInRoll(c, w, n)).segments);
            && LeftInRoll(c, w, n) <= |Records(w.segments)| && left == Records(w.segments)[..LeftInRoll(c, w, n)]
            && (left == Records(w.segments) <==> n + 1 >= |EncodeAll(c, Last(w.segments).records)|)
  {
    var found, last := SegmentsIn(c, h, CrashedInRoll(c, w, n)), |w.segments| - 1;
    var active := Last(w.segments).records;
    assert LeftInRoll(c, w, n) == |Records(w.segments[..last])| + Whole(c, active, n);
    assert active == w.segments[last].records;
    hide *;
    SegmentsInRoll(c, h, w, n);
    OpenFindsSegments(c, h, w.options, CrashedInRoll(c, w, n));
    AllWhole(c, active, n);
    RecordsAfterLast(found, w.segments, active[..Whole(c, active, n)]);
    PrefixOfTail(Records(w.segments[..last]), active, Whole(c, active, n));
  }

  lemma OpenFindsSegments(c: Codec, h: Hash, options: Options, files: map<nat, Bytes>)
    requires SegmentsIn(c, h, files) != []
    ensures Open(c, h, options, files).segments == SegmentsIn(c, h, files)
  {
  }

  /** The records of two lists of segments that differ in the last one at most. */
  lemma RecordsAfterLast(a: seq<Segment>, b: seq<Segment>, rs: seq<WalRecord>)
    requires b != [] && |a| == |b| && a[..|b| - 1] == b[..|b| - 1] && a[|b| - 1].records == rs
    ensures Records(a) == Records(b[..|b| - 1]) + rs
    ensures Records(b) == Records(b[..|b| - 1]) + b[|b| - 1].records
  {
    hide Records;
    RecordsOfLast(a);
    RecordsOfLast(b);
  }

  lemma PrefixOfTail<T>(a: seq<T>, b: seq<T>, k: nat)
    requires k <= |b|
    ensures a + b[..k] == (a + b)[..|a| + k]
    ensures a + b[..k] == a + b <==> k == |b|
  {
    if k == |b| {
      assert b[..k] == b;
    } else {
      assert |a + b[..k]| < |a + b|;
    }
  }

  /** Appending to a log opened on an empty directory, then crashing and reopening, keeps
      exactly the appended records. */
  function AppendAllTo(c: Codec, h: Hash, w: PersistentWal, rs: seq<WalRecord>): PersistentWal
    requires Synced(c, h, w)
    decreases |rs|
  {
    if rs == [] then w
    else
      AppendKeepsSynced(c, h, w, rs[0]);
      AppendAllTo(c, h, AppendRecord(c, h, w, rs[0]), rs[1..])
  }

  lemma RollKeepsOptions(c: Codec, h: Hash, w: PersistentWal, r: WalRecord)
    requires w.segments != [] && ActiveId(w) in w.files
    ensures AppendRecord(c, h, w, r).options == w.options
  {
  }

  lemma {:induction false} AppendAllToKeepsSynced(c: Codec, h: Hash, w: PersistentWal, rs: seq<WalRecord>)
    requires Synced(c, h, w)
    ensures var v := AppendAllTo(c, h, w, rs); Synced(c, h, v) && v.options == w.options
    ensures Records(AppendAllTo(c, h, w, rs).segments) == Records(w.segments) + SealAll(h, rs)
    decreases |rs|
  {
    if rs == [] {
      assert SealAll(h, rs) == [];
    } else {
      AppendKeepsSynced(c, h, w, rs[0]);
      hide Synced, AppendRecord, Sealed, Records;
      RollKeepsOptions(c, h, w, rs[0]);
      var v := AppendRecord(c, h, w, rs[0]);
      AppendAllToKeepsSynced(c, h, v, rs[1..]);
      SealAllCons(h, rs);
      hide SealAll;
      ConcatAssociative(Records(w.segments), [Sealed(h, rs[0])], SealAll(h, rs[1..]));
    }
  }

  lemma SealAllCons(h: Hash, rs: seq<WalRecord>)
    requires rs != []
    ensures SealAll(h, rs) == [Sealed(h, rs[0])] + SealAll(h, rs[1..])
  {
  }

  lemma SyncedHasActiveFile(c: Codec, h: Hash, w: PersistentWal)
    requires Synced(c, h, w)
    ensures w.segments != [] && ActiveId(w) in w.files
  {
  }

  lemma OpenEmpty(c: Codec, h: Hash, options: Options)
    ensures Open(c, h, options, map[]) == PersistentWal(options, map[0 := []], [EmptySegment(0)], 1, 0, false)
  {
  }

  lemma NewLogIsSynced(c: Codec, h: Hash, options: Options)
    ensures Synced(c, h, Open(c, h, options, map[]))
    ensures Records(Open(c, h, options, map[]).segments) == []
  {
  }

  /** The log that appending some records to an empty directory makes. */
  function Written(c: Codec, h: Hash, options: Options, rs: seq<WalRecord>): (w: PersistentWal)
    ensures Synced(c, h, w) && w.segments != [] && ActiveId(w) in w.files && w.options == options
    ensures Records(w.segments) == SealAll(h, rs)
  {
    NewLogIsSynced(c, h, options);
    OpenEmpty(c, h, options);
    var start := Open(c, h, options, map[]);
    AppendAllToKeepsSynced(c, h, start, rs);
    SyncedHasActiveFile(c, h, AppendAllTo(c, h, start, rs));
    assert [] + SealAll(h, rs) == SealAll(h, rs);
    AppendAllTo(c, h, start, rs)
  }

  /** Records written to an empty directory are all there after any crash that leaves other
      bytes after them, followed by the records those bytes hold. */
  lemma CrashKeepsWrittenRecords(c: Codec, h: Hash, options: Options, rs: seq<WalRecord>, tail: Bytes)
    requires Lawful(c)
    ensures var v := Open(c, h, options, Crashed(Written(c, h, options, rs), tail));
            Records(v.segments) == SealAll(h, rs) + Read(c, h, tail).records
  {
    ReopenWithAnyTail(c, h, Written(c, h, options, rs), tail);
    hide Open, Crashed, Written, Synced;
  }

  // ----- Rereading -----

  lemma SameRecordsSameSegments(c: Codec, h: Hash, a: map<nat, Bytes>, b: map<nat, Bytes>)
    requires a.Keys == b.Keys && forall id :: id in a ==> Read(c, h, a[id]).records == Read(c, h, b[id]).records
    ensures SegmentsIn(c, h, a) == SegmentsIn(c, h, b)
  {
    hide Read;
    var ids := SortedKeys(a.Keys);
    forall i: nat | i < |ids| ensures ids[i] in a && SegmentOf(c, h, ids[i], a[ids[i]], i != |ids| - 1)
                                                     == SegmentOf(c, h, ids[i], b[ids[i]], i != |ids| - 1) {
      assert ids[i] in a.Keys;
    }
  }

  /** Reading the directory again after it was opened finds the same segments. */
  lemma RereadFindsSame(c: Codec, h: Hash, options: Options, files: map<nat, Bytes>)
    ensures SegmentsIn(c, h, Open(c, h, options, files).files) == Open(c, h, options, files).segments
  {
    if files.Keys == {} {
      RereadEmpty(c, h, options, files);
    } else {
      SomeSegment(c, h, files);
      var kept := TruncatedFiles(c, h, files);
      forall id | id in kept ensures id in files && Read(c, h, kept[id]).records == Read(c, h, files[id]).records {
        ReadIsIdempotent(c, h, files[id]);
      }
      assert kept.Keys == files.Keys;
      hide Read, Truncate, SegmentsIn;
      SameRecordsSameSegments(c, h, kept, files);
    }
  }

  lemma RereadEmpty(c: Codec, h: Hash, options: Options, files: map<nat, Bytes>)
    requires files.Keys == {}
    ensures SegmentsIn(c, h, Open(c, h, options, files).files) == Open(c, h, options, files).segments
  {
    assert files == map[];
    OpenEmpty(c, h, options);
    AscendingUnique(SortedKeys({0}), [0]);
    var created: map<nat, Bytes> := map[0 := []];
    assert created.Keys == {0};
    assert Read(c, h, []).records == [];
  }
}
