/** When appending opens a new segment, and the limits that segments therefore keep over every
    run of appends. */
module WalLimits {
  import opened Types
  import opened Ordering
  import opened WalModel
  import opened WalFileModel
  import opened PersistentWalModel
  import opened WalTheorems
  import L = LocalWalModel

  // ----- On disk -----

  /** Segment i holds at most the configured records and, when it holds more than one, its file
      at most the configured bytes. */
  ghost predicate WithinLimits(w: PersistentWal, i: nat)
    requires i < |w.segments|
  {
    var s := w.segments[i];
    && |s.records| <= w.options.maxRecords
    && (|s.records| > 1 ==> s.segmentId in w.files && |w.files[s.segmentId]| <= w.options.maxSegmentBytes)
  }

  ghost predicate AllWithinLimits(w: PersistentWal) {
    forall i: nat :: i < |w.segments| ==> WithinLimits(w, i)
  }

  /** The line would be one record too many for the active segment, or make its file too long
      when it already holds a record. */
  predicate BreaksLimit(c: Codec, w: PersistentWal, line: Bytes)
    requires w.segments != [] && ActiveId(w) in w.files
  {
    var active := |w.segments[|w.segments| - 1].records|;
    || active + 1 > w.options.maxRecords
    || (active > 0 && |w.files[ActiveId(w)]| + |line| > w.options.maxSegmentBytes)
  }

  /** Main result: an append opens a new segment, for the record alone, exactly when the line
      would break a limit of the active one; otherwise it goes to the end of that segment and
      of its file. */
  lemma AppendRollsExactly(c: Codec, h: Hash, w: PersistentWal, r: WalRecord)
    requires Synced(c, h, w) && w.options.Valid() && ActiveId(w) in w.files
    ensures var s := Sealed(h, r);
            var line := c.encode(s) + [NEWLINE];
            var v := AppendRecord(c, h, w, r);
            var n := |w.segments| - 1;
            && |v.segments| == n + (if BreaksLimit(c, w, line) then 2 else 1)
            && v.segments[..n] == w.segments[..n] && v.segments[n].segmentId == w.segments[n].segmentId
            && ActiveId(v) in v.files
            && (BreaksLimit(c, w, line) ==>
                  && v.segments[n].records == w.segments[n].records && v.segments[n].isSealed
                  && v.segments[n + 1].records == [s] && v.files[ActiveId(v)] == line)
            && (!BreaksLimit(c, w, line) ==>
                  && v.segments[n].records == w.segments[n].records + [s]
                  && v.files[ActiveId(v)] == w.files[ActiveId(w)] + line)
  {
    hide EncodeAll, Sealed, SegmentWith;
  }

  /** An append that opens a new segment first writes the file of the sealed one again: whatever
      bytes it held, it then reads back as exactly the records of that segment, and so also when
      its last line had lost its newline. */
  lemma RollRepairsFile(c: Codec, h: Hash, w: PersistentWal, r: WalRecord)
    requires Lawful(c) && w.segments != [] && w.options.Valid() && ActiveId(w) in w.files && ActiveId(w) != w.nextSegmentId
    requires BreaksLimit(c, w, c.encode(Sealed(h, r)) + [NEWLINE])
    requires forall q :: q in w.segments[|w.segments| - 1].records ==> ChecksumValid(h, q)
    ensures var v := AppendRecord(c, h, w, r);
            var rs := w.segments[|w.segments| - 1].records;
            ActiveId(w) in v.files && Read(c, h, v.files[ActiveId(w)]) == ReadResult(rs, |v.files[ActiveId(w)]|, false)
  {
    FileRoundTrip(c, h, w.segments[|w.segments| - 1].records, []);
    hide Read, EncodeAll, Sealed, Lawful, ChecksumValid;
  }

  lemma RollKeepsLimits(c: Codec, h: Hash, w: PersistentWal)
    requires Synced(c, h, w) && AllWithinLimits(w)
    ensures AllWithinLimits(Roll(c, w))
  {
    var v := Roll(c, w);
    var n := |w.segments| - 1;
    hide EncodeAll, Described;
    forall i: nat | i < |v.segments| ensures WithinLimits(v, i) {
      if i <= n {
        assert InSync(c, h, w, i) && InSync(c, h, w, n) && WithinLimits(w, i);
        IdsDiffer(w.segments, i, n);
        assert Ids(w.segments)[i] <= Ids(w.segments)[n];
      }
    }
  }

  lemma WriteKeepsLimits(c: Codec, w: PersistentWal, r: WalRecord)
    requires WellShaped(w) && AllWithinLimits(w) && ActiveId(w) in w.files
    requires !BreaksLimit(c, w, EncodeLine(c, r))
    ensures AllWithinLimits(WriteRecord(c, w, r))
  {
    var v := WriteRecord(c, w, r);
    var n := |w.segments| - 1;
    hide EncodeLine;
    forall i: nat | i < |v.segments| ensures WithinLimits(v, i) {
      assert WithinLimits(w, i);
      IdsDiffer(w.segments, i, n);
    }
  }

  lemma AppendKeepsLimits(c: Codec, h: Hash, w: PersistentWal, r: WalRecord)
    requires Synced(c, h, w) && w.options.Valid() && AllWithinLimits(w) && ActiveId(w) in w.files
    ensures AllWithinLimits(AppendRecord(c, h, w, r))
  {
    var v := Ready(c, h, w, r);
    ReadyIsSynced(c, h, w, r);
    ReadyHasRoom(c, h, w, r);
    if v != w {
      RollKeepsLimits(c, h, w);
    }
    hide Synced, AllWithinLimits, EncodeLine, BreaksLimit, EncodeAll, Sealed;
    WriteKeepsLimits(c, v, Sealed(h, r));
  }

  lemma ReadyHasRoom(c: Codec, h: Hash, w: PersistentWal, r: WalRecord)
    requires Synced(c, h, w) && w.options.Valid() && ActiveId(w) in w.files
    ensures var v := Ready(c, h, w, r);
            v.segments != [] && ActiveId(v) in v.files && !BreaksLimit(c, v, EncodeLine(c, Sealed(h, r))) && WellShaped(v)
  {
    ReadyIsSynced(c, h, w, r);
    hide Sealed, EncodeLine, EncodeAll;
  }

  lemma {:induction false} AppendAllKeepsLimits(c: Codec, h: Hash, w: PersistentWal, rs: seq<WalRecord>)
    requires Synced(c, h, w) && w.options.Valid() && AllWithinLimits(w)
    ensures AllWithinLimits(AppendAllTo(c, h, w, rs))
    decreases |rs|
  {
    if rs != [] {
      SyncedHasActiveFile(c, h, w);
      AppendKeepsSynced(c, h, w, rs[0]);
      AppendKeepsLimits(c, h, w, rs[0]);
      hide Synced, AppendRecord, AllWithinLimits;
      RollKeepsOptions(c, h, w, rs[0]);
      AppendAllKeepsLimits(c, h, AppendRecord(c, h, w, rs[0]), rs[1..]);
    }
  }

  /** Main result: over every run of appends from an empty directory no segment holds more than
      the configured records, and no file of more than one record is longer than the
      configured bytes. */
  lemma WrittenWithinLimits(c: Codec, h: Hash, options: Options, rs: seq<WalRecord>)
    requires options.Valid()
    ensures AllWithinLimits(Written(c, h, options, rs))
  {
    NewLogIsSynced(c, h, options);
    OpenEmpty(c, h, options);
    var start := Open(c, h, options, map[]);
    assert AllWithinLimits(start);
    hide Open, Synced, AllWithinLimits;
    AppendAllKeepsLimits(c, h, start, rs);
  }

  // ----- In memory -----

  ghost predicate LocalWithinLimit(w: L.LocalWal) {
    forall i :: 0 <= i < |w.segments| ==> |w.segments[i].records| <= w.maxRecords
  }

  /** An append in memory opens a new segment, for the record alone, exactly when the active one
      is full. */
  lemma LocalAppendRollsExactly(h: Hash, w: L.LocalWal, r: WalRecord)
    requires w.segments != []
    ensures var v, n := L.Append(h, w, r), |w.segments| - 1;
            var rolls := |w.segments[n].records| + 1 > w.maxRecords;
            && |v.segments| == n + (if rolls then 2 else 1) && v.segments[..n] == w.segments[..n]
            && (rolls ==> v.segments[n].records == w.segments[n].records && v.segments[n + 1].records == [Sealed(h, r)])
            && (!rolls ==> v.segments[n].records == w.segments[n].records + [Sealed(h, r)])
  {
    hide Sealed;
  }

  lemma {:induction false} LocalRunWithinLimit(h: Hash, w: L.LocalWal, rs: seq<WalRecord>)
    requires w.segments != [] && w.maxRecords > 0 && LocalWithinLimit(w)
    ensures LocalWithinLimit(L.AppendAll(h, w, rs))
    decreases |rs|
  {
    if rs != [] {
      LocalAppendRollsExactly(h, w, rs[0]);
      var v := L.Append(h, w, rs[0]);
      forall i | 0 <= i < |v.segments| ensures |v.segments[i].records| <= v.maxRecords {
        assert i < |w.segments| - 1 ==> v.segments[i] == v.segments[..|w.segments| - 1][i];
      }
      hide L.Append;
      LocalRunWithinLimit(h, v, rs[1..]);
    }
  }

  /** Main result: over every run of appends in memory no segment holds more than the configured
      records. */
  lemma LocalWithinLimits(h: Hash, maxRecords: nat, rs: seq<WalRecord>)
    requires maxRecords > 0
    ensures LocalWithinLimit(L.AppendAll(h, L.New(maxRecords), rs))
  {
    LocalRunWithinLimit(h, L.New(maxRecords), rs);
  }
}
