/** Compaction of the persistent log: which records it may drop, and that recovery does
    not notice. */
module WalCompaction {
  import opened Types
  import opened Ordering
  import opened WalModel
  import opened WalFileModel
  import opened LocalWalModel
  import opened PersistentWalModel
  import opened WalTheorems

  /** Records are filed under positive indices that never go down. */
  ghost predicate Indexed(rs: seq<WalRecord>) {
    && (forall i :: 0 <= i < |rs| ==> RecordIndex(rs[i]) > 0)
    && (forall i, j :: 0 <= i <= j < |rs| ==> RecordIndex(rs[i]) <= RecordIndex(rs[j]))
  }

  /** The last index of a segment is that of its last record, or zero when it is empty. */
  ghost predicate LastIndexed(segments: seq<Segment>) {
    forall i :: 0 <= i < |segments| ==>
      segments[i].lastIndex
      == if segments[i].records == [] then 0 else RecordIndex(segments[i].records[|segments[i].records| - 1])
  }

  // ----- Retaining -----

  lemma {:induction false} RetainSplits(a: seq<Segment>, b: seq<Segment>, removed: set<nat>)
    ensures Retain(a + b, removed) == Retain(a, removed) + Retain(b, removed)
  {
    if a == [] {
      assert a + b == b;
    } else {
      assert (a + b)[1..] == a[1..] + b;
      RetainSplits(a[1..], b, removed);
    }
  }

  lemma {:induction false} RetainAll(a: seq<Segment>, removed: set<nat>)
    requires forall i :: 0 <= i < |a| ==> a[i].segmentId !in removed
    ensures Retain(a, removed) == a
  {
    if a != [] {
      RetainAll(a[1..], removed);
      assert a == [a[0]] + a[1..];
    }
  }

  lemma {:induction false} RetainOnlyEmpty(a: seq<Segment>, removed: set<nat>)
    requires forall i :: 0 <= i < |a| ==> a[i].segmentId in removed || a[i].records == []
    ensures Records(Retain(a, removed)) == []
    ensures (forall i :: 0 <= i < |a| ==> a[i].records != []) ==> Retain(a, removed) == []
  {
    if a != [] {
      RetainOnlyEmpty(a[1..], removed);
      var rest := Retain(a[1..], removed);
      if a[0].segmentId in removed {
        assert Retain(a, removed) == rest;
      } else {
        assert ([a[0]] + rest)[1..] == rest;
        assert Records([a[0]] + rest) == a[0].records + Records(rest);
      }
    }
  }

  // ----- The boundary of what is dropped -----

  /** The candidates for removal. */
  function Candidates(w: PersistentWal): nat {
    SatSub(|w.segments|, w.options.minKeep)
  }

  predicate Dropped(w: PersistentWal, index: LogIndex, i: nat) {
    i < Candidates(w) && 0 < w.segments[i].lastIndex <= index
  }

  /** One past the last dropped segment, or zero. */
  function Boundary(w: PersistentWal, index: LogIndex, upTo: nat): (b: nat)
    requires upTo <= Candidates(w)
    ensures b <= upTo && (b > 0 ==> Dropped(w, index, b - 1))
    ensures forall i: nat :: b <= i < upTo ==> !Dropped(w, index, i)
  {
    if upTo == 0 || Dropped(w, index, upTo - 1) then upTo else Boundary(w, index, upTo - 1)
  }

  lemma {:induction false} RecordOfPrefix(segments: seq<Segment>, i: nat, r: WalRecord)
    requires i < |segments| && r in segments[i].records
    ensures r in Records(segments)
  {
    if i > 0 {
      RecordOfPrefix(segments[1..], i - 1, r);
    }
  }

  /** The ids to remove, as the compaction collects them. */
  function RemovedIds(w: PersistentWal, index: LogIndex): set<nat> {
    if |w.segments| <= w.options.minKeep then {} else RemovableIds(w.segments[..Candidates(w)], index)
  }

  lemma RemovedIsDropped(w: PersistentWal, index: LogIndex, i: nat)
    requires Ascending(Ids(w.segments)) && i < |w.segments|
    ensures w.segments[i].segmentId in RemovedIds(w, index) <==> Dropped(w, index, i)
  {
  }

  /** Below the boundary every record is filed at or under the index, so every segment that
      holds a record is dropped. */
  lemma BelowBoundary(w: PersistentWal, index: LogIndex)
    requires LastIndexed(w.segments) && Indexed(Records(w.segments))
    ensures var b := Boundary(w, index, Candidates(w));
            && Records(w.segments) == Records(w.segments[..b]) + Records(w.segments[b..])
            && (forall j :: 0 <= j < |Records(w.segments[..b])| ==> RecordIndex(Records(w.segments)[j]) <= index)
            && (forall i: nat :: i < b ==> Dropped(w, index, i) || w.segments[i].records == [])
  {
    var b := Boundary(w, index, Candidates(w));
    var head := Records(w.segments[..b]);
    RecordsAppend(w.segments[..b], w.segments[b..]);
    assert w.segments == w.segments[..b] + w.segments[b..];
    HeadAtMost(w, index, b);
    hide *;
    forall i: nat | i < b && w.segments[i].records != [] ensures Dropped(w, index, i) {
      SegmentAtMost(w, b, i, index);
    }
  }

  lemma LastBelow(w: PersistentWal, index: LogIndex, b: nat)
    requires LastIndexed(w.segments) && b > 0 && Dropped(w, index, b - 1)
    ensures var head := Records(w.segments[..b]); head != [] && RecordIndex(head[|head| - 1]) <= index
  {
    RecordsOfLast(w.segments[..b]);
    hide Records;
  }

  lemma PrefixAtMost(all: seq<WalRecord>, head: seq<WalRecord>, index: LogIndex)
    requires Indexed(all) && head != [] && |head| <= |all| && head == all[..|head|]
    requires RecordIndex(head[|head| - 1]) <= index
    ensures forall j :: 0 <= j < |head| ==> RecordIndex(all[j]) <= index && all[j] == head[j] && RecordIndex(head[j]) > 0
  {
  }

  lemma HeadAtMost(w: PersistentWal, index: LogIndex, b: nat)
    requires LastIndexed(w.segments) && Indexed(Records(w.segments)) && b <= |w.segments|
    requires b > 0 ==> Dropped(w, index, b - 1)
    requires Records(w.segments) == Records(w.segments[..b]) + Records(w.segments[b..])
    ensures forall j :: 0 <= j < |Records(w.segments[..b])| ==> 0 < RecordIndex(Records(w.segments[..b])[j]) <= index
  {
    var head := Records(w.segments[..b]);
    if b > 0 {
      hide *;
      LastBelow(w, index, b);
      PrefixAtMost(Records(w.segments), head, index);
    }
  }

  lemma SegmentAtMost(w: PersistentWal, b: nat, i: nat, index: LogIndex)
    requires LastIndexed(w.segments) && i < b <= Candidates(w) && w.segments[i].records != []
    requires forall j :: 0 <= j < |Records(w.segments[..b])| ==> 0 < RecordIndex(Records(w.segments[..b])[j]) <= index
    ensures Dropped(w, index, i)
  {
    hide Records;
    var s := w.segments[i];
    var r := s.records[|s.records| - 1];
    assert w.segments[..b][i] == s;
    RecordOfPrefix(w.segments[..b], i, r);
    var j: nat :| j < |Records(w.segments[..b])| && Records(w.segments[..b])[j] == r;
  }

  /** What is left: the segments from the boundary on, after those below it that hold no
      record. */
  lemma KeptSegments(w: PersistentWal, index: LogIndex)
    requires Ascending(Ids(w.segments)) && LastIndexed(w.segments) && Indexed(Records(w.segments))
    ensures var b := Boundary(w, index, Candidates(w));
            var below := Retain(w.segments[..b], RemovedIds(w, index));
            && CompactThrough(w, index).0.segments == below + w.segments[b..]
            && Records(below) == []
            && ((forall i :: 0 <= i < b ==> w.segments[i].records != []) ==> below == [])
  {
    var b := Boundary(w, index, Candidates(w));
    var removed := RemovedIds(w, index);
    RetainAroundBoundary(w, index);
    EmptyRetain(removed);
    assert w.segments == w.segments[..b] + w.segments[b..];
    hide *;
    if |w.segments| <= w.options.minKeep {
      NothingRemoved(w, index);
    } else {
      CompactIsRetain(w, index);
    }
  }

  lemma NothingRemoved(w: PersistentWal, index: LogIndex)
    requires |w.segments| <= w.options.minKeep
    ensures CompactThrough(w, index).0 == w && Boundary(w, index, Candidates(w)) == 0
    ensures w.segments[..0] == [] && [] + w.segments[0..] == w.segments
  {
  }

  lemma EmptyRetain(removed: set<nat>)
    ensures Retain([], removed) == []
  {
  }

  lemma RetainAroundBoundary(w: PersistentWal, index: LogIndex)
    requires Ascending(Ids(w.segments)) && LastIndexed(w.segments) && Indexed(Records(w.segments))
    ensures var b := Boundary(w, index, Candidates(w));
            var removed := RemovedIds(w, index);
            && Retain(w.segments[..b] + w.segments[b..], removed) == Retain(w.segments[..b], removed) + w.segments[b..]
            && Records(Retain(w.segments[..b], removed)) == []
            && ((forall i :: 0 <= i < b ==> w.segments[i].records != []) ==> Retain(w.segments[..b], removed) == [])
  {
    var b := Boundary(w, index, Candidates(w));
    var removed := RemovedIds(w, index);
    BelowBoundary(w, index);
    hide RemovedIds, Records, Boundary, LastIndexed, Indexed, Retain;
    forall i: nat | i < |w.segments| ensures w.segments[i].segmentId in removed <==> Dropped(w, index, i) {
      RemovedIsDropped(w, index, i);
    }
    RetainOnlyEmpty(w.segments[..b], removed);
    RetainAll(w.segments[b..], removed);
    RetainSplits(w.segments[..b], w.segments[b..], removed);
  }

  lemma CompactIsRetain(w: PersistentWal, index: LogIndex)
    requires |w.segments| > w.options.minKeep
    ensures CompactThrough(w, index).0.segments == Retain(w.segments, RemovedIds(w, index))
  {
  }

  // ----- Main results -----

  /** Main result: compaction drops a prefix of the records, all of them filed at or under
      the requested index, keeps at least the configured number of segments, and drops
      whole segments from the front when none of them is empty. */
  lemma CompactionDropsOldPrefix(w: PersistentWal, index: LogIndex)
    requires Ascending(Ids(w.segments)) && LastIndexed(w.segments) && Indexed(Records(w.segments))
    ensures var kept := CompactThrough(w, index).0.segments;
            var all := Records(w.segments);
            && |Records(kept)| <= |all|
            && Records(kept) == all[|all| - |Records(kept)|..]
            && (forall j :: 0 <= j < |all| - |Records(kept)| ==> RecordIndex(all[j]) <= index)
            && |kept| >= Min(|w.segments|, w.options.minKeep)
            && ((forall i :: 0 <= i < |w.segments| ==> w.segments[i].records != []) ==>
                  |kept| <= |w.segments| && kept == w.segments[|w.segments| - |kept|..])
  {
    var b := Boundary(w, index, Candidates(w));
    BelowBoundary(w, index);
    KeptSegments(w, index);
    var below := Retain(w.segments[..b], RemovedIds(w, index));
    RecordsAppend(below, w.segments[b..]);
    hide Records, CompactThrough, Retain, RemovedIds;
    assert Records(below + w.segments[b..]) == Records(w.segments[b..]);
    assert below == [] ==> below + w.segments[b..] == w.segments[b..];
  }

  /** Under a storage fence nothing beyond the durably applied index is dropped; a fence that
      is invalid or behind drops nothing. */
  lemma FencedCompactionIsDurable(w: PersistentWal, index: LogIndex, f: StorageFence)
    requires Ascending(Ids(w.segments)) && LastIndexed(w.segments) && Indexed(Records(w.segments))
    ensures var (v, count) := CompactWithFence(w, index, f);
            var all := Records(w.segments);
            && |Records(v.segments)| <= |all|
            && (forall j :: 0 <= j < |all| - |Records(v.segments)| ==>
                  RecordIndex(all[j]) <= f.durableApplied <= f.applied <= f.committed)
            && (count.None? <==> !StorageFenceOk(f) || f.durableApplied < index || f.flushed < index)
            && (count.None? ==> v == w)
  {
    hide Records, CompactThrough;
    CompactionDropsOldPrefix(w, index);
  }

  /** Every record can be recovered from and commits never go down. */
  ghost predicate Recoverable(h: Hash, rs: seq<WalRecord>) {
    && (forall k :: 0 <= k < |rs| ==> ChecksumValid(h, rs[k]) && Usable(rs[k]))
    && (forall j, k :: 0 <= j <= k < |rs| ==> CommittedIndex(rs[j]) <= CommittedIndex(rs[k]))
  }

  /** Segment i holds a record and is not among those dropped: it is one of the segments to
      keep, or goes beyond the index. */
  predicate Stays(w: PersistentWal, index: LogIndex, i: nat)
    requires i < |w.segments|
  {
    w.segments[i].records != [] && (i >= Candidates(w) || w.segments[i].lastIndex > index)
  }

  ghost predicate SomeSegmentStays(w: PersistentWal, index: LogIndex) {
    exists i: nat :: i < |w.segments| && Stays(w, index, i)
  }

  lemma {:induction false} SomeRecordExactly(segments: seq<Segment>)
    ensures Records(segments) != [] <==> exists i: nat :: i < |segments| && segments[i].records != []
  {
    if segments != [] {
      SomeRecordExactly(segments[1..]);
      if i: nat :| i < |segments| && segments[i].records != [] {
        assert i > 0 ==> segments[1..][i - 1] == segments[i];
      }
    }
  }

  lemma {:induction false} PositiveLast(segments: seq<Segment>, i: nat)
    requires LastIndexed(segments) && i < |segments| && segments[i].records != []
    requires forall r :: r in Records(segments) ==> RecordIndex(r) > 0
    ensures segments[i].lastIndex > 0
  {
    var r := segments[i].records[|segments[i].records| - 1];
    RecordOfPrefix(segments, i, r);
  }

  /** A segment with records stays exactly when it lies at or beyond the boundary. */
  lemma StaysBeyondBoundary(w: PersistentWal, index: LogIndex, i: nat)
    requires LastIndexed(w.segments) && Indexed(Records(w.segments)) && i < |w.segments|
    ensures Stays(w, index, i) <==> w.segments[i].records != [] && i >= Boundary(w, index, Candidates(w))
  {
    BelowBoundary(w, index);
    if w.segments[i].records != [] {
      PositiveLast(w.segments, i);
      assert Dropped(w, index, i) <==> i < Boundary(w, index, Candidates(w));
    }
  }

  lemma RecordBeyondExactly(segments: seq<Segment>, b: nat)
    requires b <= |segments|
    ensures Records(segments[b..]) != [] <==> exists i: nat :: b <= i < |segments| && segments[i].records != []
  {
    var rest := segments[b..];
    SomeRecordExactly(rest);
    hide Records;
    if i: nat :| i < |rest| && rest[i].records != [] {
      assert segments[i + b] == rest[i];
    }
    if i: nat :| b <= i < |segments| && segments[i].records != [] {
      assert rest[i - b] == segments[i];
    }
  }

  lemma LeftBeyondBoundary(w: PersistentWal, index: LogIndex)
    requires Ascending(Ids(w.segments)) && LastIndexed(w.segments) && Indexed(Records(w.segments))
    ensures Records(CompactThrough(w, index).0.segments) == Records(w.segments[Boundary(w, index, Candidates(w))..])
  {
    var b := Boundary(w, index, Candidates(w));
    var below, rest := Retain(w.segments[..b], RemovedIds(w, index)), w.segments[b..];
    hide *;
    KeptSegments(w, index);
    RecordsAppend(below, rest);
    assert [] + Records(rest) == Records(rest);
  }

  /** Main result: compaction leaves a record exactly when some segment that holds one stays. */
  lemma RecordLeftExactly(w: PersistentWal, index: LogIndex)
    requires Ascending(Ids(w.segments)) && LastIndexed(w.segments) && Indexed(Records(w.segments))
    ensures Records(CompactThrough(w, index).0.segments) != [] <==> SomeSegmentStays(w, index)
  {
    var b := Boundary(w, index, Candidates(w));
    hide Records, CompactThrough, Stays, LastIndexed, Indexed, Boundary;
    LeftBeyondBoundary(w, index);
    RecordBeyondExactly(w.segments, b);
    forall i: nat | i < |w.segments| ensures Stays(w, index, i) <==> w.segments[i].records != [] && i >= b {
      StaysBeyondBoundary(w, index, i);
    }
  }

  lemma SuffixRecoversSame(h: Hash, all: seq<WalRecord>, kept: seq<WalRecord>)
    requires Recoverable(h, all) && |kept| <= |all| && kept == all[|all| - |kept|..]
    ensures RecoverLatest(h, kept) == RecoverLatest(h, all) <==> kept != [] || all == []
  {
    assert RecoverLatest(h, []) == None;
    hide RecoverLatest;
    if all != [] {
      NewestIsRecovered(h, all);
    }
    if kept != [] {
      assert forall k :: 0 <= k < |kept| ==> kept[k] == all[|all| - |kept| + k];
      NewestIsRecovered(h, kept);
    }
  }

  /** Main result: compaction does not change what is recovered exactly when some segment that
      holds a record stays, or there was no record. */
  lemma CompactionKeepsRecovery(w: PersistentWal, h: Hash, index: LogIndex)
    requires Ascending(Ids(w.segments)) && LastIndexed(w.segments) && Indexed(Records(w.segments))
    requires Recoverable(h, Records(w.segments))
    ensures RecoverLatest(h, Records(CompactThrough(w, index).0.segments)) == RecoverLatest(h, Records(w.segments))
            <==> SomeSegmentStays(w, index) || Records(w.segments) == []
  {
    CompactionDropsOldPrefix(w, index);
    hide *;
    RecordLeftExactly(w, index);
    SuffixRecoversSame(h, Records(w.segments), Records(CompactThrough(w, index).0.segments));
  }

  /** So a record in the active segment is enough. */
  lemma ActiveRecordStays(w: PersistentWal, index: LogIndex)
    requires Ascending(Ids(w.segments)) && LastIndexed(w.segments) && Indexed(Records(w.segments))
    requires w.options.minKeep > 0 && w.segments != [] && Last(w.segments).records != []
    ensures Records(CompactThrough(w, index).0.segments) != []
  {
    assert Stays(w, index, |w.segments| - 1);
    hide Records;
    RecordLeftExactly(w, index);
  }

  const ONE_EACH := Options(1, 1024, 1)

  lemma {:induction false} OneRecordWritten(c: Codec, h: Hash, r: WalRecord)
    ensures var s, w := Sealed(h, r), Written(c, h, ONE_EACH, [r]);
            && w.segments == [SegmentWith(0, [s], false)] && w.nextSegmentId == 1 && Records(w.segments) == [s]
  {
    OpenEmpty(c, h, ONE_EACH);
    NewLogIsSynced(c, h, ONE_EACH);
    var start := Open(c, h, ONE_EACH, map[]);
    AppendKeepsSynced(c, h, start, r);
    var next := AppendRecord(c, h, start, r);
    assert [r][1..] == [] && AppendAllTo(c, h, next, []) == next;
    assert [] + [Sealed(h, r)] == [Sealed(h, r)];
  }

  /** With one record a segment, a crash while the second is appended leaves the active segment
      empty; compacting through the first after reopening then drops the only record. */
  lemma EmptyActiveCanLoseAll(c: Codec, h: Hash, r: WalRecord, next: WalRecord, n: nat)
    requires Lawful(c) && Delimited(c) && RecordIndex(r) > 0 && n < |c.encode(Sealed(h, next))|
    ensures var w := Open(c, h, ONE_EACH, CrashedInAppend(c, h, Written(c, h, ONE_EACH, [r]), next, n));
            && Synced(c, h, w) && Records(w.segments) == [Sealed(h, r)]
            && Records(CompactThrough(w, RecordIndex(r)).0.segments) == []
  {
    var v := Written(c, h, ONE_EACH, [r]);
    assert n < |EncodeLine(c, Sealed(h, next))|;
    hide *;
    ReadyForSecond(c, h, r, next);
    UnfinishedIsCorrupt(c, h, Sealed(h, next), n);
    CrashedBeforeSecond(c, h, v, r, next, n);
    var u := Open(c, h, ONE_EACH, CrashedInAppend(c, h, v, next, n));
    SyncedIsLastIndexed(c, h, u);
    OnlyRecordDropped(h, u, r);
  }

  lemma ReadyForSecond(c: Codec, h: Hash, r: WalRecord, next: WalRecord)
    ensures var w := Ready(c, h, Written(c, h, ONE_EACH, [r]), next);
            && w.segments == [SegmentWith(0, [Sealed(h, r)], true), EmptySegment(1)] && w.options == ONE_EACH
            && Synced(c, h, w) && ActiveId(w) in w.files && Records(w.segments) == [Sealed(h, r)]
  {
    OneRecordWritten(c, h, r);
    ReadyIsSynced(c, h, Written(c, h, ONE_EACH, [r]), next);
    hide Written, Records, EncodeAll, EncodeLine, Synced;
  }

  lemma CrashedBeforeSecond(c: Codec, h: Hash, v: PersistentWal, r: WalRecord, next: WalRecord, n: nat)
    requires Lawful(c) && Synced(c, h, v) && v.segments != [] && ActiveId(v) in v.files && n <= |EncodeLine(c, Sealed(h, next))|
    requires var tail := EncodeLine(c, Sealed(h, next))[..n]; tail == [] || CorruptTail(c, h, tail)
    requires Synced(c, h, Ready(c, h, v, next)) && Ready(c, h, v, next).options == ONE_EACH
    ensures var u := Open(c, h, ONE_EACH, CrashedInAppend(c, h, v, next, n));
            && Synced(c, h, u) && Ascending(Ids(u.segments))
            && u.segments == Ready(c, h, v, next).segments && u.options == ONE_EACH
  {
    hide Ready, EncodeAll, EncodeLine, Open, Crashed, CorruptTail, Synced;
    var w := Ready(c, h, v, next);
    ReadyIsSynced(c, h, v, next);
    ReopenAfterCrash(c, h, w, EncodeLine(c, Sealed(h, next))[..n]);
    SameSegmentsSynced(c, h, w, Open(c, h, ONE_EACH, CrashedInAppend(c, h, v, next, n)));
  }

  lemma OnlyRecordDropped(h: Hash, u: PersistentWal, r: WalRecord)
    requires u.segments == [SegmentWith(0, [Sealed(h, r)], true), EmptySegment(1)] && u.options == ONE_EACH
    requires Ascending(Ids(u.segments)) && LastIndexed(u.segments)
    requires Records(u.segments) == [Sealed(h, r)] && RecordIndex(r) > 0
    ensures Records(CompactThrough(u, RecordIndex(r)).0.segments) == []
  {
    hide Records;
    assert RecordIndex(Sealed(h, r)) == RecordIndex(r);
    RecordLeftExactly(u, RecordIndex(r));
  }

  lemma SameSegmentsSynced(c: Codec, h: Hash, w: PersistentWal, u: PersistentWal)
    requires Synced(c, h, w) && u == w.(released := u.released, truncatedSeen := u.truncatedSeen)
    ensures Synced(c, h, u) && Ascending(Ids(u.segments))
  {
    hide EncodeAll;
    forall i: nat | i < |u.segments| ensures InSync(c, h, u, i) {
      assert InSync(c, h, w, i);
    }
  }

  /** Compaction of segments that all hold records keeps files and segments in step. */
  lemma CompactKeepsSynced(c: Codec, h: Hash, w: PersistentWal, index: LogIndex)
    requires Synced(c, h, w) && Indexed(Records(w.segments)) && w.options.minKeep > 0
    requires forall i :: 0 <= i < |w.segments| ==> w.segments[i].records != []
    ensures Synced(c, h, CompactThrough(w, index).0)
  {
    SyncedIsLastIndexed(c, h, w);
    var v := CompactThrough(w, index).0;
    var b := Boundary(w, index, Candidates(w));
    hide Records, EncodeAll, CompactThrough, RemovedIds, Retain, InSync, Ascending, LastIndexed, Indexed;
    CompactDropsFront(w, index);
    BelowIsRemoved(w, index);
    FilesWithout(w, index);
    KeptFilesAreKeptSegments(w, v, b);
    SuffixIsSynced(c, h, w, v, b);
  }

  lemma CompactDropsFront(w: PersistentWal, index: LogIndex)
    requires Ascending(Ids(w.segments)) && LastIndexed(w.segments) && Indexed(Records(w.segments))
    requires forall i :: 0 <= i < |w.segments| ==> w.segments[i].records != []
    ensures CompactThrough(w, index).0.segments == w.segments[Boundary(w, index, Candidates(w))..]
  {
    KeptSegments(w, index);
    hide *;
  }

  lemma SuffixIsSynced(c: Codec, h: Hash, w: PersistentWal, v: PersistentWal, b: nat)
    requires Synced(c, h, w) && b < |w.segments| && v.segments == w.segments[b..]
    requires v.nextSegmentId == w.nextSegmentId
    requires forall id :: id in v.files <==> id in Ids(v.segments)
    requires forall id :: id in v.files ==> id in w.files && v.files[id] == w.files[id]
    ensures Synced(c, h, v)
  {
    hide EncodeAll, Described;
    assert Ids(v.segments) == Ids(w.segments)[b..];
    forall i: nat | i < |v.segments| ensures InSync(c, h, v, i) {
      assert InSync(c, h, w, i + b);
      assert v.segments[i].segmentId == Ids(v.segments)[i];
    }
  }

  lemma KeptFilesAreKeptSegments(w: PersistentWal, v: PersistentWal, b: nat)
    requires WellShaped(w) && b <= |w.segments| && v.segments == w.segments[b..]
    requires forall id :: id in v.files ==> id in w.files
    requires forall i: nat :: i < |w.segments| ==> (w.segments[i].segmentId in v.files <==> i >= b)
    ensures forall id :: id in v.files <==> id in Ids(v.segments)
  {
  }

  lemma SyncedIsLastIndexed(c: Codec, h: Hash, w: PersistentWal)
    requires Synced(c, h, w)
    ensures LastIndexed(w.segments)
  {
    hide EncodeAll;
    forall i: nat | i < |w.segments| ensures Described(h, w.segments[i]) {
      assert InSync(c, h, w, i);
    }
  }

  lemma BelowIsRemoved(w: PersistentWal, index: LogIndex)
    requires Ascending(Ids(w.segments)) && LastIndexed(w.segments) && Indexed(Records(w.segments))
    requires forall i :: 0 <= i < |w.segments| ==> w.segments[i].records != []
    ensures forall i: nat :: i < |w.segments| ==>
              (w.segments[i].segmentId in RemovedIds(w, index) <==> i < Boundary(w, index, Candidates(w)))
  {
    BelowBoundary(w, index);
    hide Records, RemovedIds;
    forall i: nat | i < |w.segments|
      ensures w.segments[i].segmentId in RemovedIds(w, index) <==> i < Boundary(w, index, Candidates(w))
    {
      RemovedIsDropped(w, index, i);
    }
  }

  lemma FilesWithout(w: PersistentWal, index: LogIndex)
    ensures var v := CompactThrough(w, index).0;
            && v.files == w.files - RemovedIds(w, index)
            && v.options == w.options && v.nextSegmentId == w.nextSegmentId
  {
  }
}
