/** The in-memory segmented write-ahead log: append with rolling, and recovery that drops
    a corrupt tail. */
module LocalWalModel {
  import opened Types
  import opened WalModel

  datatype Segment = Segment(
    segmentId: nat, firstIndex: LogIndex, lastIndex: LogIndex, records: seq<WalRecord>, isSealed: bool)

  datatype LocalWal = LocalWal(maxRecords: nat, segments: seq<Segment>, nextSegmentId: nat)

  function EmptySegment(id: nat): Segment {
    Segment(id, 0, 0, [], false)
  }

  function New(maxRecords: nat): LocalWal {
    LocalWal(maxRecords, [EmptySegment(0)], 1)
  }

  function Records(segments: seq<Segment>): seq<WalRecord> {
    if segments == [] then [] else segments[0].records + Records(segments[1..])
  }

  /** Files a record in a segment. */
  function Filed(s: Segment, r: WalRecord): Segment {
    s.(firstIndex := if s.records == [] then RecordIndex(r) else s.firstIndex,
       lastIndex := RecordIndex(r), records := s.records + [r])
  }

  function Last(segments: seq<Segment>): Segment
    requires segments != []
  {
    segments[|segments| - 1]
  }

  function Rolled(w: LocalWal): LocalWal
    requires w.segments != []
  {
    var n := |w.segments|;
    w.(segments := w.segments[n - 1 := Last(w.segments).(isSealed := true)] + [EmptySegment(w.nextSegmentId)],
       nextSegmentId := w.nextSegmentId + 1)
  }

  function Append(h: Hash, w: LocalWal, r: WalRecord): (a: LocalWal)
    requires w.segments != []
    ensures a.segments != [] && a.maxRecords == w.maxRecords
  {
    var v := if |Last(w.segments).records| >= w.maxRecords then Rolled(w) else w;
    v.(segments := v.segments[|v.segments| - 1 := Filed(Last(v.segments), Sealed(h, r))])
  }

  function AppendAll(h: Hash, w: LocalWal, rs: seq<WalRecord>): (a: LocalWal)
    requires w.segments != []
    ensures a.segments != []
    decreases |rs|
  {
    if rs == [] then w else AppendAll(h, Append(h, w, rs[0]), rs[1..])
  }

  /** The records without the longest suffix of records with an invalid checksum. */
  function Surviving(h: Hash, rs: seq<WalRecord>): (s: seq<WalRecord>)
    ensures |s| <= |rs| && s == rs[..|s|]
    ensures s != [] ==> ChecksumValid(h, s[|s| - 1])
    ensures forall k :: |s| <= k < |rs| ==> !ChecksumValid(h, rs[k])
  {
    if rs == [] || ChecksumValid(h, rs[|rs| - 1]) then rs else Surviving(h, rs[..|rs| - 1])
  }

  datatype RecoveryReport = RecoveryReport(
    recovered: Option<WalRecord>, truncated: bool, survivingRecords: nat, removedRecords: nat)

  function Recover(h: Hash, w: LocalWal): (LocalWal, RecoveryReport)
    requires w.segments != []
  {
    var all := Records(w.segments);
    var rs := Surviving(h, all);
    var truncated := |rs| != |all|;
    (if truncated then AppendAll(h, New(w.maxRecords), rs) else w,
     RecoveryReport(RecoverLatest(h, rs), truncated, |rs|, |all| - |rs|))
  }

  // ----- What append and recovery keep -----

  lemma {:induction false} RecordsAppend(a: seq<Segment>, b: seq<Segment>)
    ensures Records(a + b) == Records(a) + Records(b)
  {
    if a == [] {
      assert a + b == b;
    } else {
      assert (a + b)[1..] == a[1..] + b;
      RecordsAppend(a[1..], b);
    }
  }

  lemma RecordsOfLast(segments: seq<Segment>)
    requires segments != []
    ensures Records(segments) == Records(segments[..|segments| - 1]) + Last(segments).records
  {
    var n := |segments| - 1;
    RecordsAppend(segments[..n], [Last(segments)]);
    assert segments == segments[..n] + [Last(segments)];
    assert Records([Last(segments)]) == Last(segments).records + Records([]);
  }

  lemma ReplaceLastRecords(segments: seq<Segment>, s: Segment)
    requires segments != []
    ensures Records(segments[|segments| - 1 := s]) == Records(segments[..|segments| - 1]) + s.records
  {
    var n := |segments| - 1;
    assert segments[n := s][..n] == segments[..n];
    RecordsOfLast(segments[n := s]);
  }

  lemma EmptyHasNoRecords(id: nat)
    ensures Records([EmptySegment(id)]) == []
  {
  }

  /** Appending adds exactly the record, with its checksum computed, whether or not it
      rolls the segment. */
  lemma AppendAddsRecord(h: Hash, w: LocalWal, r: WalRecord)
    requires w.segments != []
    ensures Records(Append(h, w, r).segments) == Records(w.segments) + [Sealed(h, r)]
  {
    hide Records;
    var v := if |Last(w.segments).records| >= w.maxRecords then Rolled(w) else w;
    if v != w {
      EmptyHasNoRecords(w.nextSegmentId);
      ReplaceLastRecords(w.segments, Last(w.segments).(isSealed := true));
      RecordsOfLast(w.segments);
      RecordsAppend(w.segments[|w.segments| - 1 := Last(w.segments).(isSealed := true)], [EmptySegment(w.nextSegmentId)]);
    }
    RecordsOfLast(v.segments);
    ReplaceLastRecords(v.segments, Filed(Last(v.segments), Sealed(h, r)));
    assert Records(v.segments) == Records(w.segments);
  }

  function SealAll(h: Hash, rs: seq<WalRecord>): (s: seq<WalRecord>)
    ensures |s| == |rs|
    ensures forall k :: 0 <= k < |rs| ==> s[k] == Sealed(h, rs[k])
  {
    seq(|rs|, k requires 0 <= k < |rs| => Sealed(h, rs[k]))
  }

  lemma {:induction false} AppendAllAddsRecords(h: Hash, w: LocalWal, rs: seq<WalRecord>)
    requires w.segments != []
    ensures Records(AppendAll(h, w, rs).segments) == Records(w.segments) + SealAll(h, rs)
    ensures AppendAll(h, w, rs).maxRecords == w.maxRecords
    decreases |rs|
  {
    if rs == [] {
      assert SealAll(h, rs) == [];
    } else {
      hide Records, Append, Sealed;
      AppendAddsRecord(h, w, rs[0]);
      AppendAllAddsRecords(h, Append(h, w, rs[0]), rs[1..]);
      ConcatAssociative(Records(w.segments), [Sealed(h, rs[0])], SealAll(h, rs[1..]));
      assert SealAll(h, rs) == [Sealed(h, rs[0])] + SealAll(h, rs[1..]);
    }
  }

  ghost predicate AllValid(h: Hash, rs: seq<WalRecord>) {
    forall k :: 0 <= k < |rs| ==> ChecksumValid(h, rs[k])
  }

  lemma SurvivingIsGood(h: Hash, good: seq<WalRecord>, bad: seq<WalRecord>)
    requires AllValid(h, good) && forall k :: 0 <= k < |bad| ==> !ChecksumValid(h, bad[k])
    ensures Surviving(h, good + bad) == good
  {
    var all := good + bad;
    var n := |Surviving(h, all)|;
    forall i | 0 <= i < |all| ensures ChecksumValid(h, all[i]) <==> i < |good| {
      assert all[i] == if i < |good| then good[i] else bad[i - |good|];
    }
    assert n > 0 ==> ChecksumValid(h, all[n - 1]);
    assert n < |all| ==> !ChecksumValid(h, all[n]);
    assert all[..|good|] == good;
  }

  /** Main result: when the log holds valid records followed by a corrupted suffix, recovery
      keeps exactly the valid ones, reports the loss, and recovers the best of them. */
  lemma RecoverDropsCorruptSuffix(h: Hash, w: LocalWal, good: seq<WalRecord>, bad: seq<WalRecord>)
    requires w.segments != [] && Records(w.segments) == good + bad
    requires AllValid(h, good) && forall k :: 0 <= k < |bad| ==> !ChecksumValid(h, bad[k])
    ensures var (v, report) := Recover(h, w);
            && Records(v.segments) == good
            && report == RecoveryReport(RecoverLatest(h, good), bad != [], |good|, |bad|)
  {
    SurvivingIsGood(h, good, bad);
    AppendAllAddsRecords(h, New(w.maxRecords), good);
    assert Records(New(w.maxRecords).segments) == [];
    assert SealAll(h, good) == good;
  }

  /** Some valid records and then only corrupt ones. */
  ghost predicate ValidThenCorrupt(h: Hash, rs: seq<WalRecord>) {
    exists n: nat :: n <= |rs| && SplitsAt(h, rs, n)
  }

  ghost predicate SplitsAt(h: Hash, rs: seq<WalRecord>, n: nat)
    requires n <= |rs|
  {
    AllValid(h, rs[..n]) && forall k :: n <= k < |rs| ==> !ChecksumValid(h, rs[k])
  }

  /** A truncating recovery seals every record that survives anew. */
  lemma RecoverySeals(h: Hash, w: LocalWal)
    requires w.segments != []
    ensures var all := Records(w.segments);
            Records(Recover(h, w).0.segments)
            == if Surviving(h, all) == all then all else SealAll(h, Surviving(h, all))
  {
    var rs := Surviving(h, Records(w.segments));
    AppendAllAddsRecords(h, New(w.maxRecords), rs);
    assert Records(New(w.maxRecords).segments) == [];
    assert [] + SealAll(h, rs) == SealAll(h, rs);
  }

  /** Main result on what recovery rewrites: it only drops records from the end exactly when
      the last record is valid or no corrupt record stands before a valid one; otherwise it
      turns a corrupt record into a valid one. */
  lemma RecoveryKeepsRecordsExactly(h: Hash, w: LocalWal)
    requires w.segments != []
    ensures var all := Records(w.segments);
            Records(Recover(h, w).0.segments) <= all
            <==> all == [] || ChecksumValid(h, all[|all| - 1]) || ValidThenCorrupt(h, all)
  {
    RecoverySeals(h, w);
    var all := Records(w.segments);
    hide Recover, Records, Surviving, ValidThenCorrupt;
    if Surviving(h, all) != all {
      SealedIsPrefixExactly(h, all);
    }
    SurvivesWhenLastValid(h, all);
  }

  lemma SurvivesWhenLastValid(h: Hash, all: seq<WalRecord>)
    ensures Surviving(h, all) == all <==> all == [] || ChecksumValid(h, all[|all| - 1])
  {
  }

  lemma SealedIsPrefixExactly(h: Hash, all: seq<WalRecord>)
    requires Surviving(h, all) != all
    ensures SealAll(h, Surviving(h, all)) <= all <==> ValidThenCorrupt(h, all)
  {
    var rs := Surviving(h, all);
    hide Surviving, ValidThenCorrupt, SealAll, ChecksumValid;
    if AllValid(h, rs) {
      SplitIsValidThenCorrupt(h, all, |rs|);
      assert SealAll(h, rs) == rs;
    } else {
      var k :| 0 <= k < |rs| && !ChecksumValid(h, rs[k]);
      assert SealAll(h, rs)[k] == Sealed(h, rs[k]) != all[k];
      NotSplit(h, all, k, |rs| - 1);
    }
  }

  lemma SplitIsValidThenCorrupt(h: Hash, rs: seq<WalRecord>, n: nat)
    requires n <= |rs| && SplitsAt(h, rs, n)
    ensures ValidThenCorrupt(h, rs)
  {
  }

  lemma NotSplit(h: Hash, rs: seq<WalRecord>, bad: nat, good: nat)
    requires bad < good < |rs| && !ChecksumValid(h, rs[bad]) && ChecksumValid(h, rs[good])
    ensures !ValidThenCorrupt(h, rs)
  {
    forall n: nat | n <= |rs| ensures !SplitsAt(h, rs, n) {
      assert bad < n ==> !ChecksumValid(h, rs[..n][bad]);
    }
  }
}
