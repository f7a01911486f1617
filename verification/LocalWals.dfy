/** The in-memory log as an object that updates its segments in place. */
module LocalWals {
  import opened Types
  import opened WalModel
  import Model = LocalWalModel

  class LocalRaftWal {
    const hash: Hash
    var maxRecords: nat
    var segments: seq<Model.Segment>
    var nextSegmentId: nat

    function State(): Model.LocalWal
      reads this
    {
      Model.LocalWal(maxRecords, segments, nextSegmentId)
    }

    ghost predicate Valid()
      reads this
    {
      segments != [] && maxRecords > 0
    }

    constructor (hash: Hash, maxRecords: nat)
      requires maxRecords > 0
      ensures Valid() && this.hash == hash && State() == Model.New(maxRecords)
    {
      this.hash := hash;
      this.maxRecords := maxRecords;
      segments, nextSegmentId := [Model.EmptySegment(0)], 1;
    }

    method Append(r: WalRecord) returns (checksum: string)
      requires Valid()
      modifies this
      ensures Valid() && State() == Model.Append(hash, old(State()), r)
      ensures checksum == Checksum(hash, r)
    {
      var record := Sealed(hash, r);
      var n := |segments|;
      if |segments[n - 1].records| >= maxRecords {
        segments := segments[n - 1 := segments[n - 1].(isSealed := true)];
        segments := segments + [Model.EmptySegment(nextSegmentId)];
        nextSegmentId := nextSegmentId + 1;
        n := n + 1;
      }
      var index := RecordIndex(record);
      var segment := segments[n - 1];
      if segment.records == [] {
        segment := segment.(firstIndex := index);
      }
      segments := segments[n - 1 := segment.(lastIndex := index, records := segment.records + [record])];
      checksum := record.checksum;
    }

    method Recover() returns (report: Model.RecoveryReport)
      requires Valid()
      modifies this
      ensures Valid() && (State(), report) == Model.Recover(hash, old(State()))
    {
      var all := Model.Records(segments);
      var rs := all;
      while rs != [] && !ChecksumValid(hash, rs[|rs| - 1])
        invariant Model.Surviving(hash, rs) == Model.Surviving(hash, all)
        decreases |rs|
      {
        rs := rs[..|rs| - 1];
      }
      var truncated := |rs| != |all|;
      if truncated {
        segments, nextSegmentId := [Model.EmptySegment(0)], 1;
        ghost var start := State();
        for k := 0 to |rs|
          invariant Valid() && maxRecords == old(maxRecords)
          invariant Model.AppendAll(hash, State(), rs[k..]) == Model.AppendAll(hash, start, rs)
        {
          assert rs[k..][0] == rs[k] && rs[k..][1..] == rs[k + 1..];
          var _ := Append(rs[k]);
        }
      }
      report := Model.RecoveryReport(RecoverLatest(hash, rs), truncated, |rs|, |all| - |rs|);
    }
  }
}
