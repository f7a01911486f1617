/** The log on disk as an object that updates its segment list in place. */
module PersistentWals {
  import opened Types
  import opened Ordering
  import opened WalModel
  import opened WalFileModel
  import opened WalFiles
  import opened LocalWalModel
  import Model = PersistentWalModel

  /** The files with the given ids. */
  function Restrict(files: map<nat, Bytes>, ids: seq<nat>): map<nat, Bytes> {
    map id | id in files && id in ids :: files[id]
  }

  lemma AddFile(c: Codec, h: Hash, files: map<nat, Bytes>, id: nat, bytes: Bytes)
    requires id !in files
    ensures Model.TruncatedFiles(c, h, files[id := bytes]) == Model.TruncatedFiles(c, h, files)[id := Truncate(c, h, bytes)]
    ensures Model.AnyTruncated(c, h, files[id := bytes]) <==> Model.AnyTruncated(c, h, files) || Read(c, h, bytes).truncated
  {
    var more := files[id := bytes];
    if Model.AnyTruncated(c, h, files) {
      var k :| k in files && Read(c, h, files[k]).truncated;
      assert k in more && Read(c, h, more[k]).truncated;
    }
    assert id in more;
  }

  lemma RestrictStep(files: map<nat, Bytes>, ids: seq<nat>, i: nat)
    requires i < |ids| && ids[i] in files && Ascending(ids)
    ensures Restrict(files, ids[..i + 1]) == Restrict(files, ids[..i])[ids[i] := files[ids[i]]]
    ensures ids[i] !in Restrict(files, ids[..i])
  {
    assert ids[..i + 1] == ids[..i] + [ids[i]];
  }

  lemma TakeOneMore<T>(s: seq<T>, i: nat)
    requires i < |s|
    ensures s[..i + 1] == s[..i] + [s[i]]
  {
  }

  /** Reads every segment file in the order of ids, truncating corrupt tails. */
  method ReadDirectory(c: Codec, h: Hash, files: map<nat, Bytes>)
    returns (segments: seq<Segment>, kept: map<nat, Bytes>, anyTruncated: bool)
    ensures segments == Model.SegmentsIn(c, h, files) && kept == Model.TruncatedFiles(c, h, files)
    ensures anyTruncated <==> Model.AnyTruncated(c, h, files)
  {
    var ids := SortedKeys(files.Keys);
    ghost var found := Model.SegmentsIn(c, h, files);
    segments, kept, anyTruncated := [], map[], false;
    for i := 0 to |ids|
      invariant segments == found[..i]
      invariant kept == Model.TruncatedFiles(c, h, Restrict(files, ids[..i]))
      invariant anyTruncated == Model.AnyTruncated(c, h, Restrict(files, ids[..i]))
    {
      var id := ids[i];
      assert id in files.Keys;
      RestrictStep(files, ids, i);
      AddFile(c, h, Restrict(files, ids[..i]), id, files[id]);
      var records, truncated, left := ReadSegmentFile(c, h, files[id]);
      var segment := Model.SegmentWith(id, records, i != |ids| - 1);
      assert found[i] == segment;
      TakeOneMore(found, i);
      segments := segments + [segment];
      kept := kept[id := left];
      anyTruncated := anyTruncated || truncated;
    }
    assert Restrict(files, ids[..|ids|]) == files;
  }

  class PersistentRaftWal {
    const codec: Codec
    const hash: Hash
    const options: Model.Options
    var files: map<nat, Bytes>
    var segments: seq<Segment>
    var nextSegmentId: nat
    var released: nat
    var truncatedSeen: bool

    function State(): Model.PersistentWal
      reads this
    {
      Model.PersistentWal(options, files, segments, nextSegmentId, released, truncatedSeen)
    }

    ghost predicate Valid()
      reads this
    {
      options.Valid() && segments != [] && segments[|segments| - 1].segmentId in files
    }

    constructor (codec: Codec, hash: Hash, options: Model.Options, files: map<nat, Bytes>)
      requires options.Valid()
      ensures this.codec == codec && this.hash == hash && this.options == options
      ensures Valid() && State() == Model.Open(codec, hash, options, files)
    {
      this.codec, this.hash, this.options := codec, hash, options;
      this.files, segments, nextSegmentId, released, truncatedSeen := files, [], 0, 0, false;
      new;
      segments, this.files, truncatedSeen := ReadDirectory(codec, hash, files);
      if segments == [] {
        segments := [EmptySegment(0)];
        this.files := this.files[0 := []];
      }
      nextSegmentId := segments[|segments| - 1].segmentId + 1;
    }

    method Append(r: WalRecord) returns (checksum: string)
      requires Valid()
      modifies this
      ensures Valid() && State() == Model.AppendRecord(codec, hash, old(State()), r)
      ensures checksum == Checksum(hash, r)
    {
      var record := Sealed(hash, r);
      var line := EncodeLine(codec, record);
      var active := segments[|segments| - 1];
      if |active.records| >= options.maxRecords
         || (|active.records| > 0 && |files[active.segmentId]| + |line| > options.maxSegmentBytes) {
        RollSegment();
        active := segments[|segments| - 1];
      }
      files := files[active.segmentId := files[active.segmentId] + line];
      var index := RecordIndex(record);
      if active.records == [] {
        active := active.(firstIndex := index);
      }
      segments := segments[|segments| - 1 := active.(lastIndex := index, records := active.records + [record])];
      checksum := record.checksum;
    }

    method RollSegment()
      requires Valid()
      modifies this
      ensures Valid() && State() == Model.Roll(codec, old(State()))
    {
      var n := |segments|;
      segments := segments[n - 1 := segments[n - 1].(isSealed := true)];
      files := files[segments[n - 1].segmentId := EncodeAll(codec, segments[n - 1].records)];
      var id := nextSegmentId;
      nextSegmentId := nextSegmentId + 1;
      files := files[id := []];
      segments := segments + [EmptySegment(id)];
    }

    method CompactThrough(index: LogIndex) returns (count: nat)
      requires Valid()
      modifies this
      ensures (State(), count) == Model.CompactThrough(old(State()), index)
    {
      if |segments| <= options.minKeep {
        return 0;
      }
      var candidates := segments[..|segments| - options.minKeep];
      var removed := set s | s in candidates && 0 < s.lastIndex <= index :: s.segmentId;
      files := files - removed;
      segments := Model.Retain(segments, removed);
      released := released + |removed|;
      return |removed|;
    }

    method CompactThroughWithFence(index: LogIndex, fence: Model.StorageFence) returns (count: Option<nat>)
      requires Valid()
      modifies this
      ensures (State(), count) == Model.CompactWithFence(old(State()), index, fence)
    {
      if !Model.StorageFenceOk(fence) {
        return None;
      }
      if fence.durableApplied < index || fence.flushed < index {
        return None;
      }
      var n := CompactThrough(index);
      return Some(n);
    }

    /** Rereads the directory and returns the recovered record. */
    method Recover() returns (recovered: Option<WalRecord>)
      requires Valid()
      modifies this
      ensures Valid() && released == old(released)
      ensures segments == Model.SegmentsIn(codec, hash, old(files))
      ensures files == Model.TruncatedFiles(codec, hash, old(files))
      ensures nextSegmentId == Last(segments).segmentId + 1
      ensures truncatedSeen <==> old(truncatedSeen) || Model.AnyTruncated(codec, hash, old(files))
      ensures recovered == RecoverLatest(hash, Records(segments))
    {
      hide Model.SegmentsIn, Model.TruncatedFiles, Model.AnyTruncated, RecoverLatest, Records;
      assert segments[|segments| - 1].segmentId in files.Keys;
      Model.SomeSegment(codec, hash, files);
      var truncated;
      segments, files, truncated := ReadDirectory(codec, hash, files);
      nextSegmentId := segments[|segments| - 1].segmentId + 1;
      truncatedSeen := truncatedSeen || truncated;
      recovered := RecoverLatest(hash, Records(segments));
    }
  }
}
