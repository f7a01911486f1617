/** The write-ahead log on disk: a directory of segment files, with rolling, reopening
    after a crash, and compaction. */
module PersistentWalModel {
  import opened Types
  import opened Ordering
  import opened WalModel
  import opened WalFileModel
  import opened LocalWalModel

  datatype Options = Options(maxRecords: nat, maxSegmentBytes: nat, minKeep: nat) {
    predicate Valid() { maxRecords > 0 && maxSegmentBytes > 0 && minKeep > 0 }
  }

  /** The directory maps segment ids to file contents. */
  datatype PersistentWal = PersistentWal(
    options: Options, files: map<nat, Bytes>, segments: seq<Segment>,
    nextSegmentId: nat, released: nat, truncatedSeen: bool)

  // ----- Opening -----

  function SegmentOf(c: Codec, h: Hash, id: nat, bytes: Bytes, isSealed: bool): Segment {
    SegmentWith(id, Read(c, h, bytes).records, isSealed)
  }

  function SegmentWith(id: nat, rs: seq<WalRecord>, isSealed: bool): Segment {
    Segment(id, if rs == [] then 0 else RecordIndex(rs[0]), if rs == [] then 0 else RecordIndex(rs[|rs| - 1]), rs, isSealed)
  }

  /** The segments of a directory in the order of their ids; all but the last are sealed. */
  function SegmentsIn(c: Codec, h: Hash, files: map<nat, Bytes>): seq<Segment> {
    var ids := SortedKeys(files.Keys);
    seq(|ids|, i requires 0 <= i < |ids| => SegmentOf(c, h, ids[i], files[ids[i]], i != |ids| - 1))
  }

  function TruncatedFiles(c: Codec, h: Hash, files: map<nat, Bytes>): map<nat, Bytes> {
    map id | id in files :: Truncate(c, h, files[id])
  }

  predicate AnyTruncated(c: Codec, h: Hash, files: map<nat, Bytes>) {
    exists id :: id in files && Read(c, h, files[id]).truncated
  }

  function Open(c: Codec, h: Hash, options: Options, files: map<nat, Bytes>): PersistentWal {
    var found := SegmentsIn(c, h, files);
    var kept := TruncatedFiles(c, h, files);
    if found == [] then PersistentWal(options, kept[0 := []], [EmptySegment(0)], 1, 0, false)
    else PersistentWal(options, kept, found, Last(found).segmentId + 1, 0, AnyTruncated(c, h, files))
  }

  lemma SomeSegment(c: Codec, h: Hash, files: map<nat, Bytes>)
    requires files.Keys != {}
    ensures var found := SegmentsIn(c, h, files);
            found != [] && Last(found).segmentId in TruncatedFiles(c, h, files)
  {
  }

  // ----- Appending -----

  function ActiveId(w: PersistentWal): nat
    requires w.segments != []
  {
    Last(w.segments).segmentId
  }

  predicate MustRoll(c: Codec, w: PersistentWal, r: WalRecord)
    requires w.segments != [] && ActiveId(w) in w.files
  {
    var active := |Last(w.segments).records|;
    || active >= w.options.maxRecords
    || (active > 0 && |w.files[ActiveId(w)]| + |EncodeLine(c, r)| > w.options.maxSegmentBytes)
  }

  /** Seals the active segment, rewriting its file, and opens an empty one. */
  function Roll(c: Codec, w: PersistentWal): PersistentWal
    requires w.segments != []
  {
    var n := |w.segments|;
    var active := Last(w.segments);
    w.(segments := w.segments[n - 1 := active.(isSealed := true)] + [EmptySegment(w.nextSegmentId)],
       files := w.files[active.segmentId := EncodeAll(c, active.records)][w.nextSegmentId := []],
       nextSegmentId := w.nextSegmentId + 1)
  }

  function WriteRecord(c: Codec, w: PersistentWal, r: WalRecord): PersistentWal
    requires w.segments != [] && ActiveId(w) in w.files
  {
    w.(segments := w.segments[|w.segments| - 1 := Filed(Last(w.segments), r)],
       files := w.files[ActiveId(w) := w.files[ActiveId(w)] + EncodeLine(c, r)])
  }

  function AppendRecord(c: Codec, h: Hash, w: PersistentWal, r: WalRecord): PersistentWal
    requires w.segments != [] && ActiveId(w) in w.files
  {
    var s := Sealed(h, r);
    WriteRecord(c, if MustRoll(c, w, s) then Roll(c, w) else w, s)
  }

  // ----- Compacting -----

  function RemovableIds(segments: seq<Segment>, index: LogIndex): set<nat> {
    set s | s in segments && 0 < s.lastIndex <= index :: s.segmentId
  }

  function Retain(segments: seq<Segment>, removed: set<nat>): seq<Segment> {
    if segments == [] then []
    else (if segments[0].segmentId in removed then [] else [segments[0]]) + Retain(segments[1..], removed)
  }

  function CompactThrough(w: PersistentWal, index: LogIndex): (PersistentWal, nat) {
    if |w.segments| <= w.options.minKeep then (w, 0)
    else
      var removed := RemovableIds(w.segments[..|w.segments| - w.options.minKeep], index);
      var kept := Retain(w.segments, removed);
      (w.(segments := kept, files := w.files - removed, released := w.released + |removed|), |removed|)
  }

  datatype StorageFence = StorageFence(
    committed: LogIndex, applied: LogIndex, durableApplied: LogIndex, flushed: LogIndex,
    installedSnapshot: LogIndex, firstRetained: LogIndex)

  predicate StorageFenceOk(f: StorageFence) {
    && f.applied <= f.committed && f.durableApplied <= f.applied && f.durableApplied <= f.flushed
    && f.installedSnapshot <= f.applied
    && (f.installedSnapshot > 0 ==> f.firstRetained > f.installedSnapshot)
  }

  /** Compaction under a storage fence; refused when the fence is invalid or behind. */
  function CompactWithFence(w: PersistentWal, index: LogIndex, f: StorageFence): (PersistentWal, Option<nat>) {
    if !StorageFenceOk(f) || f.durableApplied < index || f.flushed < index then (w, None)
    else
      var (v, released) := CompactThrough(w, index);
      (v, Some(released))
  }
}
