/** Segment numbering and the count of released segments over whole runs of appends, compactions
    and recoveries; which records are usable and where they are filed. */
module WalSteps {
  import opened Types
  import opened Ordering
  import opened WalModel
  import opened WalFileModel
  import opened PersistentWalModel
  import opened WalTheorems
  import opened LocalWalModel
  import C = ClusterModel
  import Members = MembershipModel
  import ClusterSteps

  // ----- Segments are released or present -----

  datatype Op = Write(record: WalRecord) | Compact(index: LogIndex) | Fenced(index: LogIndex, fence: StorageFence)

  /** Ids ascend below the next one, and the active segment has a file. */
  ghost predicate Numbered(w: PersistentWal) {
    && w.options.Valid() && w.segments != [] && Ascending(Ids(w.segments))
    && (forall i :: 0 <= i < |w.segments| ==> w.segments[i].segmentId < w.nextSegmentId && w.segments[i].segmentId in w.files)
  }

  function Apply(c: Codec, h: Hash, w: PersistentWal, op: Op): PersistentWal
    requires w.segments != [] && ActiveId(w) in w.files
  {
    match op
    case Write(r) => AppendRecord(c, h, w, r)
    case Compact(index) => CompactThrough(w, index).0
    case Fenced(index, fence) => CompactWithFence(w, index, fence).0
  }

  /** The segment ids that are gone between w and v. */
  ghost predicate Accounts(w: PersistentWal, v: PersistentWal) {
    && v.nextSegmentId >= w.nextSegmentId && v.released >= w.released
    && |v.segments| + (v.released - w.released) == |w.segments| + (v.nextSegmentId - w.nextSegmentId)
  }

  lemma AppendNumbers(c: Codec, h: Hash, w: PersistentWal, r: WalRecord)
    requires Numbered(w)
    ensures var v := AppendRecord(c, h, w, r); Numbered(v) && Accounts(w, v) && v.released == w.released
  {
    var u := if MustRoll(c, w, Sealed(h, r)) then Roll(c, w) else w;
    assert Numbered(u) && Accounts(w, u) by {
      hide EncodeAll, MustRoll;
    }
    hide MustRoll, Roll, Sealed;
    WriteNumbers(c, u, Sealed(h, r));
  }

  lemma WriteNumbers(c: Codec, u: PersistentWal, r: WalRecord)
    requires Numbered(u)
    ensures var v := WriteRecord(c, u, r);
            && Numbered(v) && |v.segments| == |u.segments| && v.nextSegmentId == u.nextSegmentId && v.released == u.released
  {
    hide EncodeLine;
  }

  /** The list without the ids keeps its order, and is shorter by as many as there are. */
  lemma {:induction false} RetainCounts(segments: seq<Segment>, removed: set<nat>)
    requires Ascending(Ids(segments)) && forall id :: id in removed ==> id in Ids(segments)
    ensures Leaves(segments, removed, Retain(segments, removed))
  {
    if segments == [] {
      NothingLeft(removed);
    } else {
      var first, rest := segments[0], segments[1..];
      var later := removed - {first.segmentId};
      RestAscends(segments);
      LaterInRest(segments, removed);
      RetainSame(rest, removed, later);
      assert Retain(segments, removed) == (if first.segmentId in removed then [] else [first]) + Retain(rest, removed);
      hide *;
      RetainCounts(rest, later);
      FirstLeaves(segments, removed, Retain(rest, later));
    }
  }

  ghost predicate Leaves(segments: seq<Segment>, removed: set<nat>, kept: seq<Segment>) {
    && Ascending(Ids(kept)) && |kept| + |removed| == |segments|
    && (forall s :: s in kept <==> s in segments && s.segmentId !in removed)
  }

  lemma NothingLeft(removed: set<nat>)
    requires forall id :: id in removed ==> id in Ids([])
    ensures Leaves([], removed, Retain([], removed))
  {
    assert |Ids([])| == 0;
    assert removed == {};
  }

  lemma RestAscends(segments: seq<Segment>)
    requires segments != [] && Ascending(Ids(segments))
    ensures Ascending(Ids(segments[1..])) && forall s :: s in segments[1..] ==> s.segmentId > segments[0].segmentId
  {
    var rest := segments[1..];
    assert Ids(segments) == [segments[0].segmentId] + Ids(rest);
    forall s | s in rest ensures s.segmentId > segments[0].segmentId {
      var i: nat :| i < |rest| && rest[i] == s;
      assert Ids(segments)[i + 1] == s.segmentId;
    }
  }

  lemma LaterInRest(segments: seq<Segment>, removed: set<nat>)
    requires segments != [] && Ascending(Ids(segments)) && forall id :: id in removed ==> id in Ids(segments)
    ensures var later := removed - {segments[0].segmentId};
            && (forall id :: id in later ==> id in Ids(segments[1..]))
            && (forall s :: s in segments[1..] ==> (s.segmentId in removed <==> s.segmentId in later))
  {
    RestAscends(segments);
    assert Ids(segments)[0] == segments[0].segmentId && Ids(segments)[1..] == Ids(segments[1..]);
    hide *;
    forall id | id in removed - {segments[0].segmentId} ensures id in Ids(segments[1..]) {
      InTail(Ids(segments), id);
    }
  }

  lemma InTail(ids: seq<nat>, id: nat)
    requires id in ids && id != ids[0]
    ensures id in ids[1..]
  {
  }

  lemma FirstLeaves(segments: seq<Segment>, removed: set<nat>, kept: seq<Segment>)
    requires segments != [] && forall s :: s in segments[1..] ==> s.segmentId > segments[0].segmentId
    requires Leaves(segments[1..], removed - {segments[0].segmentId}, kept)
    ensures Leaves(segments, removed, (if segments[0].segmentId in removed then [] else [segments[0]]) + kept)
  {
    var first, gone := segments[0], segments[0].segmentId in removed;
    FirstKept(first, kept, gone);
    assert segments == [first] + segments[1..];
    assert gone ==> removed == (removed - {first.segmentId}) + {first.segmentId};
    assert !gone ==> removed == removed - {first.segmentId};
    hide Ascending, Ids;
  }

  lemma FirstKept(first: Segment, rest: seq<Segment>, gone: bool)
    requires Ascending(Ids(rest)) && forall s :: s in rest ==> s.segmentId > first.segmentId
    ensures Ascending(Ids((if gone then [] else [first]) + rest))
  {
    if gone {
      assert [] + rest == rest;
    } else {
      assert forall i :: 0 <= i < |rest| ==> rest[i] in rest;
    }
  }

  lemma {:induction false} RetainSame(segments: seq<Segment>, removed: set<nat>, later: set<nat>)
    requires forall s :: s in segments ==> (s.segmentId in removed <==> s.segmentId in later)
    ensures Retain(segments, removed) == Retain(segments, later)
  {
    if segments != [] {
      assert segments[0] in segments;
      assert forall s :: s in segments[1..] ==> s in segments;
      RetainSame(segments[1..], removed, later);
    }
  }

  lemma RemovableArePresent(w: PersistentWal, n: nat, index: LogIndex)
    requires n <= |w.segments|
    ensures forall id :: id in RemovableIds(w.segments[..n], index) ==> id in Ids(w.segments)
  {
    var oldest := w.segments[..n];
    forall id | id in RemovableIds(oldest, index) ensures id in Ids(w.segments) {
      var s :| s in oldest && s.segmentId == id;
      var i: nat :| i < |oldest| && oldest[i] == s;
      assert Ids(w.segments)[i] == id;
    }
  }

  lemma KeptAreNumbered(w: PersistentWal, v: PersistentWal, removed: set<nat>)
    requires Numbered(w) && Leaves(w.segments, removed, v.segments) && v.segments != []
    requires v == w.(segments := v.segments, files := w.files - removed, released := v.released)
    ensures Numbered(v)
  {
    forall i | 0 <= i < |v.segments| ensures v.segments[i].segmentId < v.nextSegmentId && v.segments[i].segmentId in v.files {
      assert v.segments[i] in v.segments;
      var k: nat :| k < |w.segments| && w.segments[k] == v.segments[i];
    }
    hide Ascending, Ids;
  }

  /** Compaction reports, and adds to the released ones, exactly as many segments as are gone. */
  lemma CompactCounts(w: PersistentWal, index: LogIndex)
    requires Numbered(w)
    ensures var (v, count) := CompactThrough(w, index);
            && Numbered(v) && v.nextSegmentId == w.nextSegmentId
            && |v.segments| + count == |w.segments| && v.released == w.released + count
            && |v.segments| >= Min(|w.segments|, w.options.minKeep)
  {
    if |w.segments| > w.options.minKeep {
      var n := |w.segments| - w.options.minKeep;
      var removed := RemovableIds(w.segments[..n], index);
      RemovableArePresent(w, n, index);
      RetainCounts(w.segments, removed);
      RemovableAreFew(w.segments[..n], index);
      KeptAreNumbered(w, CompactThrough(w, index).0, removed);
    }
    hide Retain, RemovableIds, Ascending, Ids;
  }

  lemma {:induction false} RemovableAreFew(segments: seq<Segment>, index: LogIndex)
    ensures |RemovableIds(segments, index)| <= |segments|
  {
    if segments != [] {
      var rest := segments[1..];
      RemovableAreFew(rest, index);
      assert segments == [segments[0]] + rest;
      assert RemovableIds(segments, index) <= RemovableIds(rest, index) + {segments[0].segmentId};
      SubsetSize(RemovableIds(segments, index), RemovableIds(rest, index) + {segments[0].segmentId});
    }
  }

  lemma OpAccounts(c: Codec, h: Hash, w: PersistentWal, op: Op)
    requires Numbered(w)
    ensures Numbered(Apply(c, h, w, op)) && Accounts(w, Apply(c, h, w, op))
  {
    match op {
      case Write(r) => AppendNumbers(c, h, w, r);
      case Compact(index) => CompactCounts(w, index);
      case Fenced(index, fence) => CompactCounts(w, index);
    }
    hide AppendRecord, CompactThrough, StorageFenceOk;
  }

  ghost function Run(c: Codec, h: Hash, w: PersistentWal, ops: seq<Op>): PersistentWal
    requires Numbered(w)
    decreases |ops|
  {
    if ops == [] then w
    else
      OpAccounts(c, h, w, ops[0]);
      Run(c, h, Apply(c, h, w, ops[0]), ops[1..])
  }

  /** Main result: over any run of appends and compactions every segment that was ever opened is
      present or counted as released, no id is used twice, and the least number of segments
      stays. */
  lemma {:induction false} SegmentsAreAccounted(c: Codec, h: Hash, w: PersistentWal, ops: seq<Op>)
    requires Numbered(w)
    ensures Numbered(Run(c, h, w, ops)) && Accounts(w, Run(c, h, w, ops))
    decreases |ops|
  {
    if ops != [] {
      var v := Apply(c, h, w, ops[0]);
      OpAccounts(c, h, w, ops[0]);
      hide Apply, Numbered;
      SegmentsAreAccounted(c, h, v, ops[1..]);
    }
  }

  /** From an empty directory: the segments opened are those present and those released. */
  lemma EverySegmentIsAccounted(c: Codec, h: Hash, options: Options, ops: seq<Op>)
    requires options.Valid()
    ensures var w := Open(c, h, options, map[]);
            && Numbered(w)
            && var v := Run(c, h, w, ops);
            Numbered(v) && |v.segments| + v.released == v.nextSegmentId
  {
    var w := Open(c, h, options, map[]);
    assert Numbered(w) && w.released == 0 && |w.segments| == 1 && w.nextSegmentId == 1;
    hide Open, Run, Numbered;
    SegmentsAreAccounted(c, h, w, ops);
  }

  /** A fenced compaction goes ahead exactly when the fence is in order and durable up to the
      index; it then does what the plain one does, and otherwise nothing. */
  lemma FenceIsExact(w: PersistentWal, index: LogIndex, f: StorageFence)
    ensures var (v, count) := CompactWithFence(w, index, f);
            && (count.Some? <==>
                  && index <= f.durableApplied <= f.applied <= f.committed && f.durableApplied <= f.flushed
                  && f.installedSnapshot <= f.applied
                  && (f.installedSnapshot == 0 || f.installedSnapshot < f.firstRetained))
            && (count.Some? ==> (v, count.value) == CompactThrough(w, index))
            && (count.None? ==> v == w)
  {
    hide CompactThrough;
  }

  // ----- In memory -----

  datatype LocalOp = Append(record: WalRecord) | Recover

  /** Segments are numbered from zero, and all but the last are sealed. */
  ghost predicate LocalNumbered(w: LocalWal) {
    && w.segments != [] && w.nextSegmentId == |w.segments|
    && forall i :: 0 <= i < |w.segments| ==> w.segments[i].segmentId == i && w.segments[i].isSealed == (i < |w.segments| - 1)
  }

  function LocalApply(h: Hash, w: LocalWal, op: LocalOp): (v: LocalWal)
    requires w.segments != []
    ensures v.segments != []
  {
    match op
    case Append(r) => LocalWalModel.Append(h, w, r)
    case Recover => LocalWalModel.Recover(h, w).0
  }

  function LocalRun(h: Hash, w: LocalWal, ops: seq<LocalOp>): LocalWal
    requires w.segments != []
    decreases |ops|
  {
    if ops == [] then w else LocalRun(h, LocalApply(h, w, ops[0]), ops[1..])
  }

  lemma AppendKeepsNumbers(h: Hash, w: LocalWal, r: WalRecord)
    requires LocalNumbered(w)
    ensures LocalNumbered(LocalWalModel.Append(h, w, r))
  {
    hide Sealed;
  }

  lemma {:induction false} AppendAllKeepsNumbers(h: Hash, w: LocalWal, rs: seq<WalRecord>)
    requires LocalNumbered(w)
    ensures LocalNumbered(AppendAll(h, w, rs))
    decreases |rs|
  {
    if rs != [] {
      AppendKeepsNumbers(h, w, rs[0]);
      hide LocalWalModel.Append, LocalNumbered;
      AppendAllKeepsNumbers(h, LocalWalModel.Append(h, w, rs[0]), rs[1..]);
    }
  }

  /** Main result: so they are after any run of appends and recoveries of a new log. */
  lemma {:induction false} LocalSegmentsAreNumbered(h: Hash, w: LocalWal, ops: seq<LocalOp>)
    requires LocalNumbered(w)
    ensures LocalNumbered(LocalRun(h, w, ops))
    decreases |ops|
  {
    if ops != [] {
      match ops[0] {
        case Append(r) => AppendKeepsNumbers(h, w, r);
        case Recover => AppendAllKeepsNumbers(h, New(w.maxRecords), Surviving(h, Records(w.segments)));
      }
      assert LocalNumbered(LocalApply(h, w, ops[0])) by {
        hide LocalWalModel.Append, AppendAll, Surviving, Records;
      }
      hide LocalApply, LocalNumbered;
      LocalSegmentsAreNumbered(h, LocalApply(h, w, ops[0]), ops[1..]);
    }
  }

  // ----- What the checksum covers -----

  lemma ConcatCancels(a: seq<nat>, b: seq<nat>, c: seq<nat>, d: seq<nat>)
    requires |a| == |c|
    ensures a + b == c + d <==> a == c && b == d
  {
    assert (a + b)[..|a|] == a && (a + b)[|a|..] == b;
    assert (c + d)[..|c|] == c && (c + d)[|c|..] == d;
  }

  /** The same ids and payload lengths. */
  ghost predicate SameEntryIds(es: seq<LogEntry>, fs: seq<LogEntry>) {
    |es| == |fs| && forall i :: 0 <= i < |es| ==> es[i].logId == fs[i].logId && |es[i].payload| == |fs[i].payload|
  }

  lemma {:induction false} EntryWordCount(es: seq<LogEntry>)
    ensures |EntryWords(es)| == 3 * |es|
  {
    if es != [] {
      EntryWordCount(es[1..]);
    }
  }

  lemma {:induction false} EntryWordsTell(es: seq<LogEntry>, fs: seq<LogEntry>)
    requires |es| == |fs|
    ensures EntryWords(es) == EntryWords(fs) <==> SameEntryIds(es, fs)
  {
    if es != [] {
      var e, f := es[0], fs[0];
      var here, there := [e.logId.term, e.logId.index, |e.payload|], [f.logId.term, f.logId.index, |f.payload|];
      EntryWordsTell(es[1..], fs[1..]);
      ConcatCancels(here, EntryWords(es[1..]), there, EntryWords(fs[1..]));
      assert here == there <==> here[0] == there[0] && here[1] == there[1] && here[2] == there[2];
      assert SameEntryIds(es, fs) <==> SameEntryIds([e], [f]) && SameEntryIds(es[1..], fs[1..]) by {
        assert es == [e] + es[1..] && fs == [f] + fs[1..];
      }
    }
  }

  function IdWords(id: Option<LogId>): seq<nat> {
    match id case Some(i) => [i.term, i.index] case None => []
  }

  function SnapshotId(s: Option<SnapshotMeta>): Option<LogId> {
    match s case Some(meta) => Some(meta.lastLogId) case None => None
  }

  /** The same group, node, term, vote up to a missing one counting as node 0, commit, entry ids
      and payload lengths, snapshot index and fence. */
  ghost predicate SameCovered(r: WalRecord, q: WalRecord) {
    && r.groupId == q.groupId && r.nodeId == q.nodeId && r.hardState.currentTerm == q.hardState.currentTerm
    && r.hardState.votedFor.UnwrapOr(0) == q.hardState.votedFor.UnwrapOr(0)
    && r.hardState.committed == q.hardState.committed && SameEntryIds(r.entries, q.entries)
    && SnapshotId(r.installedSnapshot) == SnapshotId(q.installedSnapshot) && r.fence == q.fence
  }

  function HeadWords(r: WalRecord): seq<nat> {
    [r.groupId, r.nodeId, r.hardState.currentTerm, r.hardState.votedFor.UnwrapOr(0)]
  }

  function FenceWords(f: ApplySnapshotFence): seq<nat> {
    [f.appliedIndex, f.commitIndex, f.installedSnapshotIndex, f.firstRetainedLogIndex]
  }

  lemma WordsInParts(r: WalRecord)
    ensures CoveredWords(r)
            == HeadWords(r) + (IdWords(r.hardState.committed)
               + (EntryWords(r.entries) + (IdWords(SnapshotId(r.installedSnapshot)) + FenceWords(r.fence))))
  {
    hide EntryWords;
  }

  lemma HeadTells(r: WalRecord, q: WalRecord)
    ensures HeadWords(r) == HeadWords(q)
            <==> r.groupId == q.groupId && r.nodeId == q.nodeId && r.hardState.currentTerm == q.hardState.currentTerm
                 && r.hardState.votedFor.UnwrapOr(0) == q.hardState.votedFor.UnwrapOr(0)
  {
    var a, b := HeadWords(r), HeadWords(q);
    assert a == b <==> a[0] == b[0] && a[1] == b[1] && a[2] == b[2] && a[3] == b[3];
  }

  lemma FenceTells(f: ApplySnapshotFence, g: ApplySnapshotFence)
    ensures FenceWords(f) == FenceWords(g) <==> f == g
  {
    var a, b := FenceWords(f), FenceWords(g);
    assert a == b <==> a[0] == b[0] && a[1] == b[1] && a[2] == b[2] && a[3] == b[3];
  }

  lemma IdTells(a: Option<LogId>, b: Option<LogId>)
    ensures IdWords(a) == IdWords(b) <==> a == b
    ensures |IdWords(a)| == if a.Some? then 2 else 0
  {
    if a.Some? && b.Some? {
      var x, y := IdWords(a), IdWords(b);
      assert x == y <==> x[0] == y[0] && x[1] == y[1];
    }
  }

  /** The lengths of the parts leave one choice of shapes, once it is known whether there is a
      commit. */
  lemma ShapesAgree(r: WalRecord, q: WalRecord)
    requires r.hardState.committed.Some? == q.hardState.committed.Some?
    requires |CoveredWords(r)| == |CoveredWords(q)|
    ensures |r.entries| == |q.entries| && r.installedSnapshot.Some? == q.installedSnapshot.Some?
  {
    WordsInParts(r);
    WordsInParts(q);
    EntryWordCount(r.entries);
    EntryWordCount(q.entries);
    IdTells(r.hardState.committed, q.hardState.committed);
    IdTells(SnapshotId(r.installedSnapshot), SnapshotId(q.installedSnapshot));
    IdTells(SnapshotId(q.installedSnapshot), SnapshotId(r.installedSnapshot));
    IdTells(q.hardState.committed, r.hardState.committed);
    hide CoveredWords, EntryWords, IdWords;
  }

  lemma WordsTell(r: WalRecord, q: WalRecord)
    requires r.hardState.committed.Some? == q.hardState.committed.Some? && |r.entries| == |q.entries|
    requires r.installedSnapshot.Some? == q.installedSnapshot.Some?
    ensures CoveredWords(r) == CoveredWords(q) <==> SameCovered(r, q)
  {
    var (c1, c2) := (IdWords(r.hardState.committed), IdWords(q.hardState.committed));
    var (e1, e2) := (EntryWords(r.entries), EntryWords(q.entries));
    var (s1, s2) := (IdWords(SnapshotId(r.installedSnapshot)), IdWords(SnapshotId(q.installedSnapshot)));
    var (f1, f2) := (FenceWords(r.fence), FenceWords(q.fence));
    WordsInParts(r);
    WordsInParts(q);
    EntryWordCount(r.entries);
    EntryWordCount(q.entries);
    IdTells(r.hardState.committed, q.hardState.committed);
    IdTells(SnapshotId(r.installedSnapshot), SnapshotId(q.installedSnapshot));
    HeadTells(r, q);
    FenceTells(r.fence, q.fence);
    EntryWordsTell(r.entries, q.entries);
    ConcatCancels(HeadWords(r), c1 + (e1 + (s1 + f1)), HeadWords(q), c2 + (e2 + (s2 + f2)));
    ConcatCancels(c1, e1 + (s1 + f1), c2, e2 + (s2 + f2));
    ConcatCancels(e1, s1 + f1, e2, s2 + f2);
    ConcatCancels(s1, f1, s2, f2);
    hide CoveredWords, EntryWords, IdWords, SameEntryIds, FenceWords;
  }

  /** Main result: with a digest that tells the two lists of words apart, a record whose contents
      were changed under its checksum is still valid exactly when all that is covered is the
      same; in particular when only payload bytes or members changed. It takes that both or
      neither have a commit: the words of a commit can stand for those of a snapshot. */
  lemma ChecksumDetectsExactly(h: Hash, r: WalRecord, q: WalRecord)
    requires ChecksumValid(h, r) && q.checksum == r.checksum
    requires h(CoveredWords(r)) == h(CoveredWords(q)) ==> CoveredWords(r) == CoveredWords(q)
    requires r.hardState.committed.Some? == q.hardState.committed.Some?
    ensures ChecksumValid(h, q) <==> SameCovered(r, q)
  {
    if |CoveredWords(r)| == |CoveredWords(q)| {
      ShapesAgree(r, q);
      WordsTell(r, q);
    } else if SameCovered(r, q) {
      WordsTell(r, q);
    }
    hide CoveredWords;
  }

  /** Without that the words of two different records can be the same. */
  lemma CommitAndSnapshotAreConfused()
    ensures var fence := ApplySnapshotFence(0, 0, 0, 0);
            var m := Members.Membership(7, [1], [], [], 0);
            var r := WalRecord(7, 1, HardState(1, None, Some(LogId(1, 2))), m, [], None, fence, "");
            var q := WalRecord(7, 1, HardState(1, None, None), m, [], Some(SnapshotMeta("s", LogId(1, 2), [1])), fence, "");
            CoveredWords(r) == CoveredWords(q) && !SameCovered(r, q)
  {
  }

  // ----- Records -----

  /** The indices a restored node would have are in order: applied up to committed up to what it
      matches, under no later term, and its snapshot ends before the first entry it retains. */
  ghost predicate InOrder(n: C.Node, fence: ApplySnapshotFence) {
    && n.appliedIndex <= n.commitIndex
    && n.commitIndex == (if n.hardState.committed.Some? then n.hardState.committed.value.index else 0)
    && (n.hardState.committed.Some? ==>
          && n.hardState.committed.value.term <= n.hardState.currentTerm
          && n.commitIndex <= C.MatchIndex(n))
    && (n.installedSnapshot.Some? ==>
          var index := n.installedSnapshot.value.lastLogId.index;
          fence.installedSnapshotIndex == index
          && (fence.firstRetainedLogIndex == 0 || index < fence.firstRetainedLogIndex))
  }

  /** Main result: the validators accept exactly the records that restore a node in order. */
  lemma UsableExactly(n: C.Node, r: WalRecord)
    ensures Usable(r) <==> InOrder(C.RestoreNode(n, r), r.fence)
  {
  }

  /** The record of a node is filed under what the node has committed or, when its hard state has
      no commit, under its last entry. */
  lemma RecordIsFiledUnder(s: C.Cluster, h: Hash, id: NodeId)
    requires id in s.nodes
    ensures var n := s.nodes[id];
            RecordIndex(C.WalRecordFor(s, h, id).value)
            == if n.hardState.committed.Some? then n.hardState.committed.value.index
               else if n.log != [] then n.log[|n.log| - 1].logId.index else 0
  {
    ClusterSteps.RecordIsExact(s, h, id);
    hide C.WalRecordFor, ClusterSteps.ListsMembers;
  }
}
