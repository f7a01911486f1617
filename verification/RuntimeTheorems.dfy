/** Whole runs of the runtime: what its log holds, and what it recovers after a crash. */
module RuntimeTheorems {
  import opened Types
  import opened ClusterRuns
  import opened LogAgreement
  import opened CrashRecovery
  import opened Runtimes
  import C = ClusterModel
  import L = LocalWalModel
  import W = WalModel
  import Files = WalFileModel
  import Disk = PersistentWalModel
  import opened WalTheorems

  /** The log of the runtime of node id after a run: every step acts on the cluster, and a
      successful proposal also on the log. */
  function LogAfter(c: Files.Codec, h: W.Hash, s: C.Cluster, w: Disk.PersistentWal, id: NodeId, steps: seq<Step>)
    : Disk.PersistentWal
    requires Synced(c, h, w)
    decreases |steps|
  {
    if steps == [] then w
    else
      SyncedHasActiveFile(c, h, w);
      StepKeepsLogSynced(c, h, s, w, id, steps[0]);
      LogAfter(c, h, Next(s, steps[0]), LogStep(c, h, s, w, id, steps[0]), id, steps[1..])
  }

  function LogStep(c: Files.Codec, h: W.Hash, s: C.Cluster, w: Disk.PersistentWal, id: NodeId, step: Step): Disk.PersistentWal
    requires w.segments != [] && Disk.ActiveId(w) in w.files
  {
    if step.Propose? then ProposeAndRecord(c, h, s, w, id, step.payload).wal else w
  }

  /** A step appends the record of the state it recorded, or leaves the log alone. */
  lemma LogStepAppends(c: Files.Codec, h: W.Hash, s: C.Cluster, w: Disk.PersistentWal, id: NodeId, step: Step)
    requires w.segments != [] && Disk.ActiveId(w) in w.files
    ensures var rs := RecordsOf(h, RecordedAt(s, step, id), id);
            && (rs == [] ==> LogStep(c, h, s, w, id, step) == w)
            && (rs != [] ==> |rs| == 1 && LogStep(c, h, s, w, id, step) == Disk.AppendRecord(c, h, w, rs[0]))
  {
    if step.Propose? {
      NextPropose(s, step.payload);
    }
    hide C.Propose, Next, Disk.AppendRecord, C.MembershipOf, W.Sealed;
  }

  lemma StepKeepsLogSynced(c: Files.Codec, h: W.Hash, s: C.Cluster, w: Disk.PersistentWal, id: NodeId, step: Step)
    requires Synced(c, h, w) && w.segments != [] && Disk.ActiveId(w) in w.files
    ensures Synced(c, h, LogStep(c, h, s, w, id, step))
  {
    LogStepAppends(c, h, s, w, id, step);
    var rs := RecordsOf(h, RecordedAt(s, step, id), id);
    hide LogStep, Synced, RecordsOf, RecordedAt, HaveNode, Disk.AppendRecord, C.WalRecordFor;
    if rs != [] {
      AppendKeepsSynced(c, h, w, rs[0]);
    }
  }

  lemma RecordsOfConcat(h: W.Hash, a: seq<C.Cluster>, b: seq<C.Cluster>, id: NodeId)
    requires HaveNode(a, id) && HaveNode(b, id)
    ensures HaveNode(a + b, id) && RecordsOf(h, a + b, id) == RecordsOf(h, a, id) + RecordsOf(h, b, id)
  {
  }

  /** The log a runtime is left with is the one that appending the recorded states makes. */
  lemma {:induction false} LogHoldsRecordedStates(c: Files.Codec, h: W.Hash, s: C.Cluster, w: Disk.PersistentWal, id: NodeId,
                                                  steps: seq<Step>)
    requires Synced(c, h, w)
    ensures LogAfter(c, h, s, w, id, steps) == AppendAllTo(c, h, w, RecordsOf(h, Recorded(s, steps, id), id))
    decreases |steps|
  {
    if steps != [] {
      SyncedHasActiveFile(c, h, w);
      StepKeepsLogSynced(c, h, s, w, id, steps[0]);
      LogStepAppends(c, h, s, w, id, steps[0]);
      var v, t := LogStep(c, h, s, w, id, steps[0]), Next(s, steps[0]);
      hide LogStep, Next, Synced, RecordedAt, C.WalRecordFor, HaveNode;
      LogHoldsRecordedStates(c, h, t, v, id, steps[1..]);
      RecordedUnfold(s, steps, id);
      hide Recorded;
      RecordsOfConcat(h, RecordedAt(s, steps[0], id), Recorded(t, steps[1..], id), id);
      var first, rest := RecordsOf(h, RecordedAt(s, steps[0], id), id), RecordsOf(h, Recorded(t, steps[1..], id), id);
      hide RecordsOf;
      if first == [] {
        assert first + rest == rest;
      } else {
        assert (first + rest)[0] == first[0] && (first + rest)[1..] == rest;
      }
    }
  }

  /** Main result: run the runtime of a node from an empty directory, crash it with any bytes
      that hold no record at the end of the active file, reopen the directory, read it again
      and restore what recovery finds into any cluster of the group: the node has exactly the
      persistent state it had right after the last successful proposal. */
  lemma RuntimeRecoversExactly(s: C.Cluster, steps: seq<Step>, c: Files.Codec, h: W.Hash, options: Disk.Options, id: NodeId,
                               tail: Files.Bytes, into: C.Cluster)
    requires Agrees(s) && AllSafe(s) && id in s.nodes && GuardedRun(s, steps, id)
    requires Recorded(s, steps, id) != [] && id in into.nodes && into.groupId == s.groupId
    requires Files.Lawful(c) && Files.Read(c, h, tail).records == []
    ensures Synced(c, h, Disk.Open(c, h, options, map[]))
    ensures var w := LogAfter(c, h, s, Disk.Open(c, h, options, map[]), id, steps);
            w.segments != [] && Disk.ActiveId(w) in w.files
            && RecoversTo(c, h, options, Crashed(w, tail), into, id, Last(Recorded(s, steps, id)).nodes[id])
  {
    LogIsWritten(s, steps, c, h, options, id);
    DiskRecoveryIsExact(s, steps, c, h, options, id, tail, into);
    hide LogAfter, Disk.Open, Synced, Recorded, RecordsOf, Crashed, Agrees, AllSafe, GuardedRun, RecoversTo;
  }

  lemma LogIsWritten(s: C.Cluster, steps: seq<Step>, c: Files.Codec, h: W.Hash, options: Disk.Options, id: NodeId)
    ensures Synced(c, h, Disk.Open(c, h, options, map[]))
    ensures LogAfter(c, h, s, Disk.Open(c, h, options, map[]), id, steps)
            == Written(c, h, options, RecordsOf(h, Recorded(s, steps, id), id))
  {
    NewLogIsSynced(c, h, options);
    LogHoldsRecordedStates(c, h, s, Disk.Open(c, h, options, map[]), id, steps);
    hide LogAfter, Disk.Open, Synced, Recorded, RecordsOf;
  }

  /** Main result: the same when the crash comes while the runtime appends the record of its
      next successful proposal, at any byte of the line: the node has the persistent state
      after that proposal when the record was written whole, with or without its newline, and
      after the one before it otherwise. */
  lemma RuntimeSurvivesAppend(s: C.Cluster, steps: seq<Step>, payload: Payload, c: Files.Codec, h: W.Hash,
                              options: Disk.Options, id: NodeId, n: nat, into: C.Cluster)
    requires Agrees(s) && AllSafe(s) && id in s.nodes && GuardedRun(s, steps + [Propose(payload)], id)
    requires Records(Run(s, steps), Propose(payload), id) && id in into.nodes && into.groupId == s.groupId
    requires Files.Lawful(c) && Files.Delimited(c)
    requires var r := RecordOf(h, Next(Run(s, steps), Propose(payload)), id);
             n <= |Files.EncodeLine(c, r)| && (n < |c.encode(r)| ==> Recorded(s, steps, id) != [])
    ensures Synced(c, h, Disk.Open(c, h, options, map[]))
    ensures var w := LogAfter(c, h, s, Disk.Open(c, h, options, map[]), id, steps);
            var before, last := Recorded(s, steps, id), Next(Run(s, steps), Propose(payload));
            var r := RecordOf(h, last, id);
            && n <= |Files.EncodeLine(c, W.Sealed(h, r))| && Synced(c, h, w) && w.segments != [] && Disk.ActiveId(w) in w.files
            && RecoversTo(c, h, options, CrashedInAppend(c, h, w, r, n), into, id,
                          (if n >= |c.encode(r)| then last else Last(before)).nodes[id])
  {
    hide LogAfter, Disk.Open, Synced, Recorded, RecordsOf, CrashedInAppend, Agrees, AllSafe, GuardedRun, RecoversTo, RecordOf;
    hide Written, Next, Run, Records, Files.Lawful, Files.Delimited, W.Sealed, Files.EncodeLine, Last, HaveNode;
    LogIsWritten(s, steps, c, h, options, id);
    CrashInAppendIsExact(s, steps, Propose(payload), c, h, options, id, n, into);
  }

  /** Main result: when the crash comes while a roll of the log rewrites the sealed file, the node
      has the persistent state at the last record that is left; that is the last one exactly
      when at most the last newline of the file is missing. */
  lemma RuntimeSurvivesRoll(s: C.Cluster, steps: seq<Step>, c: Files.Codec, h: W.Hash, options: Disk.Options, id: NodeId,
                            n: nat, into: C.Cluster)
    requires Agrees(s) && AllSafe(s) && id in s.nodes && GuardedRun(s, steps, id)
    requires id in into.nodes && into.groupId == s.groupId && Files.Lawful(c) && Files.Delimited(c)
    requires Synced(c, h, Disk.Open(c, h, options, map[]))
    requires var w := LogAfter(c, h, s, Disk.Open(c, h, options, map[]), id, steps);
             && w.segments != [] && n <= |Files.EncodeAll(c, L.Last(w.segments).records)| && LeftInRoll(c, w, n) > 0
    ensures var w := LogAfter(c, h, s, Disk.Open(c, h, options, map[]), id, steps);
            var states, k := Recorded(s, steps, id), LeftInRoll(c, w, n);
            && k <= |states| && RecoversTo(c, h, options, CrashedInRoll(c, w, n), into, id, states[k - 1].nodes[id])
            && (k == |states| <==> n + 1 >= |Files.EncodeAll(c, L.Last(w.segments).records)|)
  {
    hide *;
    var states := Recorded(s, steps, id);
    LogIsWritten(s, steps, c, h, options, id);
    RecordedTrace(s, steps, id);
    RecordedGroups(s, steps, id);
    CrashedRollRestores(states, c, h, options, id, n, into);
    RecordsAreSealed(states, h, id);
    CrashInRollKeepsExactly(c, h, Written(c, h, options, RecordsOf(h, states, id)), n);
  }
}
