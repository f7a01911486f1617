/** Crash recovery: after any corruption of the end of the log, recovering and restoring
    gives a node back exactly what it had at the last record that survived. */
module CrashRecovery {
  import opened Types
  import opened Ordering
  import opened ClusterRuns
  import opened LogAgreement
  import opened CommitRule
  import C = ClusterModel
  import P = PipelineModel
  import W = WalModel
  import L = LocalWalModel
  import Files = WalFileModel
  import Disk = PersistentWalModel
  import DiskTheorems = WalTheorems

  // ----- What makes a node recoverable -----

  /** Applied, commit and match indices are in order, and the hard state records the commit. */
  ghost predicate NodeSafe(n: C.Node) {
    && n.appliedIndex <= n.commitIndex <= C.MatchIndex(n)
    && match n.hardState.committed
       case None => n.commitIndex == 0
       case Some(id) => id.index == n.commitIndex && id.term <= n.hardState.currentTerm
  }

  ghost predicate AllSafe(s: C.Cluster) {
    forall id :: id in s.nodes ==> NodeSafe(s.nodes[id])
  }

  lemma AdvanceKeepsSafe(n: C.Node, index: LogIndex)
    requires n.appliedIndex <= n.commitIndex <= C.MatchIndex(n)
    ensures var m := C.AdvanceCommit(n, index); NodeSafe(m) && m.commitIndex >= n.commitIndex
  {
  }

  lemma LastAbove(log: seq<LogEntry>, index: LogIndex)
    requires AscendingLog(log)
    ensures W.LastEntryIndex(C.EntriesAbove(log, index))
            == if W.LastEntryIndex(log) > index then W.LastEntryIndex(log) else 0
  {
  }

  /** A snapshot leaves a node recoverable exactly when it, or the entries above it, reach
      the commit index. */
  lemma InstallSafeExactlyWhen(n: C.Node, meta: SnapshotMeta)
    requires NodeSafe(n) && AscendingLog(n.log)
    ensures NodeSafe(C.InstallSnapshot(n, meta))
            <==> n.commitIndex <= Max(meta.lastLogId.index, W.LastEntryIndex(n.log))
  {
    LastAbove(n.log, meta.lastLogId.index);
    hide C.EntriesAbove;
  }

  /** Compaction leaves a node recoverable exactly when it keeps the last entry or the
      installed snapshot reaches the commit index. */
  lemma CompactSafeExactlyWhen(n: C.Node, index: LogIndex)
    requires NodeSafe(n) && AscendingLog(n.log)
    ensures NodeSafe(C.CompactLog(n, index))
            <==> W.LastEntryIndex(n.log) > index || n.commitIndex <= W.SnapshotIndex(n.installedSnapshot)
  {
    LastAbove(n.log, index);
    hide C.EntriesAbove;
  }

  /** What a caller must check before a step: a snapshot or a compaction may not take a node
      back behind its commit index. */
  ghost predicate Guarded(s: C.Cluster, step: Step) {
    match step
    case InstallSnapshot(id, snapshot, fence) =>
      id in s.nodes && C.InstallSnapshotTo(s, id, snapshot, fence).1.Ok? ==>
        s.nodes[id].commitIndex <= Max(snapshot.meta.lastLogId.index, W.LastEntryIndex(s.nodes[id].log))
    case Compact(index) =>
      forall id :: id in s.nodes ==>
        W.LastEntryIndex(s.nodes[id].log) > index || s.nodes[id].commitIndex <= W.SnapshotIndex(s.nodes[id].installedSnapshot)
    case _ => true
  }

  /** Every node of s that is still in t is recoverable there and committed no less, and so
      are the new ones. */
  ghost predicate SafeStep(s: C.Cluster, t: C.Cluster) {
    && AllSafe(t)
    && forall id :: id in s.nodes && id in t.nodes ==> t.nodes[id].commitIndex >= s.nodes[id].commitIndex
  }

  lemma RefreshCommitIsSafe(s: C.Cluster)
    requires AllSafe(s)
    ensures SafeStep(s, C.RefreshCommit(s))
  {
    hide C.QuorumIndex, C.MaxCommit, C.MaxMatch, C.MinApplied, C.Keys;
    if C.QuorumIndex(s).Some? {
      forall id | id in s.nodes
        ensures NodeSafe(C.RefreshCommit(s).nodes[id]) && C.RefreshCommit(s).nodes[id].commitIndex >= s.nodes[id].commitIndex
      {
        AdvanceKeepsSafe(s.nodes[id], Max(s.commitIndex, C.QuorumIndex(s).value));
      }
    }
  }

  lemma ReplicatedIsSafe(s: C.Cluster, payload: Payload)
    requires Shape(s) && Bounded(s) && AllSafe(s) && C.CanPropose(s, payload)
    ensures SafeStep(s, C.Replicated(s, payload).0)
  {
    ReplicatedAddsEntry(s, payload);
    ProposedEntryIsNext(s, payload);
    hide *;
    EntryAddedIsSafe(s, C.Replicated(s, payload).0, C.ProposedEntry(s, payload));
  }

  lemma EntryAddedIsSafe(s: C.Cluster, t: C.Cluster, e: LogEntry)
    requires Bounded(s) && AllSafe(s) && EntryAdded(s, t, e) && e.logId.index == s.lastLogIndex + 1
    ensures SafeStep(s, t)
  {
  }

  lemma SafeStepsCompose(s: C.Cluster, t: C.Cluster, u: C.Cluster)
    requires SafeStep(s, t) && SafeStep(t, u) && s.nodes.Keys <= t.nodes.Keys
    ensures SafeStep(s, u)
  {
  }

  lemma ProposeIsSafe(s: C.Cluster, payload: Payload)
    requires Shape(s) && Bounded(s) && AllSafe(s)
    ensures SafeStep(s, C.Propose(s, payload).0)
  {
    hide C.Replicated, C.RefreshCommit, C.ProposedEntry, C.CanPropose, Shape, Bounded, NodeSafe;
    if C.CanPropose(s, payload) {
      ReplicatedIsSafe(s, payload);
      ReplicatedNodes(s, payload);
      RefreshCommitIsSafe(C.Replicated(s, payload).0);
      hide Receives, WithEntry;
      SafeStepsCompose(s, C.Replicated(s, payload).0, C.Propose(s, payload).0);
    }
  }

  lemma CampaignIsSafe(s: C.Cluster, id: NodeId, forced: bool)
    requires Shape(s) && AllSafe(s)
    ensures SafeStep(s, C.Campaign(s, id, forced).0)
  {
    if C.Campaign(s, id, forced).1.Ok? {
      ElectedIsSafe(s, id);
      RefreshPipelinesKeeps(C.Elected(s, id));
    }
    hide C.RefreshPipelines, C.Elected, NodeSafe, NodeShape;
  }

  lemma ElectedIsSafe(s: C.Cluster, id: NodeId)
    requires Shape(s) && AllSafe(s)
    ensures SafeStep(s, C.Elected(s, id))
  {
  }

  lemma StartIsSafe(s: C.Cluster)
    requires Shape(s) && AllSafe(s)
    ensures SafeStep(s, C.Start(s).0)
  {
    hide C.Campaign, C.FirstElectable;
    var running := s.(running := true);
    assert Shape(running) && AllSafe(running);
    hide NodeSafe, Shape;
    match C.FirstElectable(s.nodes, C.Keys(s)) {
      case None =>
      case Some(id) => CampaignIsSafe(running, id, true);
    }
  }

  lemma PeersAreSafe(s: C.Cluster, step: Step)
    requires AllSafe(s) && (step.AddPeer? || step.Remove?)
    ensures SafeStep(s, Next(s, step))
  {
    if step.AddPeer? && step.peer.nodeId !in s.nodes {
      RefreshPipelinesKeeps(C.WithPeer(s, step.peer));
    } else if step.Remove? && step.id in s.nodes {
      RefreshPipelinesKeeps(C.WithoutPeer(s, step.id));
    }
    hide C.RefreshPipelines, P.New;
  }

  lemma CopyIsSafe(learner: C.Node, leader: C.Node, commit: LogIndex)
    requires NodeSafe(learner) && AscendingLog(learner.log) && AscendingLog(leader.log)
    ensures var n := C.CopyFromLeader(learner, leader, commit); NodeSafe(n) && n.commitIndex >= learner.commitIndex
  {
    var behind := leader.installedSnapshot.Some? && leader.installedSnapshot.value.lastLogId.index > C.MatchIndex(learner);
    var based := if behind then learner.(installedSnapshot := leader.installedSnapshot) else learner;
    var more := C.EntriesAbove(leader.log, C.MatchIndex(based));
    assert C.MatchIndex(based) >= C.MatchIndex(learner);
    CopyAppends(based, leader.log);
    var copied := C.AppendEntries(based, more);
    hide C.AppendEntries, C.EntriesAbove, C.MatchIndex;
    AdvanceKeepsSafe(copied, Min(commit, C.MatchIndex(copied)));
  }

  /** Copying the newer entries of a log keeps everything else and lowers no match. */
  lemma CopyAppends(n: C.Node, log: seq<LogEntry>)
    requires AscendingLog(n.log) && AscendingLog(log)
    ensures var m := C.AppendEntries(n, C.EntriesAbove(log, C.MatchIndex(n)));
            m == n.(log := m.log) && C.MatchIndex(m) >= C.MatchIndex(n)
  {
    var more := C.EntriesAbove(log, C.MatchIndex(n));
    AboveKeepsAscending(log, C.MatchIndex(n));
    LogIsBounded(n);
    hide C.EntriesAbove;
    JoinAscends(n.log, more, C.MatchIndex(n));
    AppendManyPastEnd(n, more);
    assert more != [] ==> more[|more| - 1] in more;
  }

  lemma JoinAscends(a: seq<LogEntry>, b: seq<LogEntry>, index: LogIndex)
    requires AscendingLog(a) && AscendingLog(b)
    requires forall i :: 0 <= i < |a| ==> a[i].logId.index <= index
    requires forall e :: e in b ==> e.logId.index > index
    ensures AscendingLog(a + b)
  {
  }

  /** Replacing the node by a recoverable one that committed no less. */
  lemma ReplaceIsSafe(s: C.Cluster, t: C.Cluster, id: NodeId, n: C.Node)
    requires AllSafe(s) && id in s.nodes && t.nodes == s.nodes[id := n]
    requires NodeSafe(n) && n.commitIndex >= s.nodes[id].commitIndex
    ensures SafeStep(s, t)
  {
  }

  lemma CatchUpIsSafe(s: C.Cluster, id: NodeId)
    requires Shape(s) && AllSafe(s)
    ensures SafeStep(s, C.CatchUp(s, id).0)
  {
    if C.CatchUp(s, id).1.Ok? {
      var learner, leader := s.nodes[id], s.nodes[s.leaderId.value];
      assert NodeShape(learner, id, s.leaderId, s.currentTerm);
      assert NodeShape(leader, s.leaderId.value, s.leaderId, s.currentTerm);
      CopyIsSafe(learner, leader, s.commitIndex);
      hide C.CopyFromLeader, C.Acknowledge, C.MaxCommit, C.MaxMatch, C.MinApplied, NodeSafe, NodeShape;
      ReplaceIsSafe(s, C.CatchUp(s, id).0, id, C.CopyFromLeader(learner, leader, s.commitIndex));
    }
  }

  lemma InstallIsSafe(s: C.Cluster, step: Step)
    requires Shape(s) && AllSafe(s) && step.InstallSnapshot? && Guarded(s, step)
    ensures SafeStep(s, C.InstallSnapshotTo(s, step.id, step.snapshot, step.fence).0)
  {
    if C.InstallSnapshotTo(s, step.id, step.snapshot, step.fence).1.Ok? {
      var n := s.nodes[step.id];
      assert NodeShape(n, step.id, s.leaderId, s.currentTerm);
      InstallSafeExactlyWhen(n, step.snapshot.meta);
      hide C.RecordInstall, C.MaxCommit, C.MaxMatch, C.MinApplied, NodeSafe, NodeShape, C.EntriesAbove;
      ReplaceIsSafe(s, C.InstallSnapshotTo(s, step.id, step.snapshot, step.fence).0, step.id,
                    C.InstallSnapshot(n, step.snapshot.meta));
    }
  }

  lemma CompactIsSafe(s: C.Cluster, step: Step)
    requires Shape(s) && AllSafe(s) && step.Compact? && Guarded(s, step)
    ensures SafeStep(s, C.CompactLogs(s, step.index))
  {
    hide C.MaxCommit, C.MaxMatch, C.MinApplied;
    forall id | id in s.nodes ensures NodeSafe(C.CompactLog(s.nodes[id], step.index)) {
      assert NodeShape(s.nodes[id], id, s.leaderId, s.currentTerm);
      CompactSafeExactlyWhen(s.nodes[id], step.index);
    }
    hide NodeSafe, NodeShape, C.EntriesAbove;
  }

  lemma NodeChangeIsSafe(s: C.Cluster, step: Step)
    requires AllSafe(s) && (step.SetHealthy? || step.Promote? || step.Stop? || step.SetLease?)
    ensures SafeStep(s, Next(s, step))
  {
    var t := Next(s, step);
    if step.SetHealthy? && step.id in s.nodes {
      var n := s.nodes[step.id].(healthy := step.healthy);
      assert NodeSafe(n);
      ReplaceIsSafe(s, t, step.id, n);
    } else if step.Promote? && C.PromotePeer(s, step.id).1.Ok? {
      var n := s.nodes[step.id].(replicaRole := Voter, raftRole := FollowerRole);
      assert NodeSafe(n);
      ReplaceIsSafe(s, t, step.id, n);
    } else {
      hide NodeSafe;
      assert t.nodes == s.nodes;
    }
  }

  /** Every guarded step keeps every node recoverable and its commit index from going down. */
  lemma StepIsSafe(s: C.Cluster, step: Step)
    requires Shape(s) && Bounded(s) && AllSafe(s) && Guarded(s, step)
    ensures SafeStep(s, Next(s, step))
  {
    hide C.Propose, C.Campaign, C.Start, C.CatchUp, C.InstallSnapshotTo, C.CompactLogs, C.AddPeer, C.RemovePeer;
    hide C.SetHealthy, C.PromotePeer, C.MatchIndex, NodeShape, NodeSafe, Guarded;
    match step {
      case Start => StartIsSafe(s);
      case Campaign(id, forced) => CampaignIsSafe(s, id, forced);
      case Propose(payload) => ProposeIsSafe(s, payload);
      case Transfer(id) => CampaignIsSafe(s, id, true);
      case AddPeer(_) => PeersAreSafe(s, step);
      case Remove(_) => PeersAreSafe(s, step);
      case CatchUp(id) => CatchUpIsSafe(s, id);
      case InstallSnapshot(_, _, _) => InstallIsSafe(s, step);
      case Compact(_) => CompactIsSafe(s, step);
      case _ => NodeChangeIsSafe(s, step);
    }
  }

  lemma UnguardedInstall(s: C.Cluster, step: Step)
    requires Shape(s) && AllSafe(s) && step.InstallSnapshot? && !Guarded(s, step)
    ensures !AllSafe(Next(s, step))
  {
    var n := s.nodes[step.id];
    assert NodeShape(n, step.id, s.leaderId, s.currentTerm);
    InstallSafeExactlyWhen(n, step.snapshot.meta);
    RefreshKeepsNodes(C.Installed(s, step.id, step.snapshot.meta));
    assert Next(s, step).nodes[step.id] == C.InstallSnapshot(n, step.snapshot.meta);
    hide C.RefreshIndexes, C.InstallSnapshot, NodeSafe, C.RecordInstall, C.SnapshotAcceptable;
  }

  lemma UnguardedCompact(s: C.Cluster, step: Step)
    requires Shape(s) && AllSafe(s) && step.Compact? && !Guarded(s, step)
    ensures !AllSafe(Next(s, step))
  {
    var id :| id in s.nodes && !(W.LastEntryIndex(s.nodes[id].log) > step.index
                                 || s.nodes[id].commitIndex <= W.SnapshotIndex(s.nodes[id].installedSnapshot));
    assert NodeShape(s.nodes[id], id, s.leaderId, s.currentTerm);
    CompactSafeExactlyWhen(s.nodes[id], step.index);
    RefreshKeepsNodes(C.Compacted(s, step.index));
    assert Next(s, step).nodes[id] == C.CompactLog(s.nodes[id], step.index);
    hide C.RefreshIndexes, C.CompactLog, NodeSafe;
  }

  /** Main result: a step keeps every node recoverable exactly when it passes its guard. */
  lemma SafeExactlyWhenGuarded(s: C.Cluster, step: Step)
    requires Shape(s) && Bounded(s) && AllSafe(s)
    ensures AllSafe(Next(s, step)) <==> Guarded(s, step)
  {
    hide Next, Shape, Bounded, AllSafe;
    if Guarded(s, step) {
      StepIsSafe(s, step);
    } else if step.InstallSnapshot? {
      UnguardedInstall(s, step);
    } else {
      UnguardedCompact(s, step);
    }
  }

  /** The run passes every guard and never removes the node. */
  ghost predicate GuardedRun(s: C.Cluster, steps: seq<Step>, id: NodeId)
    decreases |steps|
  {
    steps == [] || (Guarded(s, steps[0]) && steps[0] != Remove(id) && GuardedRun(Next(s, steps[0]), steps[1..], id))
  }

  // ----- The records a runtime appends -----

  /** The node is part of every one of some states. */
  ghost predicate HaveNode(states: seq<C.Cluster>, id: NodeId) {
    forall i :: 0 <= i < |states| ==> id in states[i].nodes
  }

  lemma HaveNodeConcat(a: seq<C.Cluster>, b: seq<C.Cluster>, id: NodeId)
    requires HaveNode(a, id) && HaveNode(b, id)
    ensures HaveNode(a + b, id)
  {
  }

  /** The states right after the successful proposals of a run, in which the runtime of node
      id appends its record. */
  function Recorded(s: C.Cluster, steps: seq<Step>, id: NodeId): (states: seq<C.Cluster>)
    ensures HaveNode(states, id)
    decreases |steps|
  {
    if steps == [] then []
    else
      var first, rest := RecordedAt(s, steps[0], id), Recorded(Next(s, steps[0]), steps[1..], id);
      HaveNodeConcat(first, rest, id);
      first + rest
  }

  function RecordedAt(s: C.Cluster, step: Step, id: NodeId): (states: seq<C.Cluster>)
    ensures HaveNode(states, id)
  {
    if Records(s, step, id) then [Next(s, step)] else []
  }

  /** The step is a successful proposal, and the node is there to be recorded. */
  predicate Records(s: C.Cluster, step: Step, id: NodeId) {
    step.Propose? && C.Propose(s, step.payload).1.Ok? && id in Next(s, step).nodes
  }

  /** The record of a node at each of some states. */
  function RecordsOf(h: W.Hash, states: seq<C.Cluster>, id: NodeId): (rs: seq<W.WalRecord>)
    requires HaveNode(states, id)
    ensures |rs| == |states|
    ensures forall i :: 0 <= i < |rs| ==> C.WalRecordFor(states[i], h, id) == Ok(rs[i])
  {
    seq(|states|, i requires 0 <= i < |states| => C.WalRecordFor(states[i], h, id).value)
  }

  /** The record of a recoverable node passes every validator and is filed under its commit. */
  lemma RecordIsUsable(s: C.Cluster, h: W.Hash, id: NodeId)
    requires id in s.nodes && NodeSafe(s.nodes[id])
    ensures var r := C.WalRecordFor(s, h, id).value;
            && W.ChecksumValid(h, r) && W.Usable(r) && W.CommittedIndex(r) == s.nodes[id].commitIndex
  {
  }

  /** Recoverable states in which the node has committed at least floor. */
  ghost predicate SafeFrom(states: seq<C.Cluster>, id: NodeId, floor: LogIndex) {
    forall i :: 0 <= i < |states| ==>
      id in states[i].nodes && NodeSafe(states[i].nodes[id]) && states[i].nodes[id].commitIndex >= floor
  }

  ghost predicate CommitsAscend(states: seq<C.Cluster>, id: NodeId) {
    forall i, j :: 0 <= i <= j < |states| ==>
      id in states[i].nodes && id in states[j].nodes
      && states[i].nodes[id].commitIndex <= states[j].nodes[id].commitIndex
  }

  lemma {:induction false} RecordedStatesAreSafe(s: C.Cluster, steps: seq<Step>, id: NodeId)
    requires Agrees(s) && AllSafe(s) && id in s.nodes && GuardedRun(s, steps, id)
    ensures SafeFrom(Recorded(s, steps, id), id, s.nodes[id].commitIndex)
    ensures CommitsAscend(Recorded(s, steps, id), id)
    decreases |steps|
  {
    if steps != [] {
      var t := Next(s, steps[0]);
      StepIsSafe(s, steps[0]);
      StepKeepsAgreement(s, steps[0]);
      NodeStays(s, steps[0], id);
      hide Next, Agrees, NodeSafe, Guarded, Records, Recorded;
      RecordedStatesAreSafe(t, steps[1..], id);
      AscendCons(t, Recorded(t, steps[1..], id), id, s.nodes[id].commitIndex);
      RecordedUnfold(s, steps, id);
      assert [] + Recorded(t, steps[1..], id) == Recorded(t, steps[1..], id);
    }
  }

  lemma RecordedUnfold(s: C.Cluster, steps: seq<Step>, id: NodeId)
    requires steps != []
    ensures Recorded(s, steps, id) == RecordedAt(s, steps[0], id) + Recorded(Next(s, steps[0]), steps[1..], id)
  {
  }

  lemma AscendCons(t: C.Cluster, rest: seq<C.Cluster>, id: NodeId, floor: LogIndex)
    requires id in t.nodes && NodeSafe(t.nodes[id]) && t.nodes[id].commitIndex >= floor
    requires SafeFrom(rest, id, t.nodes[id].commitIndex) && CommitsAscend(rest, id)
    ensures SafeFrom([t] + rest, id, floor) && CommitsAscend([t] + rest, id)
    ensures SafeFrom(rest, id, floor)
  {
  }

  /** The records of recoverable states with commits that do not go down: the newest wins. */
  lemma NewestRecordWins(h: W.Hash, states: seq<C.Cluster>, id: NodeId)
    requires states != [] && SafeFrom(states, id, 0) && CommitsAscend(states, id)
    ensures var rs := RecordsOf(h, states, id);
            L.AllValid(h, rs) && W.RecoverLatest(h, rs) == Some(rs[|rs| - 1])
  {
    var rs := RecordsOf(h, states, id);
    forall i | 0 <= i < |rs|
      ensures W.ChecksumValid(h, rs[i]) && W.Usable(rs[i]) && W.CommittedIndex(rs[i]) == states[i].nodes[id].commitIndex
    {
      RecordIsUsable(states[i], h, id);
    }
    hide C.WalRecordFor, RecordsOf, W.ChecksumValid, W.Usable, W.CommittedIndex, NodeSafe;
    W.NewestIsRecovered(h, rs);
  }

  // ----- Restoring -----

  /** The node has the persistent state of another. */
  ghost predicate SamePersistentState(a: C.Node, b: C.Node) {
    && a.hardState == b.hardState && a.log == b.log && a.installedSnapshot == b.installedSnapshot
    && a.commitIndex == b.commitIndex && a.appliedIndex == b.appliedIndex
  }

  /** Taking over a node's record gives its persistent state, and leaves other nodes alone. */
  lemma TakeOverGivesRecordedNode(s: C.Cluster, h: W.Hash, id: NodeId, into: C.Cluster)
    requires id in s.nodes && id in into.nodes
    ensures var r := C.WalRecordFor(s, h, id).value;
            && r.nodeId == id && r.groupId == s.groupId
            && var t := C.Recovered(into, r);
               && t.nodes.Keys == into.nodes.Keys
               && SamePersistentState(t.nodes[id], s.nodes[id])
               && t.currentTerm >= s.nodes[id].hardState.currentTerm
               && forall k :: k in into.nodes && k != id ==> t.nodes[k] == into.nodes[k]
  {
    hide C.MembershipOf, W.CoveredWords, C.MatchIndex;
  }

  lemma RefreshedKeepNodes(s: C.Cluster)
    ensures var t := C.RefreshPipelines(C.RefreshIndexes(s)); t.nodes == s.nodes && t.currentTerm == s.currentTerm
  {
  }

  /** Restoring the record of a node into any cluster of the group gives that node its
      persistent state and leaves every other node alone. */
  lemma RestoreGivesRecordedNode(s: C.Cluster, h: W.Hash, id: NodeId, into: C.Cluster)
    requires id in s.nodes && id in into.nodes && into.groupId == s.groupId
    ensures var (t, result) := C.RestoreWalRecord(into, C.WalRecordFor(s, h, id).value);
            && result.Ok? && t.nodes.Keys == into.nodes.Keys
            && SamePersistentState(t.nodes[id], s.nodes[id])
            && t.currentTerm >= s.nodes[id].hardState.currentTerm
            && forall k :: k in into.nodes && k != id ==> t.nodes[k] == into.nodes[k]
  {
    TakeOverGivesRecordedNode(s, h, id, into);
    RefreshedKeepNodes(C.Recovered(into, C.WalRecordFor(s, h, id).value));
    hide C.WalRecordFor, C.Recovered, C.RefreshIndexes, C.RefreshPipelines, SamePersistentState;
  }

  /** The node has what the record says; its identity, role and health are its own. */
  ghost predicate TookOverRecord(n: C.Node, m: C.Node, r: W.WalRecord) {
    && m.hardState == r.hardState && m.log == r.entries && m.installedSnapshot == r.installedSnapshot
    && m.commitIndex == r.fence.commitIndex && m.appliedIndex == r.fence.appliedIndex
    && m == n.(hardState := m.hardState, log := m.log, installedSnapshot := m.installedSnapshot,
               commitIndex := m.commitIndex, appliedIndex := m.appliedIndex)
  }

  /** Main result: restoring any record succeeds exactly for a node of the group; the node takes
      over the record, the cluster term is raised to that of the record and never lowered, the
      indices are again the greatest of the nodes, and leadership stays. */
  lemma RestoreRaisesTerm(into: C.Cluster, r: W.WalRecord)
    ensures var (t, result) := C.RestoreWalRecord(into, r);
            && (result.Ok? <==> r.groupId == into.groupId && r.nodeId in into.nodes)
            && (result.Err? ==> t == into)
            && (result.Ok? ==>
                  && t.currentTerm == Max(into.currentTerm, r.hardState.currentTerm)
                  && t.nodes.Keys == into.nodes.Keys && TookOverRecord(into.nodes[r.nodeId], t.nodes[r.nodeId], r)
                  && (forall k :: k in into.nodes && k != r.nodeId ==> t.nodes[k] == into.nodes[k])
                  && CommitIsMax(t) && Bounded(t)
                  && t.leaderId == into.leaderId && t.running == into.running && t.leaseValid == into.leaseValid)
  {
    if r.groupId == into.groupId && r.nodeId in into.nodes {
      var u := C.Recovered(into, r);
      RefreshedKeepNodes(u);
      RefreshedIsBounded(u);
      RefreshedCommitIsMax(u);
      RefreshPipelinesKeeps(C.RefreshIndexes(u));
      hide C.RefreshPipelines, C.MaxCommit, C.MaxMatch, C.MinApplied, C.Keys, C.MatchIndex;
    }
  }

  /** No node is past the term of the cluster. */
  ghost predicate TermsBelow(s: C.Cluster) {
    forall k :: k in s.nodes ==> s.nodes[k].hardState.currentTerm <= s.currentTerm
  }

  /** Main result: so a restore keeps every node at or below the term of the cluster, and an
      election after it takes a term that is newer than that of any node. */
  lemma ElectionAfterRestoreIsNewer(into: C.Cluster, r: W.WalRecord, id: NodeId, forced: bool)
    requires TermsBelow(into)
    ensures var t := C.RestoreWalRecord(into, r).0;
            && TermsBelow(t)
            && (C.Campaign(t, id, forced).1.Ok? ==>
                  forall k :: k in t.nodes ==> t.nodes[k].hardState.currentTerm < C.Campaign(t, id, forced).0.currentTerm)
  {
    RestoreRaisesTerm(into, r);
    var t := C.RestoreWalRecord(into, r).0;
    if C.Campaign(t, id, forced).1.Ok? {
      CampaignIsNextTerm(t, id, forced);
    }
    hide C.RestoreWalRecord, C.Campaign, CommitIsMax, Bounded;
  }

  lemma CampaignIsNextTerm(s: C.Cluster, id: NodeId, forced: bool)
    requires C.Campaign(s, id, forced).1.Ok?
    ensures C.Campaign(s, id, forced).0.currentTerm == s.currentTerm + 1
  {
    RefreshPipelinesKeeps(C.Elected(s, id));
    hide C.RefreshPipelines;
  }

  lemma GroupStays(s: C.Cluster, step: Step)
    ensures Next(s, step).groupId == s.groupId
  {
    hide C.Keys, C.MaxCommit, C.MaxMatch, C.MinApplied, C.QuorumIndex, C.AdvanceAll, C.Acknowledge, C.ReplicateAll;
    hide C.MatchIndex, C.FirstElectable, C.CanPropose, P.New, C.CopyFromLeader, C.RecordInstall, C.SnapshotAcceptable;
  }

  lemma {:induction false} RecordedGroups(s: C.Cluster, steps: seq<Step>, id: NodeId)
    ensures forall i :: 0 <= i < |Recorded(s, steps, id)| ==> Recorded(s, steps, id)[i].groupId == s.groupId
    decreases |steps|
  {
    if steps != [] {
      GroupStays(s, steps[0]);
      RecordedGroups(Next(s, steps[0]), steps[1..], id);
      hide Next, Records, Recorded, HaveNode;
      RecordedUnfold(s, steps, id);
    }
  }

  lemma TakeSafe(states: seq<C.Cluster>, id: NodeId, floor: LogIndex, n: nat)
    requires n <= |states| && SafeFrom(states, id, floor) && CommitsAscend(states, id)
    ensures SafeFrom(states[..n], id, 0) && CommitsAscend(states[..n], id)
  {
  }

  lemma SafeFromZero(states: seq<C.Cluster>, id: NodeId, floor: LogIndex)
    requires SafeFrom(states, id, floor)
    ensures SafeFrom(states, id, 0)
  {
  }

  lemma RecoverThenRestore(states: seq<C.Cluster>, h: W.Hash, id: NodeId, w: L.LocalWal, corrupted: seq<W.WalRecord>,
                           into: C.Cluster)
    requires states != [] && SafeFrom(states, id, 0) && CommitsAscend(states, id)
    requires id in into.nodes && into.groupId == states[|states| - 1].groupId
    requires forall i :: 0 <= i < |corrupted| ==> !W.ChecksumValid(h, corrupted[i])
    requires w.segments != [] && L.Records(w.segments) == RecordsOf(h, states, id) + corrupted
    ensures Restored(states, h, id, w, into)
  {
    NewestRecordWins(h, states, id);
    var good := RecordsOf(h, states, id);
    L.RecoverDropsCorruptSuffix(h, w, good, corrupted);
    RestoreGivesRecordedNode(states[|states| - 1], h, id, into);
    hide L.Recover, C.RestoreWalRecord, C.WalRecordFor, L.Records, SafeFrom, CommitsAscend, L.AllValid, W.ChecksumValid;
    hide SamePersistentState, W.RecoverLatest;
  }

  /** Recovery keeps exactly the records of those states, and restoring what it recovers
      gives the node the persistent state it had in the last of them. */
  ghost predicate Restored(states: seq<C.Cluster>, h: W.Hash, id: NodeId, w: L.LocalWal, into: C.Cluster)
    requires w.segments != [] && states != [] && HaveNode(states, id)
  {
    var (v, report) := L.Recover(h, w);
    && L.Records(v.segments) == RecordsOf(h, states, id)
    && report.recovered.Some?
    && var (t, result) := C.RestoreWalRecord(into, report.recovered.value);
       result.Ok? && id in t.nodes && SamePersistentState(t.nodes[id], states[|states| - 1].nodes[id])
  }

  /** Main result: record a node after every successful proposal of a guarded run, keep any
      nonempty number of those records, follow them with any corrupted ones; then recovery
      keeps exactly the intact records, and restoring what it recovers gives the node the
      persistent state it had when the last intact record was written. */
  lemma CrashRecoveryIsExact(s: C.Cluster, steps: seq<Step>, h: W.Hash, id: NodeId, intact: nat,
                             w: L.LocalWal, corrupted: seq<W.WalRecord>, into: C.Cluster)
    requires Agrees(s) && AllSafe(s) && id in s.nodes && GuardedRun(s, steps, id)
    requires 0 < intact <= |Recorded(s, steps, id)| && id in into.nodes && into.groupId == s.groupId
    requires forall i :: 0 <= i < |corrupted| ==> !W.ChecksumValid(h, corrupted[i])
    requires w.segments != []
             && L.Records(w.segments) == RecordsOf(h, Recorded(s, steps, id)[..intact], id) + corrupted
    ensures Restored(Recorded(s, steps, id)[..intact], h, id, w, into)
  {
    RecordedStatesAreSafe(s, steps, id);
    RecordedGroups(s, steps, id);
    hide Recorded, Agrees, GuardedRun, AllSafe, NodeSafe, Restored, L.Records, W.ChecksumValid;
    TakeSafe(Recorded(s, steps, id), id, s.nodes[id].commitIndex, intact);
    hide SafeFrom, CommitsAscend, RecordsOf;
    var states := Recorded(s, steps, id)[..intact];
    RecoverThenRestore(states, h, id, w, corrupted, into);
  }

  /** What recovery finds in a directory: opening reads and truncates the files, and recovering
      reads them again. */
  function Found(c: Files.Codec, h: W.Hash, options: Disk.Options, files: map<nat, Files.Bytes>): Option<W.WalRecord> {
    W.RecoverLatest(h, L.Records(Disk.SegmentsIn(c, h, Disk.Open(c, h, options, files).files)))
  }

  /** Opening a directory and restoring what is recovered gives the node a persistent state. */
  ghost predicate RecoversTo(c: Files.Codec, h: W.Hash, options: Disk.Options, files: map<nat, Files.Bytes>, into: C.Cluster,
                             id: NodeId, n: C.Node)
  {
    var found := Found(c, h, options, files);
    found.Some?
    && var (t, result) := C.RestoreWalRecord(into, found.value);
       result.Ok? && id in t.nodes && SamePersistentState(t.nodes[id], n)
  }

  lemma FoundIsOpened(c: Files.Codec, h: W.Hash, options: Disk.Options, files: map<nat, Files.Bytes>)
    ensures Found(c, h, options, files) == W.RecoverLatest(h, L.Records(Disk.Open(c, h, options, files).segments))
  {
    DiskTheorems.RereadFindsSame(c, h, options, files);
    hide W.RecoverLatest, L.Records, Disk.SegmentsIn, Disk.Open;
  }

  lemma NewestRecordOf(states: seq<C.Cluster>, h: W.Hash, id: NodeId)
    requires states != [] && SafeFrom(states, id, 0) && CommitsAscend(states, id)
    ensures W.RecoverLatest(h, RecordsOf(h, states, id)) == Some(C.WalRecordFor(Last(states), h, id).value)
  {
    NewestRecordWins(h, states, id);
    var rs := RecordsOf(h, states, id);
    var n := |rs| - 1;
    assert C.WalRecordFor(states[n], h, id) == Ok(rs[n]) && states[n] == Last(states);
    hide *;
  }

  /** A directory that holds exactly the records of some states restores the last of them. */
  lemma DiskRestores(states: seq<C.Cluster>, c: Files.Codec, h: W.Hash, options: Disk.Options, id: NodeId,
                     files: map<nat, Files.Bytes>, into: C.Cluster)
    requires states != [] && SafeFrom(states, id, 0) && CommitsAscend(states, id)
    requires id in into.nodes && into.groupId == Last(states).groupId
    requires L.Records(Disk.Open(c, h, options, files).segments) == RecordsOf(h, states, id)
    ensures RecoversTo(c, h, options, files, into, id, Last(states).nodes[id])
  {
    NewestRecordOf(states, h, id);
    FoundIsOpened(c, h, options, files);
    RestoreGivesRecordedNode(Last(states), h, id, into);
    hide NodeSafe, SafeFrom, CommitsAscend, HaveNode, C.WalRecordFor, C.RestoreWalRecord, Last, RecordsOf, SamePersistentState;
    hide Disk.Open, L.Records, W.RecoverLatest, Found;
  }

  /** The same on disk: append the records to an empty directory, let a crash leave any bytes
      that hold no record at the end of the active file; reopening, recovering and restoring
      gives the node the persistent state it had when the last record was written. */
  lemma DiskRecoveryIsExact(s: C.Cluster, steps: seq<Step>, c: Files.Codec, h: W.Hash, options: Disk.Options, id: NodeId,
                            tail: Files.Bytes, into: C.Cluster)
    requires Agrees(s) && AllSafe(s) && id in s.nodes && GuardedRun(s, steps, id)
    requires Recorded(s, steps, id) != [] && id in into.nodes && into.groupId == s.groupId
    requires Files.Lawful(c) && Files.Read(c, h, tail).records == []
    ensures var w := DiskTheorems.Written(c, h, options, RecordsOf(h, Recorded(s, steps, id), id));
            RecoversTo(c, h, options, DiskTheorems.Crashed(w, tail), into, id, Last(Recorded(s, steps, id)).nodes[id])
  {
    hide *;
    RecordedTrace(s, steps, id);
    DiskTailRestores(Recorded(s, steps, id), c, h, options, id, tail, into);
  }

  lemma DiskTailRestores(states: seq<C.Cluster>, c: Files.Codec, h: W.Hash, options: Disk.Options, id: NodeId,
                         tail: Files.Bytes, into: C.Cluster)
    requires states != [] && HaveNode(states, id) && SafeFrom(states, id, 0) && CommitsAscend(states, id)
    requires id in into.nodes && into.groupId == Last(states).groupId
    requires Files.Lawful(c) && Files.Read(c, h, tail).records == []
    ensures var w := DiskTheorems.Written(c, h, options, RecordsOf(h, states, id));
            RecoversTo(c, h, options, DiskTheorems.Crashed(w, tail), into, id, Last(states).nodes[id])
  {
    hide *;
    RecordsAreSealed(states, h, id);
    var rs := RecordsOf(h, states, id);
    DiskTheorems.CrashKeepsWrittenRecords(c, h, options, rs, tail);
    assert rs + [] == rs;
    DiskRestores(states, c, h, options, id, DiskTheorems.Crashed(DiskTheorems.Written(c, h, options, rs), tail), into);
  }

  lemma RecordsAreSealed(states: seq<C.Cluster>, h: W.Hash, id: NodeId)
    requires SafeFrom(states, id, 0)
    ensures HaveNode(states, id) && L.SealAll(h, RecordsOf(h, states, id)) == RecordsOf(h, states, id)
  {
    var rs := RecordsOf(h, states, id);
    forall i | 0 <= i < |rs| ensures W.ChecksumValid(h, rs[i]) {
      RecordIsUsable(states[i], h, id);
    }
    hide C.WalRecordFor, RecordsOf, NodeSafe, W.ChecksumValid;
    SealAllKeepsValid(h, rs);
  }

  /** The record of a node that is there. */
  function RecordOf(h: W.Hash, s: C.Cluster, id: NodeId): W.WalRecord
    requires id in s.nodes
  {
    C.WalRecordFor(s, h, id).value
  }

  lemma RecordsOfSnoc(h: W.Hash, before: seq<C.Cluster>, last: C.Cluster, id: NodeId)
    requires HaveNode(before, id) && id in last.nodes
    ensures HaveNode(before + [last], id) && RecordsOf(h, before + [last], id) == RecordsOf(h, before, id) + [RecordOf(h, last, id)]
  {
    hide C.WalRecordFor;
  }

  /** The append of the record of the last state, after those of the states before, was stopped
      by a crash at byte n of its line: what is recovered is the last state when the line was
      complete but for its newline at most, and the one before otherwise. */
  ghost predicate SurvivesAppend(c: Files.Codec, h: W.Hash, options: Disk.Options, before: seq<C.Cluster>, last: C.Cluster,
                                 id: NodeId, n: nat, into: C.Cluster)
    requires HaveNode(before, id) && id in last.nodes
    requires n < |c.encode(RecordOf(h, last, id))| ==> before != []
  {
    var r := RecordOf(h, last, id);
    var w := DiskTheorems.Written(c, h, options, RecordsOf(h, before, id));
    && n <= |Files.EncodeLine(c, W.Sealed(h, r))|
    && RecoversTo(c, h, options, DiskTheorems.CrashedInAppend(c, h, w, r, n), into, id,
                  (if n >= |c.encode(r)| then last else Last(before)).nodes[id])
  }

  /** The states whose records are found after the crash. */
  lemma AppendLeaves(c: Files.Codec, h: W.Hash, options: Disk.Options, before: seq<C.Cluster>, last: C.Cluster,
                     id: NodeId, n: nat)
    requires HaveNode(before, id) && id in last.nodes
    requires Files.Lawful(c) && Files.Delimited(c) && n <= |Files.EncodeLine(c, RecordOf(h, last, id))|
    requires SafeFrom(before, id, 0) && NodeSafe(last.nodes[id])
    ensures var r := RecordOf(h, last, id);
            var rs := RecordsOf(h, before, id);
            W.Sealed(h, r) == r
            && L.Records(Disk.Open(c, h, options, DiskTheorems.CrashedInAppend(c, h, DiskTheorems.Written(c, h, options, rs), r, n)).segments)
               == if n >= |c.encode(r)| then rs + [r] else rs
  {
    var r := RecordOf(h, last, id);
    RecordIsUsable(last, h, id);
    assert W.Sealed(h, r) == r;
    RecordsAreSealed(before, h, id);
    hide *;
    var rs := RecordsOf(h, before, id);
    DiskTheorems.CrashInAppendKeepsRecords(c, h, DiskTheorems.Written(c, h, options, rs), r, n);
    assert rs + [] == rs;
  }

  lemma CrashedAppendRestores(c: Files.Codec, h: W.Hash, options: Disk.Options, before: seq<C.Cluster>, last: C.Cluster,
                              id: NodeId, n: nat, into: C.Cluster)
    requires HaveNode(before, id) && id in last.nodes && id in into.nodes && last.groupId == into.groupId
    requires before != [] ==> Last(before).groupId == into.groupId
    requires Files.Lawful(c) && Files.Delimited(c) && n <= |Files.EncodeLine(c, RecordOf(h, last, id))|
    requires n < |c.encode(RecordOf(h, last, id))| ==> before != []
    requires SafeFrom(before + [last], id, 0) && CommitsAscend(before + [last], id)
    ensures SurvivesAppend(c, h, options, before, last, id, n, into)
  {
    RecordsOfSnoc(h, before, last, id);
    SafeFromParts(before, last, id);
    AppendLeaves(c, h, options, before, last, id, n);
    var whole := n >= |c.encode(RecordOf(h, last, id))|;
    assert Last(before + [last]) == last;
    hide C.WalRecordFor, NodeSafe, SafeFrom, CommitsAscend, RecordsOf, RecordOf, HaveNode, Files.EncodeLine, Disk.Open, Last;
    hide L.Records, DiskTheorems.CrashedInAppend, DiskTheorems.Written, W.Sealed, RecoversTo, Files.Lawful, Files.Delimited;
    var w := DiskTheorems.Written(c, h, options, RecordsOf(h, before, id));
    var files := DiskTheorems.CrashedInAppend(c, h, w, RecordOf(h, last, id), n);
    DiskRestores(if whole then before + [last] else before, c, h, options, id, files, into);
  }

  lemma SafeFromParts(before: seq<C.Cluster>, last: C.Cluster, id: NodeId)
    requires SafeFrom(before + [last], id, 0) && CommitsAscend(before + [last], id)
    ensures SafeFrom(before, id, 0) && CommitsAscend(before, id) && id in last.nodes && NodeSafe(last.nodes[id])
  {
    var all := before + [last];
    assert all[|before|] == last && all[..|before|] == before;
    TakeSafe(all, id, 0, |before|);
  }

  lemma {:induction false} RecordedSnoc(s: C.Cluster, steps: seq<Step>, next: Step, id: NodeId)
    requires GuardedRun(s, steps + [next], id)
    ensures Recorded(s, steps + [next], id) == Recorded(s, steps, id) + RecordedAt(Run(s, steps), next, id)
    ensures GuardedRun(s, steps, id)
    decreases |steps|
  {
    hide Next, Guarded, RecordedAt, HaveNode;
    if steps == [] {
      assert steps + [next] == [next] && [next][1..] == [];
      RecordedUnfold(s, [next], id);
      assert Recorded(Next(s, next), [], id) == [];
    } else {
      assert (steps + [next])[1..] == steps[1..] + [next];
      RecordedSnoc(Next(s, steps[0]), steps[1..], next, id);
      RecordedUnfold(s, steps + [next], id);
      RecordedUnfold(s, steps, id);
      hide Recorded;
      ConcatAssociative(RecordedAt(s, steps[0], id), Recorded(Next(s, steps[0]), steps[1..], id), RecordedAt(Run(s, steps), next, id));
    }
  }

  /** Main result: take a guarded run whose last step is a proposal that returned a log id, and
      crash the append of its record at any byte; reopening, recovering and restoring gives
      the node the persistent state it had after that proposal when the record was written
      whole, and after the last successful proposal before it otherwise. */
  lemma CrashInAppendIsExact(s: C.Cluster, steps: seq<Step>, next: Step, c: Files.Codec, h: W.Hash, options: Disk.Options,
                             id: NodeId, n: nat, into: C.Cluster)
    requires Agrees(s) && AllSafe(s) && id in s.nodes && GuardedRun(s, steps + [next], id)
    requires Records(Run(s, steps), next, id) && id in into.nodes && into.groupId == s.groupId
    requires Files.Lawful(c) && Files.Delimited(c)
    requires var r := RecordOf(h, Next(Run(s, steps), next), id);
             n <= |Files.EncodeLine(c, r)| && (n < |c.encode(r)| ==> Recorded(s, steps, id) != [])
    ensures SurvivesAppend(c, h, options, Recorded(s, steps, id), Next(Run(s, steps), next), id, n, into)
  {
    var before, last := Recorded(s, steps, id), Next(Run(s, steps), next);
    RecordedSnoc(s, steps, next, id);
    assert RecordedAt(Run(s, steps), next, id) == [last];
    hide *;
    RecordedTrace(s, steps + [next], id);
    RecordedTrace(s, steps, id);
    LastOfSnoc(before, last);
    CrashedAppendRestores(c, h, options, before, last, id, n, into);
  }

  /** Crash a roll after n bytes of the rewritten file: what is restored is the state at the last
      record that is left, if there is one. */
  lemma CrashedRollRestores(states: seq<C.Cluster>, c: Files.Codec, h: W.Hash, options: Disk.Options, id: NodeId,
                            n: nat, into: C.Cluster)
    requires HaveNode(states, id) && SafeFrom(states, id, 0) && CommitsAscend(states, id)
    requires id in into.nodes && forall i :: 0 <= i < |states| ==> states[i].groupId == into.groupId
    requires Files.Lawful(c) && Files.Delimited(c)
    requires var w := DiskTheorems.Written(c, h, options, RecordsOf(h, states, id));
             n <= |Files.EncodeAll(c, L.Last(w.segments).records)| && DiskTheorems.LeftInRoll(c, w, n) > 0
    ensures var w := DiskTheorems.Written(c, h, options, RecordsOf(h, states, id));
            var k := DiskTheorems.LeftInRoll(c, w, n);
            k <= |states| && RecoversTo(c, h, options, DiskTheorems.CrashedInRoll(c, w, n), into, id, states[k - 1].nodes[id])
  {
    hide *;
    var rs := RecordsOf(h, states, id);
    var w := DiskTheorems.Written(c, h, options, rs);
    var k := DiskTheorems.LeftInRoll(c, w, n);
    RecordsAreSealed(states, h, id);
    DiskTheorems.CrashInRollKeepsExactly(c, h, w, n);
    TakeSafe(states, id, 0, k);
    FirstRecords(states, h, id, k);
    DiskRestores(states[..k], c, h, options, id, DiskTheorems.CrashedInRoll(c, w, n), into);
  }

  lemma FirstRecords(states: seq<C.Cluster>, h: W.Hash, id: NodeId, k: nat)
    requires HaveNode(states, id) && 0 < k <= |states|
    ensures HaveNode(states[..k], id) && RecordsOf(h, states[..k], id) == RecordsOf(h, states, id)[..k]
    ensures Last(states[..k]) == states[k - 1]
  {
    hide C.WalRecordFor;
  }

  /** What is known of the recorded states of a guarded run. */
  lemma RecordedTrace(s: C.Cluster, steps: seq<Step>, id: NodeId)
    requires Agrees(s) && AllSafe(s) && id in s.nodes && GuardedRun(s, steps, id)
    ensures var states := Recorded(s, steps, id);
            && SafeFrom(states, id, 0) && CommitsAscend(states, id)
            && (states != [] ==> Last(states).groupId == s.groupId)
  {
    RecordedStatesAreSafe(s, steps, id);
    RecordedGroups(s, steps, id);
    SafeFromZero(Recorded(s, steps, id), id, s.nodes[id].commitIndex);
    hide Recorded, Agrees, GuardedRun, AllSafe, SafeFrom, CommitsAscend, HaveNode;
  }

  function Last(states: seq<C.Cluster>): C.Cluster
    requires states != []
  {
    states[|states| - 1]
  }

  lemma LastOfSnoc(before: seq<C.Cluster>, last: C.Cluster)
    ensures Last(before + [last]) == last
  {
  }

  lemma SealAllKeepsValid(h: W.Hash, rs: seq<W.WalRecord>)
    requires L.AllValid(h, rs)
    ensures L.SealAll(h, rs) == rs
  {
  }
}
