/** What each membership and snapshot step of the cluster changes, node by node and pipeline by
    pipeline, and what it leaves alone. */
module ClusterSteps {
  import opened Types
  import opened Ordering
  import opened ClusterRuns
  import opened Elections
  import opened LogAgreement
  import opened PipelineSteps
  import C = ClusterModel
  import P = PipelineModel
  import W = WalModel
  import T = PipelineTheorems
  import Members = MembershipModel

  // ----- New clusters and peers -----

  /** A node that has stored, voted for and committed nothing yet. */
  ghost predicate FreshNode(n: C.Node, id: NodeId, role: ReplicaRole) {
    && n.id == id && n.replicaRole == role && n.healthy
    && n.raftRole == (if role.Learner? then LearnerRole else FollowerRole)
    && n.hardState == HardState(0, None, None) && n.log == [] && n.installedSnapshot.None?
    && n.commitIndex == 0 && n.appliedIndex == 0
  }

  lemma {:induction false} NewNodesAreFresh(peers: seq<C.Peer>)
    requires DistinctIds(peers)
    ensures var nodes := C.NewNodes(peers);
            && (forall id :: id in nodes <==> exists p :: p in peers && p.nodeId == id)
            && forall p :: p in peers ==> p.nodeId in nodes && FreshNode(nodes[p.nodeId], p.nodeId, p.role)
  {
    if peers != [] {
      var n := |peers| - 1;
      NewNodesAreFresh(peers[..n]);
      assert peers == peers[..n] + [peers[n]];
      forall p | p in peers[..n] ensures p.nodeId != peers[n].nodeId {
        var i: nat :| i < n && p == peers[..n][i];
      }
      assert peers[n] in peers;
      forall id | id in C.NewNodes(peers) ensures exists p :: p in peers && p.nodeId == id {
        if id != peers[n].nodeId {
          var p :| p in peers[..n] && p.nodeId == id;
          assert p in peers;
        }
      }
    }
  }

  ghost predicate DistinctIds(peers: seq<C.Peer>) {
    forall i, j :: 0 <= i < j < |peers| ==> peers[i].nodeId != peers[j].nodeId
  }

  lemma VotersCanLead(peers: seq<C.Peer>)
    requires DistinctIds(peers)
    ensures var nodes := C.NewNodes(peers);
            (exists p :: p in peers && p.role.Voter?) <==> exists id :: id in nodes && nodes[id].replicaRole.CanBeLeader()
  {
    NewNodesAreFresh(peers);
    var nodes := C.NewNodes(peers);
    forall p | p in peers && p.role.Voter? ensures p.nodeId in nodes && nodes[p.nodeId].replicaRole.CanBeLeader() {
      assert FreshNode(nodes[p.nodeId], p.nodeId, p.role);
    }
    forall id | id in nodes && nodes[id].replicaRole.CanBeLeader() ensures exists p :: p in peers && p.role.Voter? {
      var p :| p in peers && p.nodeId == id;
      assert FreshNode(nodes[p.nodeId], p.nodeId, p.role);
    }
  }

  /** Main result: a cluster is refused exactly without peers, with a repeated id or without a
      voter; otherwise every peer has a fresh node and an idle pipeline, and nobody leads. */
  lemma NewIsExact(groupId: GroupId, config: C.Config, peers: seq<C.Peer>)
    ensures var r := C.New(groupId, config, peers);
            && (r.Ok? <==> DistinctIds(peers) && exists p :: p in peers && p.role.Voter?)
            && (r.Err? ==> r.error == InvalidRequest)
            && (r.Ok? ==> Started(r.value, peers) && r.value.groupId == groupId && r.value.config == config)
  {
    if DistinctIds(peers) {
      NewIsWaiting(1);
      NewNodesAreFresh(peers);
      VotersCanLead(peers);
    }
    hide C.NewNodes, P.New, Waiting, FreshNode;
  }

  ghost predicate Started(s: C.Cluster, peers: seq<C.Peer>) {
    && (forall id :: id in s.nodes <==> exists p :: p in peers && p.nodeId == id)
    && (forall p :: p in peers ==> p.nodeId in s.nodes && FreshNode(s.nodes[p.nodeId], p.nodeId, p.role))
    && s.pipelines.Keys == s.nodes.Keys && (forall id :: id in s.pipelines ==> Waiting(s.pipelines[id], 1))
    && s.leaderId.None? && !s.running && !s.leaseValid
    && s.currentTerm == 0 && s.commitIndex == 0 && s.appliedIndex == 0 && s.lastLogIndex == 0
  }

  /** What refreshing leaves of the pipelines when every node has one: only that of the leader
      is acknowledged. */
  ghost predicate LeaderAcknowledged(s: C.Cluster, before: map<NodeId, P.Pipeline>, after: map<NodeId, P.Pipeline>) {
    && after.Keys == before.Keys
    && forall k :: k in before ==>
      if s.leaderId == Some(k) then Acknowledged(before[k], after[k], s.lastLogIndex) else after[k] == before[k]
  }

  lemma RefreshAcknowledges(s: C.Cluster)
    requires s.pipelines.Keys == s.nodes.Keys
    ensures LeaderAcknowledged(s, s.pipelines, C.RefreshPipelines(s).pipelines)
    ensures C.RefreshPipelines(s) == s.(pipelines := C.RefreshPipelines(s).pipelines)
  {
    RefreshedFollow(s);
    RefreshPipelinesKeeps(s);
    hide C.RefreshPipelines, Acknowledged, Waiting;
  }

  /** A peer is added exactly when its id is unknown: with a fresh node of its role and an idle
      pipeline past the last index. */
  lemma AddPeerIsExact(s: C.Cluster, peer: C.Peer)
    requires Shape(s)
    ensures var (t, r) := C.AddPeer(s, peer);
            && (r.Ok? <==> peer.nodeId !in s.nodes) && (r.Err? ==> t == s)
            && (r.Ok? ==> PeerAdded(s, t, peer.nodeId, peer.role))
  {
    if peer.nodeId !in s.nodes {
      WithPeerIsFresh(s, peer);
      hide *;
      var w := C.WithPeer(s, peer);
      RefreshAcknowledges(w);
      RefreshedPeerAdded(s, w, C.RefreshPipelines(w), peer.nodeId, peer.role);
    }
  }

  lemma WithPeerIsFresh(s: C.Cluster, peer: C.Peer)
    requires Shape(s) && peer.nodeId !in s.nodes
    ensures var (t, r) := C.AddPeer(s, peer); r.Ok? && t == C.RefreshPipelines(C.WithPeer(s, peer))
    ensures var w := C.WithPeer(s, peer);
            && WithFresh(s, w, peer.nodeId, peer.role)
            && w.pipelines.Keys == w.nodes.Keys
            && w.leaderId != Some(peer.nodeId)
  {
    NewIsWaiting(s.lastLogIndex + 1);
    hide C.RefreshPipelines, P.New, NodeShape, Waiting;
  }

  /** The cluster with a fresh node and an idle pipeline for it. */
  ghost predicate WithFresh(s: C.Cluster, t: C.Cluster, id: NodeId, role: ReplicaRole) {
    && id in t.nodes && FreshNode(t.nodes[id], id, role) && t.nodes == s.nodes[id := t.nodes[id]]
    && id in t.pipelines && Waiting(t.pipelines[id], s.lastLogIndex + 1) && id !in s.pipelines
    && t.pipelines == s.pipelines[id := t.pipelines[id]]
    && t == s.(nodes := t.nodes, pipelines := t.pipelines)
  }

  lemma RefreshedPeerAdded(s: C.Cluster, w: C.Cluster, t: C.Cluster, id: NodeId, role: ReplicaRole)
    requires WithFresh(s, w, id, role) && w.leaderId != Some(id)
    requires LeaderAcknowledged(w, w.pipelines, t.pipelines) && t == w.(pipelines := t.pipelines)
    ensures PeerAdded(s, t, id, role)
  {
    hide FreshNode, Waiting, Acknowledged;
  }

  ghost predicate PeerAdded(s: C.Cluster, t: C.Cluster, id: NodeId, role: ReplicaRole) {
    && id in t.nodes && FreshNode(t.nodes[id], id, role) && t.nodes == s.nodes[id := t.nodes[id]]
    && id in t.pipelines && Waiting(t.pipelines[id], s.lastLogIndex + 1)
    && LeaderAcknowledged(s, s.pipelines, t.pipelines - {id})
    && t == s.(nodes := t.nodes, pipelines := t.pipelines)
  }

  /** The node and its pipeline are gone and, if it led, leadership and lease with it. */
  ghost predicate PeerRemoved(s: C.Cluster, t: C.Cluster, id: NodeId) {
    && t.nodes == s.nodes - {id} && LeaderAcknowledged(t, s.pipelines - {id}, t.pipelines)
    && t.leaderId == (if s.leaderId == Some(id) then None else s.leaderId)
    && t.leaseValid == (s.leaseValid && s.leaderId != Some(id))
    && t == s.(nodes := t.nodes, pipelines := t.pipelines, leaderId := t.leaderId, leaseValid := t.leaseValid)
  }

  /** A peer is removed exactly when it is known. */
  lemma RemovePeerIsExact(s: C.Cluster, id: NodeId)
    requires Shape(s)
    ensures var (t, r) := C.RemovePeer(s, id);
            && (r.Ok? <==> id in s.nodes) && (r.Err? ==> t == s && r == Err(NodeNotFound(id)))
            && (r.Ok? ==> PeerRemoved(s, t, id))
  {
    if id in s.nodes {
      var w := C.WithoutPeer(s, id);
      RefreshAcknowledges(w);
      hide C.RefreshPipelines, Acknowledged, NodeShape;
    }
  }

  /** The node has become a voter and follows, whatever it was, and nothing else changed. */
  ghost predicate PromotedTo(s: C.Cluster, t: C.Cluster, id: NodeId) {
    && id in s.nodes && id in t.nodes && t.nodes == s.nodes[id := t.nodes[id]] && t == s.(nodes := t.nodes)
    && t.nodes[id].replicaRole == Voter && t.nodes[id].raftRole == FollowerRole
    && t.nodes[id] == s.nodes[id].(replicaRole := t.nodes[id].replicaRole, raftRole := t.nodes[id].raftRole)
  }

  /** A node is promoted exactly when it has matched the commit index. */
  lemma PromoteIsExact(s: C.Cluster, id: NodeId)
    ensures var (t, r) := C.PromotePeer(s, id);
            && (r.Ok? <==> id in s.nodes && C.MatchIndex(s.nodes[id]) >= s.commitIndex)
            && (r == Err(NodeNotFound(id)) <==> id !in s.nodes)
            && (r.Err? ==> t == s)
            && (r.Ok? ==> PromotedTo(s, t, id))
  {
  }

  // ----- Snapshots and compaction -----

  /** The counters agree with the queues, buffered entries are kept under their index, and no
      snapshot transfer is going on. */
  ghost predicate Sound(p: P.Pipeline) {
    T.Conserved(p) && Keyed(p) && Idle(p)
  }

  ghost predicate PipelinesSound(pipelines: map<NodeId, P.Pipeline>) {
    forall id :: id in pipelines ==> Sound(pipelines[id])
  }

  ghost predicate AllSound(s: C.Cluster) {
    PipelinesSound(s.pipelines)
  }

  /** The log is what was beyond the index, in order. */
  ghost predicate KeptAbove(log: seq<LogEntry>, kept: seq<LogEntry>, index: LogIndex) {
    exists from: nat :: BeyondFrom(log, from, index) && kept == log[from..]
  }

  ghost predicate BeyondFrom(log: seq<LogEntry>, from: nat, index: LogIndex) {
    from <= |log| && forall i :: 0 <= i < |log| ==> (log[i].logId.index > index <==> from <= i)
  }

  /** The node took the snapshot in place of what it covers of the log, committed it and, when it
      serves data, applied it. */
  ghost predicate TookSnapshot(n: C.Node, m: C.Node, meta: SnapshotMeta) {
    && m.installedSnapshot == Some(meta) && KeptAbove(n.log, m.log, meta.lastLogId.index)
    && m.commitIndex == Max(n.commitIndex, meta.lastLogId.index)
    && m.appliedIndex == (if n.replicaRole.Witness? then n.appliedIndex else Max(n.appliedIndex, meta.lastLogId.index))
    && m.hardState == n.hardState.(committed := Some(LogId(n.hardState.currentTerm, m.commitIndex)))
    && m == n.(log := m.log, installedSnapshot := m.installedSnapshot, commitIndex := m.commitIndex,
               appliedIndex := m.appliedIndex, hardState := m.hardState)
  }

  lemma TakesSnapshot(n: C.Node, meta: SnapshotMeta)
    requires AscendingLog(n.log)
    ensures TookSnapshot(n, C.InstallSnapshot(n, meta), meta)
  {
    var from := AboveIsSuffix(n.log, meta.lastLogId.index);
    assert BeyondFrom(n.log, from, meta.lastLogId.index);
  }

  lemma RecordsInstall(p: P.Pipeline, index: LogIndex)
    requires Idle(p)
    ensures Finished(p, C.RecordInstall(p, index), index)
  {
  }

  /** The aggregate indices are the greatest commit, the least applied of the nodes that serve
      data, and the greatest match. */
  ghost predicate IndicesRefreshed(s: C.Cluster) {
    GreatestRefreshed(s.nodes, s.commitIndex, s.lastLogIndex) && AppliedRefreshed(s.nodes, s.appliedIndex)
  }

  ghost predicate GreatestRefreshed(nodes: map<NodeId, C.Node>, commit: LogIndex, last: LogIndex) {
    && (forall k :: k in nodes ==> nodes[k].commitIndex <= commit && C.MatchIndex(nodes[k]) <= last)
    && (commit == 0 || exists k :: k in nodes && nodes[k].commitIndex == commit)
    && (last == 0 || exists k :: k in nodes && C.MatchIndex(nodes[k]) == last)
  }

  ghost predicate AppliedRefreshed(nodes: map<NodeId, C.Node>, applied: LogIndex) {
    && (forall k :: k in nodes && !nodes[k].replicaRole.Witness? ==> applied <= nodes[k].appliedIndex)
    && if exists k :: k in nodes && !nodes[k].replicaRole.Witness?
       then exists k :: k in nodes && !nodes[k].replicaRole.Witness? && nodes[k].appliedIndex == applied
       else applied == 0
  }

  lemma {:induction false} MinAppliedIsLeast(nodes: map<NodeId, C.Node>, keys: seq<NodeId>)
    requires forall k :: k in keys ==> k in nodes
    ensures match C.MinApplied(nodes, keys)
            case None => forall k :: k in keys ==> nodes[k].replicaRole.Witness?
            case Some(m) =>
              && (forall k :: k in keys && !nodes[k].replicaRole.Witness? ==> m <= nodes[k].appliedIndex)
              && exists k :: k in keys && !nodes[k].replicaRole.Witness? && nodes[k].appliedIndex == m
  {
    if keys != [] {
      MinAppliedIsLeast(nodes, keys[1..]);
      assert keys[0] in keys && forall k :: k in keys <==> k == keys[0] || k in keys[1..];
    }
  }

  lemma GreatestIsExact(nodes: map<NodeId, C.Node>, keys: seq<NodeId>)
    requires forall k :: k in keys <==> k in nodes
    ensures GreatestRefreshed(nodes, C.MaxCommit(nodes, keys), C.MaxMatch(nodes, keys))
  {
    MaxCommitIsMax(nodes, keys);
    MaxMatchIsMax(nodes, keys);
    hide C.MaxCommit, C.MaxMatch, C.MatchIndex;
  }

  lemma AppliedIsExact(nodes: map<NodeId, C.Node>, keys: seq<NodeId>)
    requires forall k :: k in keys <==> k in nodes
    ensures AppliedRefreshed(nodes, C.MinApplied(nodes, keys).UnwrapOr(0))
  {
    MinAppliedIsLeast(nodes, keys);
    hide C.MinApplied;
  }

  lemma RefreshIsExact(s: C.Cluster)
    ensures var t := C.RefreshIndexes(s);
            && IndicesRefreshed(t)
            && t == s.(commitIndex := t.commitIndex, appliedIndex := t.appliedIndex, lastLogIndex := t.lastLogIndex)
  {
    var keys := C.Keys(s);
    assert forall k :: k in keys <==> k in s.nodes;
    hide C.MaxCommit, C.MaxMatch, C.MinApplied, C.MatchIndex, C.Keys, Ascending, GreatestRefreshed, AppliedRefreshed;
    GreatestIsExact(s.nodes, keys);
    AppliedIsExact(s.nodes, keys);
  }

  /** A snapshot fits the fence that comes with it. */
  predicate FitsFence(snapshot: Snapshot, fence: ApplySnapshotFence) {
    && fence.installedSnapshotIndex == snapshot.meta.lastLogId.index
    && (fence.firstRetainedLogIndex == 0 || fence.firstRetainedLogIndex > snapshot.meta.lastLogId.index)
  }

  /** Main result: a snapshot is installed exactly when it is of the group, fits its fence and
      the node is known; that node and its pipeline take it, nothing else changes but the
      aggregate indices, which then are exact. */
  lemma InstallIsExact(s: C.Cluster, id: NodeId, snapshot: Snapshot, fence: ApplySnapshotFence)
    requires Shape(s) && AllSound(s)
    ensures var (t, r) := C.InstallSnapshotTo(s, id, snapshot, fence);
            InstallsExactly(s, id, snapshot, fence, t, r)
  {
    InstallAnswers(s, id, snapshot, fence);
    if C.InstallSnapshotTo(s, id, snapshot, fence).1.Ok? {
      assert id in s.nodes;
      hide *;
      var w := C.Installed(s, id, snapshot.meta);
      InstalledNode(s, id, snapshot.meta);
      RefreshIsExact(w);
      RefreshedInstall(s, w, C.RefreshIndexes(w), id, snapshot.meta);
    }
  }

  lemma InstallAnswers(s: C.Cluster, id: NodeId, snapshot: Snapshot, fence: ApplySnapshotFence)
    ensures var (t, r) := C.InstallSnapshotTo(s, id, snapshot, fence);
            && r == (if snapshot.groupId != s.groupId then Err(InvalidRequest)
                     else if !FitsFence(snapshot, fence) then Err(Storage)
                     else if id !in s.nodes then Err(NodeNotFound(id)) else Ok(()))
            && (r.Err? ==> t == s)
            && (r.Ok? ==> t == C.RefreshIndexes(C.Installed(s, id, snapshot.meta)))
  {
    hide C.RefreshIndexes, C.Installed;
  }

  lemma RefreshedInstall(s: C.Cluster, w: C.Cluster, t: C.Cluster, id: NodeId, meta: SnapshotMeta)
    requires id in s.nodes && id in w.nodes && id in s.pipelines && id in w.pipelines
    requires w.nodes == s.nodes[id := w.nodes[id]] && w.pipelines == s.pipelines[id := w.pipelines[id]]
    requires TookSnapshot(s.nodes[id], w.nodes[id], meta)
    requires Finished(s.pipelines[id], w.pipelines[id], meta.lastLogId.index)
    requires w == s.(nodes := w.nodes, pipelines := w.pipelines)
    requires IndicesRefreshed(t)
    requires t == w.(commitIndex := t.commitIndex, appliedIndex := t.appliedIndex, lastLogIndex := t.lastLogIndex)
    ensures InstalledOn(s, t, id, meta)
  {
    hide TookSnapshot, Finished, IndicesRefreshed;
  }

  lemma InstalledNode(s: C.Cluster, id: NodeId, meta: SnapshotMeta)
    requires Shape(s) && AllSound(s) && id in s.nodes
    ensures var t := C.Installed(s, id, meta);
            && id in t.nodes && id in s.pipelines && id in t.pipelines
            && t.nodes == s.nodes[id := t.nodes[id]] && t.pipelines == s.pipelines[id := t.pipelines[id]]
            && TookSnapshot(s.nodes[id], t.nodes[id], meta)
            && Finished(s.pipelines[id], t.pipelines[id], meta.lastLogId.index)
            && t == s.(nodes := t.nodes, pipelines := t.pipelines)
  {
    assert NodeShape(s.nodes[id], id, s.leaderId, s.currentTerm);
    TakesSnapshot(s.nodes[id], meta);
    RecordsInstall(s.pipelines[id], meta.lastLogId.index);
    hide C.InstallSnapshot, C.RecordInstall, TookSnapshot, Finished, Idle, NodeShape;
  }

  ghost predicate InstallsExactly(s: C.Cluster, id: NodeId, snapshot: Snapshot, fence: ApplySnapshotFence,
                                  t: C.Cluster, r: Result<()>)
  {
    && r == (if snapshot.groupId != s.groupId then Err(InvalidRequest)
             else if !FitsFence(snapshot, fence) then Err(Storage)
             else if id !in s.nodes then Err(NodeNotFound(id)) else Ok(()))
    && (r.Err? ==> t == s)
    && (r.Ok? ==> InstalledOn(s, t, id, snapshot.meta))
  }

  ghost predicate InstalledOn(s: C.Cluster, t: C.Cluster, id: NodeId, meta: SnapshotMeta) {
    && id in s.nodes && id in t.nodes && id in s.pipelines && id in t.pipelines
    && t.nodes == s.nodes[id := t.nodes[id]] && t.pipelines == s.pipelines[id := t.pipelines[id]]
    && TookSnapshot(s.nodes[id], t.nodes[id], meta)
    && Finished(s.pipelines[id], t.pipelines[id], meta.lastLogId.index)
    && IndicesRefreshed(t)
    && t == s.(nodes := t.nodes, pipelines := t.pipelines, commitIndex := t.commitIndex,
               appliedIndex := t.appliedIndex, lastLogIndex := t.lastLogIndex)
  }

  /** How many entries the listed nodes hold. */
  function EntriesHeld(nodes: map<NodeId, C.Node>, keys: seq<NodeId>): nat
    requires forall k :: k in keys ==> k in nodes
  {
    if keys == [] then 0 else EntriesHeld(nodes, keys[..|keys| - 1]) + |nodes[keys[|keys| - 1]].log|
  }

  lemma {:induction false} AboveIsNoLonger(log: seq<LogEntry>, index: LogIndex)
    ensures |C.EntriesAbove(log, index)| <= |log|
  {
    if log != [] {
      AboveIsNoLonger(log[1..], index);
    }
  }

  lemma {:induction false} RemovedCounts(s: C.Cluster, keys: seq<NodeId>, index: LogIndex)
    requires forall k :: k in keys ==> k in s.nodes
    ensures C.Removed(s.nodes, keys, index) + EntriesHeld(C.Compacted(s, index).nodes, keys) == EntriesHeld(s.nodes, keys)
    decreases |keys|
  {
    if keys != [] {
      RemovedCounts(s, keys[..|keys| - 1], index);
      AboveIsNoLonger(s.nodes[keys[|keys| - 1]].log, index);
    }
  }

  /** The nodes are as before but for what the index covers of their logs. */
  ghost predicate CompactedNodes(before: map<NodeId, C.Node>, after: map<NodeId, C.Node>, index: LogIndex) {
    && after.Keys == before.Keys
    && forall k :: k in before ==> KeptAbove(before[k].log, after[k].log, index) && after[k] == before[k].(log := after[k].log)
  }

  lemma CompactsNodes(s: C.Cluster, index: LogIndex)
    requires Shape(s)
    ensures CompactedNodes(s.nodes, C.Compacted(s, index).nodes, index)
  {
    forall k | k in s.nodes ensures KeptAbove(s.nodes[k].log, C.CompactLog(s.nodes[k], index).log, index) {
      assert NodeShape(s.nodes[k], k, s.leaderId, s.currentTerm);
      CompactsNode(s.nodes[k], index);
    }
    hide KeptAbove, NodeShape, C.EntriesAbove;
  }

  lemma CompactsNode(n: C.Node, index: LogIndex)
    requires AscendingLog(n.log)
    ensures KeptAbove(n.log, C.CompactLog(n, index).log, index)
  {
    var from := AboveIsSuffix(n.log, index);
    assert BeyondFrom(n.log, from, index);
  }

  /** Main result: compaction leaves of every log what was beyond the index, reports as many
      entries as the nodes hold less of, and changes nothing else but the aggregate indices. */
  lemma CompactIsExact(s: C.Cluster, index: LogIndex)
    requires Shape(s)
    ensures var t := C.CompactLogs(s, index);
            && CompactedNodes(s.nodes, t.nodes, index)
            && EntriesHeld(s.nodes, C.Keys(s)) == EntriesHeld(t.nodes, C.Keys(s)) + C.Removed(s.nodes, C.Keys(s), index)
            && IndicesRefreshed(t)
            && t == s.(nodes := t.nodes, commitIndex := t.commitIndex, appliedIndex := t.appliedIndex,
                       lastLogIndex := t.lastLogIndex)
  {
    CompactsNodes(s, index);
    RefreshIsExact(C.Compacted(s, index));
    RemovedCounts(s, C.Keys(s), index);
    hide C.RefreshIndexes, CompactedNodes, IndicesRefreshed, Shape, C.Removed, EntriesHeld, C.Keys;
  }

  // ----- Records -----

  /** The lists hold exactly the nodes of their role, in order of ids, under the current term. */
  ghost predicate ListsMembers(s: C.Cluster, m: Members.Membership) {
    && m.groupId == s.groupId && m.epoch == s.currentTerm
    && Ascending(m.voters) && Ascending(m.learners) && Ascending(m.witnesses)
    && (forall k :: k in m.voters <==> k in s.nodes && s.nodes[k].replicaRole == Voter)
    && (forall k :: k in m.learners <==> k in s.nodes && s.nodes[k].replicaRole == Learner)
    && (forall k :: k in m.witnesses <==> k in s.nodes && s.nodes[k].replicaRole == Witness)
  }

  lemma {:induction false} WithRoleLists(nodes: map<NodeId, C.Node>, keys: seq<NodeId>, role: ReplicaRole)
    requires Ascending(keys) && forall k :: k in keys ==> k in nodes
    ensures var l := C.WithRole(nodes, keys, role);
            Ascending(l) && forall k :: k in l <==> k in keys && nodes[k].replicaRole == role
  {
    if keys != [] {
      WithRoleLists(nodes, keys[1..], role);
      assert forall k :: k in keys <==> k == keys[0] || k in keys[1..];
      assert forall k :: k in keys[1..] ==> keys[0] < k;
      AscendingCons(keys[0], C.WithRole(nodes, keys[1..], role));
    }
  }

  lemma MembershipIsExact(s: C.Cluster)
    ensures ListsMembers(s, C.MembershipOf(s))
  {
    var keys := C.Keys(s);
    hide C.WithRole, Ascending, C.Keys;
    WithRoleLists(s.nodes, keys, Voter);
    WithRoleLists(s.nodes, keys, Learner);
    WithRoleLists(s.nodes, keys, Witness);
  }

  /** The record of a node carries all that the node keeps, the members of the cluster, and a
      fence whose first retained index is past the snapshot or, without one, that of the first
      entry. */
  ghost predicate Records(s: C.Cluster, id: NodeId, r: W.WalRecord)
    requires id in s.nodes
  {
    var n := s.nodes[id];
    && r.groupId == s.groupId && r.nodeId == id && r.hardState == n.hardState && r.entries == n.log
    && r.installedSnapshot == n.installedSnapshot && ListsMembers(s, r.membership)
    && r.fence.appliedIndex == n.appliedIndex && r.fence.commitIndex == n.commitIndex
    && (n.installedSnapshot.None? ==>
          && r.fence.installedSnapshotIndex == 0
          && r.fence.firstRetainedLogIndex == if n.log == [] then 0 else n.log[0].logId.index)
    && (n.installedSnapshot.Some? && n.installedSnapshot.value.lastLogId.index > 0 ==>
          && r.fence.installedSnapshotIndex == n.installedSnapshot.value.lastLogId.index
          && r.fence.firstRetainedLogIndex == r.fence.installedSnapshotIndex + 1)
  }

  lemma RecordIsExact(s: C.Cluster, h: W.Hash, id: NodeId)
    ensures var r := C.WalRecordFor(s, h, id);
            && (r.Ok? <==> id in s.nodes) && (r.Err? ==> r.error == NodeNotFound(id))
            && (r.Ok? ==> Records(s, id, r.value) && W.ChecksumValid(h, r.value))
  {
    MembershipIsExact(s);
    hide C.MembershipOf, ListsMembers;
  }

  /** After a restore the aggregate indices are those of the nodes again, and the pipeline of the
      leader is acknowledged up to the greatest match; no other pipeline changes. */
  lemma RestoreRefreshes(s: C.Cluster, r: W.WalRecord)
    requires s.pipelines.Keys == s.nodes.Keys
    ensures var (t, result) := C.RestoreWalRecord(s, r);
            && (result.Ok? ==>
                  && IndicesRefreshed(t) && LeaderAcknowledged(t, s.pipelines, t.pipelines)
                  && t == s.(nodes := t.nodes, pipelines := t.pipelines, currentTerm := t.currentTerm,
                             commitIndex := t.commitIndex, appliedIndex := t.appliedIndex, lastLogIndex := t.lastLogIndex))
            && result == (if r.groupId != s.groupId then Err(InvalidRequest)
                          else if r.nodeId !in s.nodes then Err(NodeNotFound(r.nodeId)) else Ok(()))
  {
    if C.RestoreWalRecord(s, r).1.Ok? {
      var w := C.Recovered(s, r);
      var u := C.RefreshIndexes(w);
      RefreshIsExact(w);
      RefreshAcknowledges(u);
      assert u.leaderId == s.leaderId && u.pipelines == s.pipelines && u.nodes.Keys == s.nodes.Keys;
      hide C.RefreshIndexes, C.RefreshPipelines, Acknowledged, GreatestRefreshed, AppliedRefreshed, C.MatchIndex;
    }
  }

  // ----- The pipelines of a cluster stay sound -----

  lemma WaitingIsSound(p: P.Pipeline, next: LogIndex)
    requires Waiting(p, next)
    ensures Sound(p)
  {
  }

  lemma AcknowledgeKeepsSound(p: P.Pipeline, term: Term, index: LogIndex)
    requires Sound(p)
    ensures Sound(C.Acknowledge(p, term, index))
  {
    var r := AppendResponse(term, true, index, None);
    ResponseSameTransfer(p, r);
    T.ResponseConserves(p, r);
    SuccessIsExact(p, r);
    hide P.HandleAppendResponse, T.Conserved, Keyed, Succeeded;
  }

  lemma QueueKeepsSound(p: P.Pipeline, e: LogEntry)
    requires Sound(p)
    ensures Sound(P.QueueAppend(p, e).0)
  {
    T.QueueConserves(p, e);
    hide T.Conserved;
  }

  lemma FlushKeepsSound(p: P.Pipeline, maxEntries: nat, maxBytes: nat)
    requires Sound(p)
    ensures Sound(P.FlushAppendBatch(p, maxEntries, maxBytes).0)
  {
    T.FlushNeverHitsMemoryGuard(p, maxEntries, maxBytes);
    FlushSameTransfer(p, Max(maxEntries, 1), Max(maxBytes, 1));
    FlushKeepsBuffer(p, Max(maxEntries, 1), Max(maxBytes, 1));
    hide T.Conserved, P.FlushLoop;
  }

  lemma ReplicateOneSound(r: C.Replicas, id: NodeId, leader: NodeId, e: LogEntry, maxBytes: nat)
    requires id in r.nodes && PipelinesSound(r.pipelines)
    ensures PipelinesSound(C.ReplicateOne(r, id, leader, e, maxBytes).0.pipelines)
  {
    if id in r.pipelines {
      var queued := P.QueueAppend(r.pipelines[id], e).0;
      var flushed := P.FlushAppendBatch(queued, C.FLUSH_ENTRIES, maxBytes).0;
      var n := r.nodes[id];
      QueueKeepsSound(r.pipelines[id], e);
      FlushKeepsSound(queued, C.FLUSH_ENTRIES, maxBytes);
      AcknowledgeKeepsSound(flushed, n.hardState.currentTerm, C.MatchIndex(C.AppendEntry(n, e)));
    }
    hide Sound, C.Acknowledge, P.QueueAppend, P.FlushAppendBatch, C.AppendEntry, C.MatchIndex;
  }

  lemma {:induction false} ReplicateAllSound(r: C.Replicas, keys: seq<NodeId>, leader: NodeId, e: LogEntry, maxBytes: nat)
    requires (forall k :: k in keys ==> k in r.nodes) && PipelinesSound(r.pipelines)
    ensures PipelinesSound(C.ReplicateAll(r, keys, leader, e, maxBytes).0.pipelines)
    decreases |keys|
  {
    if keys != [] {
      var (next, ok) := C.ReplicateOne(r, keys[0], leader, e, maxBytes);
      ReplicateOneSound(r, keys[0], leader, e, maxBytes);
      ReplicateOneKeys(r, keys[0], leader, e, maxBytes);
      hide C.ReplicateOne, PipelinesSound;
      if ok {
        ReplicateAllSound(next, keys[1..], leader, e, maxBytes);
      }
    }
  }

  lemma ReplicateOneKeys(r: C.Replicas, id: NodeId, leader: NodeId, e: LogEntry, maxBytes: nat)
    requires id in r.nodes
    ensures C.ReplicateOne(r, id, leader, e, maxBytes).0.nodes.Keys == r.nodes.Keys
  {
  }

  lemma RefreshSound(s: C.Cluster)
    requires PipelinesSound(s.pipelines) && s.pipelines.Keys == s.nodes.Keys
    ensures PipelinesSound(C.RefreshPipelines(s).pipelines)
  {
    var filled := C.Filled(s.nodes, s.pipelines);
    assert filled == s.pipelines;
    if s.leaderId.Some? && s.leaderId.value in filled {
      AcknowledgeKeepsSound(filled[s.leaderId.value], s.currentTerm, s.lastLogIndex);
    }
    hide C.Acknowledge, C.Filled, Sound;
  }

  lemma ElectionSound(s: C.Cluster, id: NodeId, forced: bool)
    requires Shape(s) && PipelinesSound(s.pipelines)
    ensures PipelinesSound(C.Campaign(s, id, forced).0.pipelines)
  {
    RefreshSound(C.Elected(s, id));
    hide C.RefreshPipelines, PipelinesSound;
  }

  lemma ProposeSound(s: C.Cluster, payload: Payload)
    requires PipelinesSound(s.pipelines)
    ensures PipelinesSound(C.Propose(s, payload).0.pipelines)
  {
    if C.CanPropose(s, payload) {
      ReplicateAllSound(C.Replicas(s.nodes, s.pipelines), C.Keys(s), s.leaderId.value, C.ProposedEntry(s, payload),
                       Max(s.config.maxPayloadBytes, 1));
      RefreshCommitKeeps(C.Replicated(s, payload).0);
    }
    hide C.ReplicateAll, C.RefreshCommit, PipelinesSound, C.CanPropose;
  }

  lemma WithPeerSound(s: C.Cluster, peer: C.Peer)
    requires PipelinesSound(s.pipelines) && s.pipelines.Keys == s.nodes.Keys
    ensures var w := C.WithPeer(s, peer); PipelinesSound(w.pipelines) && w.pipelines.Keys == w.nodes.Keys
  {
    NewIsWaiting(s.lastLogIndex + 1);
    WaitingIsSound(P.New(s.lastLogIndex + 1, P.DEFAULT_LIMITS), s.lastLogIndex + 1);
    hide Sound, Waiting, P.New;
  }

  lemma WithoutPeerSound(s: C.Cluster, id: NodeId)
    requires PipelinesSound(s.pipelines) && s.pipelines.Keys == s.nodes.Keys
    ensures var w := C.WithoutPeer(s, id); PipelinesSound(w.pipelines) && w.pipelines.Keys == w.nodes.Keys
  {
    hide Sound;
  }

  lemma PeersSound(s: C.Cluster, step: Step)
    requires s.pipelines.Keys == s.nodes.Keys && PipelinesSound(s.pipelines) && (step.AddPeer? || step.Remove?)
    ensures PipelinesSound(Next(s, step).pipelines)
  {
    hide C.RefreshPipelines, C.WithPeer, C.WithoutPeer, PipelinesSound;
    if step.AddPeer? && step.peer.nodeId !in s.nodes {
      WithPeerSound(s, step.peer);
      RefreshSound(C.WithPeer(s, step.peer));
    } else if step.Remove? && step.id in s.nodes {
      WithoutPeerSound(s, step.id);
      RefreshSound(C.WithoutPeer(s, step.id));
    }
  }

  lemma CatchUpSound(s: C.Cluster, id: NodeId)
    requires PipelinesSound(s.pipelines)
    ensures PipelinesSound(C.CatchUp(s, id).0.pipelines)
  {
    if C.CatchUp(s, id).1.Ok? && id in s.pipelines {
      AcknowledgeKeepsSound(s.pipelines[id], s.currentTerm, C.MatchIndex(C.CaughtUp(s, id).nodes[id]));
    }
    hide Sound, C.Acknowledge, C.CopyFromLeader, C.MaxCommit, C.MaxMatch, C.MinApplied, C.MatchIndex;
  }

  lemma InstallKeepsSound(p: P.Pipeline, index: LogIndex)
    requires Sound(p)
    ensures Sound(C.RecordInstall(p, index))
  {
    RecordsInstall(p, index);
    hide C.RecordInstall;
  }

  lemma InstallSound(s: C.Cluster, id: NodeId, snapshot: Snapshot, fence: ApplySnapshotFence)
    requires PipelinesSound(s.pipelines)
    ensures PipelinesSound(C.InstallSnapshotTo(s, id, snapshot, fence).0.pipelines)
  {
    if id in s.pipelines {
      InstallKeepsSound(s.pipelines[id], snapshot.meta.lastLogId.index);
    }
    hide Sound, C.RecordInstall, C.MaxCommit, C.MaxMatch, C.MinApplied, C.MatchIndex;
  }

  /** Main result: every step keeps the pipelines of the cluster sound: their counters agree with
      their queues, and no snapshot transfer stays open. */
  lemma StepKeepsSound(s: C.Cluster, step: Step)
    requires Shape(s) && AllSound(s)
    ensures AllSound(Next(s, step))
  {
    match step {
      case Start =>
        if s.leaderId.None? && C.FirstElectable(s.nodes, C.Keys(s)).Some? {
          ElectionSound(s.(running := true), C.FirstElectable(s.nodes, C.Keys(s)).value, true);
        }
      case Campaign(id, forced) => ElectionSound(s, id, forced);
      case Transfer(id) => ElectionSound(s, id, true);
      case Propose(payload) => ProposeSound(s, payload);
      case AddPeer(_) => PeersSound(s, step);
      case Remove(_) => PeersSound(s, step);
      case CatchUp(id) => CatchUpSound(s, id);
      case InstallSnapshot(id, snapshot, fence) => InstallSound(s, id, snapshot, fence);
      case _ =>
    }
    hide C.Campaign, C.Propose, C.AddPeer, C.RemovePeer, C.CatchUp, C.InstallSnapshotTo, C.FirstElectable, PipelinesSound;
    hide NodeShape, C.RefreshIndexes, C.MatchIndex, C.Keys;
  }

  lemma {:induction false} RunKeepsSound(s: C.Cluster, steps: seq<Step>)
    requires Agrees(s) && AllSound(s)
    ensures AllSound(Run(s, steps))
    decreases |steps|
  {
    if steps != [] {
      StepKeepsSound(s, steps[0]);
      StepKeepsAgreement(s, steps[0]);
      hide Next, Agrees, AllSound;
      RunKeepsSound(Next(s, steps[0]), steps[1..]);
    }
  }

  lemma StartedIsSound(s: C.Cluster, peers: seq<C.Peer>)
    requires Started(s, peers)
    ensures AllSound(s)
  {
    forall id | id in s.pipelines ensures Sound(s.pipelines[id]) {
      WaitingIsSound(s.pipelines[id], 1);
    }
    hide Sound, Waiting, FreshNode;
  }

  /** Main result: in every state that a run from a new cluster reaches the pipelines are sound. */
  lemma ReachedIsSound(groupId: GroupId, config: C.Config, peers: seq<C.Peer>, steps: seq<Step>)
    requires C.New(groupId, config, peers).Ok?
    ensures var s := Run(C.New(groupId, config, peers).value, steps); Shape(s) && AllSound(s)
  {
    var s := C.New(groupId, config, peers).value;
    NewIsExact(groupId, config, peers);
    NewAgrees(groupId, config, peers);
    RunKeepsAgreement(s, steps);
    assert Shape(Run(s, steps)) by {
      hide C.New, Run, Shape;
    }
    hide *;
    StartedIsSound(s, peers);
    RunKeepsSound(s, steps);
  }

  /** Main result: installing is exact in every state that a run from a new cluster reaches. */
  lemma ReachedInstallIsExact(groupId: GroupId, config: C.Config, peers: seq<C.Peer>, steps: seq<Step>,
                              id: NodeId, snapshot: Snapshot, fence: ApplySnapshotFence)
    requires C.New(groupId, config, peers).Ok?
    ensures var s := Run(C.New(groupId, config, peers).value, steps);
            var (t, r) := C.InstallSnapshotTo(s, id, snapshot, fence);
            InstallsExactly(s, id, snapshot, fence, t, r)
  {
    hide *;
    ReachedIsSound(groupId, config, peers, steps);
    InstallIsExact(Run(C.New(groupId, config, peers).value, steps), id, snapshot, fence);
  }
}
