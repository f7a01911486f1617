/** Runs of the cluster, and the shape that every step keeps: logs in ascending order, at most
    one leader, a pipeline for every node, and entries that only proposals bring in. */
module ClusterRuns {
  import opened Types
  import opened Ordering
  import C = ClusterModel
  import P = PipelineModel
  import W = WalModel

  datatype Step =
    | Start
    | Stop
    | SetHealthy(id: NodeId, healthy: bool)
    | SetLease(valid: bool)
    | Campaign(id: NodeId, forced: bool)
    | Propose(payload: Payload)
    | Transfer(id: NodeId)
    | AddPeer(peer: C.Peer)
    | Promote(id: NodeId)
    | Remove(id: NodeId)
    | CatchUp(id: NodeId)
    | InstallSnapshot(id: NodeId, snapshot: Snapshot, fence: ApplySnapshotFence)
    | Compact(index: LogIndex)

  function Next(s: C.Cluster, step: Step): C.Cluster {
    match step
    case Start => C.Start(s).0
    case Stop => C.Stop(s)
    case SetHealthy(id, healthy) => C.SetHealthy(s, id, healthy).0
    case SetLease(valid) => s.(leaseValid := valid)
    case Campaign(id, forced) => C.Campaign(s, id, forced).0
    case Propose(payload) => C.Propose(s, payload).0
    case Transfer(id) => C.TransferLeader(s, id).0
    case AddPeer(peer) => C.AddPeer(s, peer).0
    case Promote(id) => C.PromotePeer(s, id).0
    case Remove(id) => C.RemovePeer(s, id).0
    case CatchUp(id) => C.CatchUp(s, id).0
    case InstallSnapshot(id, snapshot, fence) => C.InstallSnapshotTo(s, id, snapshot, fence).0
    case Compact(index) => C.CompactLogs(s, index)
  }

  lemma NextPropose(s: C.Cluster, payload: Payload)
    ensures Next(s, Propose(payload)) == C.Propose(s, payload).0
  {
  }

  function Run(s: C.Cluster, steps: seq<Step>): C.Cluster
    decreases |steps|
  {
    if steps == [] then s else Run(Next(s, steps[0]), steps[1..])
  }

  // ----- Logs -----

  ghost predicate AscendingLog(log: seq<LogEntry>) {
    forall i, j :: 0 <= i < j < |log| ==> log[i].logId.index < log[j].logId.index
  }

  /** Appending past the end of the log extends it. */
  lemma AppendPastEnd(n: C.Node, e: LogEntry)
    requires forall i :: 0 <= i < |n.log| ==> n.log[i].logId.index < e.logId.index
    ensures C.AppendEntry(n, e) == n.(log := n.log + [e])
  {
  }

  lemma {:induction false} AppendManyPastEnd(n: C.Node, es: seq<LogEntry>)
    requires AscendingLog(n.log + es)
    ensures C.AppendEntries(n, es) == n.(log := n.log + es)
    decreases |es|
  {
    var log := n.log;
    if es != [] {
      forall i | 0 <= i < |log| ensures log[i].logId.index < es[0].logId.index {
        assert (log + es)[i] == log[i] && (log + es)[|log|] == es[0];
      }
      AppendPastEnd(n, es[0]);
      assert log + [es[0]] + es[1..] == log + es;
      AppendManyPastEnd(n.(log := log + [es[0]]), es[1..]);
    } else {
      assert log + es == log;
    }
  }

  /** The entries above an index are the end of an ascending log. */
  lemma {:induction false} AboveIsSuffix(log: seq<LogEntry>, index: LogIndex) returns (from: nat)
    requires AscendingLog(log)
    ensures from <= |log| && C.EntriesAbove(log, index) == log[from..]
    ensures forall i :: 0 <= i < |log| ==> (log[i].logId.index > index <==> from <= i)
  {
    if log == [] {
      from := 0;
    } else {
      var tail := AboveIsSuffix(log[1..], index);
      forall i | 1 <= i < |log| ensures log[i].logId.index > index <==> tail + 1 <= i {
        assert log[i] == log[1..][i - 1];
      }
      if log[0].logId.index > index {
        assert |log| > 1 ==> log[1..][0] == log[1];
        from := 0;
        assert [log[0]] + log[1..][tail..] == log;
      } else {
        from := tail + 1;
      }
    }
  }

  // ----- Aggregates -----

  lemma {:induction false} MaxMatchIsMax(nodes: map<NodeId, C.Node>, keys: seq<NodeId>)
    requires forall k :: k in keys ==> k in nodes
    ensures forall k :: k in keys ==> C.MatchIndex(nodes[k]) <= C.MaxMatch(nodes, keys)
    ensures C.MaxMatch(nodes, keys) == 0
            || exists k :: k in keys && C.MatchIndex(nodes[k]) == C.MaxMatch(nodes, keys)
  {
    if keys != [] {
      MaxMatchIsMax(nodes, keys[1..]);
      assert keys[0] in keys;
    }
  }

  lemma {:induction false} MaxCommitIsMax(nodes: map<NodeId, C.Node>, keys: seq<NodeId>)
    requires forall k :: k in keys ==> k in nodes
    ensures forall k :: k in keys ==> nodes[k].commitIndex <= C.MaxCommit(nodes, keys)
    ensures C.MaxCommit(nodes, keys) == 0
            || exists k :: k in keys && nodes[k].commitIndex == C.MaxCommit(nodes, keys)
  {
    if keys != [] {
      MaxCommitIsMax(nodes, keys[1..]);
      assert keys[0] in keys;
    }
  }

  // ----- What every node keeps -----

  /** A node knows its id, is at most at the cluster term, leads only if it is the leader,
      and has an ascending log of entries with positive indices and terms up to the current. */
  ghost predicate NodeShape(n: C.Node, id: NodeId, leader: Option<NodeId>, term: Term) {
    && n.id == id && n.hardState.currentTerm <= term
    && (n.raftRole == LeaderRole ==> leader == Some(id))
    && AscendingLog(n.log)
    && forall e :: e in n.log ==> e.logId.index >= 1 && e.logId.term <= term
  }

  ghost predicate Shape(s: C.Cluster) {
    && s.pipelines.Keys == s.nodes.Keys
    && (s.leaderId.Some? ==> s.leaderId.value in s.nodes && s.nodes[s.leaderId.value].replicaRole.Voter?)
    && forall id :: id in s.nodes ==> NodeShape(s.nodes[id], id, s.leaderId, s.currentTerm)
  }

  /** No node has matched past the last index of the cluster. */
  ghost predicate Bounded(s: C.Cluster) {
    forall id :: id in s.nodes ==> C.MatchIndex(s.nodes[id]) <= s.lastLogIndex
  }

  lemma RefreshedIsBounded(s: C.Cluster)
    ensures Bounded(C.RefreshIndexes(s))
  {
    MaxMatchIsMax(s.nodes, C.Keys(s));
  }

  /** The entry is in the log of some node. */
  ghost predicate EntryOf(s: C.Cluster, e: LogEntry) {
    exists id :: id in s.nodes && e in s.nodes[id].log
  }

  /** Entries of one index are the same entry, and terms do not go down along indices. */
  ghost predicate Compatible(e: LogEntry, f: LogEntry) {
    && (e.logId.index == f.logId.index ==> e == f)
    && (e.logId.index < f.logId.index ==> e.logId.term <= f.logId.term)
  }

  ghost predicate Coherent(s: C.Cluster) {
    forall e, f :: EntryOf(s, e) && EntryOf(s, f) ==> Compatible(e, f)
  }

  ghost predicate Agrees(s: C.Cluster) {
    Shape(s) && Bounded(s) && Coherent(s)
  }

  lemma EntriesAreBounded(s: C.Cluster, e: LogEntry)
    requires Shape(s) && Bounded(s) && EntryOf(s, e)
    ensures 1 <= e.logId.index <= s.lastLogIndex && e.logId.term <= s.currentTerm
  {
  }

  // ----- Replication of one proposal -----

  /** Whether a node takes a proposed entry into its log when every pipeline accepts it. */
  predicate Receives(n: C.Node, leader: NodeId) {
    n.id == leader || (n.replicaRole.CanServeData() && n.healthy)
  }

  /** What replication may have done to one node. */
  ghost predicate Touched(before: C.Node, after: C.Node, e: LogEntry) {
    after == before || after == C.AppendEntry(before, e)
  }

  lemma ReplicateOneNode(r: C.Replicas, id: NodeId, leader: NodeId, e: LogEntry, maxBytes: nat)
    requires id in r.nodes && r.nodes[id].id == id && r.pipelines.Keys == r.nodes.Keys
    ensures var (q, ok) := C.ReplicateOne(r, id, leader, e, maxBytes);
            && q.nodes.Keys == r.nodes.Keys && q.pipelines.Keys == r.pipelines.Keys
            && Touched(r.nodes[id], q.nodes[id], e)
            && (forall k :: k in r.nodes && k != id ==> q.nodes[k] == r.nodes[k])
            && (ok ==> q.nodes[id] == if Receives(r.nodes[id], leader) then C.AppendEntry(r.nodes[id], e) else r.nodes[id])
  {
  }

  /** The nodes after the entry was offered to the listed ones: each is touched at most once
      and, without a refusal, exactly the receivers among the listed append the entry. */
  ghost predicate Spread(before: map<NodeId, C.Node>, after: map<NodeId, C.Node>, keys: seq<NodeId>, leader: NodeId,
                         e: LogEntry, ok: bool)
  {
    && after.Keys == before.Keys
    && (forall k :: k in before ==> Touched(before[k], after[k], e))
    && (ok ==> forall k :: k in before ==>
          after[k] == if k in keys && Receives(before[k], leader) then C.AppendEntry(before[k], e) else before[k])
  }

  lemma SpreadFirst(before: map<NodeId, C.Node>, next: map<NodeId, C.Node>, after: map<NodeId, C.Node>, keys: seq<NodeId>,
                    leader: NodeId, e: LogEntry, ok: bool)
    requires keys != [] && Ascending(keys) && keys[0] in before && next.Keys == before.Keys
    requires Touched(before[keys[0]], next[keys[0]], e) && forall k :: k in before && k != keys[0] ==> next[k] == before[k]
    requires next[keys[0]] == if Receives(before[keys[0]], leader) then C.AppendEntry(before[keys[0]], e) else before[keys[0]]
    requires Spread(next, after, keys[1..], leader, e, ok)
    requires after[keys[0]] == next[keys[0]]
    ensures Spread(before, after, keys, leader, e, ok)
  {
  }

  /** Replication leaves alone what is not listed. */
  lemma {:induction false} ReplicateAllOthers(r: C.Replicas, keys: seq<NodeId>, leader: NodeId, e: LogEntry, maxBytes: nat,
                                              id: NodeId)
    requires (forall k :: k in keys ==> k in r.nodes) && id in r.nodes && id !in keys
    ensures C.ReplicateAll(r, keys, leader, e, maxBytes).0.nodes[id] == r.nodes[id]
    decreases |keys|
  {
    if keys != [] {
      var (next, ok) := C.ReplicateOne(r, keys[0], leader, e, maxBytes);
      ReplicateOneOthers(r, keys[0], leader, e, maxBytes, id);
      hide C.ReplicateOne;
      if ok {
        ReplicateAllOthers(next, keys[1..], leader, e, maxBytes, id);
      }
    }
  }

  lemma ReplicateOneOthers(r: C.Replicas, id: NodeId, leader: NodeId, e: LogEntry, maxBytes: nat, other: NodeId)
    requires id in r.nodes && other in r.nodes && other != id
    ensures var q := C.ReplicateOne(r, id, leader, e, maxBytes).0;
            q.nodes.Keys == r.nodes.Keys && q.nodes[other] == r.nodes[other]
  {
  }

  ghost predicate OwnIds(nodes: map<NodeId, C.Node>) {
    forall k :: k in nodes ==> nodes[k].id == k
  }

  lemma {:induction false} ReplicateAllNodes(r: C.Replicas, keys: seq<NodeId>, leader: NodeId, e: LogEntry, maxBytes: nat)
    requires Ascending(keys) && forall k :: k in keys ==> k in r.nodes
    requires r.pipelines.Keys == r.nodes.Keys && OwnIds(r.nodes)
    ensures var (q, ok) := C.ReplicateAll(r, keys, leader, e, maxBytes);
            q.pipelines.Keys == r.pipelines.Keys && Spread(r.nodes, q.nodes, keys, leader, e, ok)
    decreases |keys|
  {
    if keys != [] {
      ReplicateOneNode(r, keys[0], leader, e, maxBytes);
      var (next, ok) := C.ReplicateOne(r, keys[0], leader, e, maxBytes);
      AppendKeepsId(r.nodes[keys[0]], e);
      hide C.ReplicateOne, C.AppendEntry, Receives;
      if ok {
        assert OwnIds(next.nodes);
        hide Spread, OwnIds;
        ReplicateAllNodes(next, keys[1..], leader, e, maxBytes);
        assert keys[0] !in keys[1..];
        ReplicateAllOthers(next, keys[1..], leader, e, maxBytes, keys[0]);
        var (q, all) := C.ReplicateAll(next, keys[1..], leader, e, maxBytes);
        SpreadFirst(r.nodes, next.nodes, q.nodes, keys, leader, e, all);
      }
    }
  }

  lemma AppendKeepsId(n: C.Node, e: LogEntry)
    ensures C.AppendEntry(n, e).id == n.id
  {
  }

  function WithEntry(n: C.Node, e: LogEntry): C.Node {
    n.(log := n.log + [e])
  }

  /** A proposal puts its entry at the end of logs: when it succeeds, of the receivers. */
  lemma ReplicatedNodes(s: C.Cluster, payload: Payload)
    requires Shape(s) && Bounded(s) && C.CanPropose(s, payload)
    ensures var (t, ok) := C.Replicated(s, payload);
            var e := C.ProposedEntry(s, payload);
            && t.nodes.Keys == s.nodes.Keys
            && t.pipelines.Keys == s.nodes.Keys
            && t == s.(nodes := t.nodes, pipelines := t.pipelines, lastLogIndex := e.logId.index)
            && (forall id :: id in s.nodes ==> t.nodes[id] == s.nodes[id] || t.nodes[id] == WithEntry(s.nodes[id], e))
            && (ok ==> forall id :: id in s.nodes ==>
                  t.nodes[id] == if Receives(s.nodes[id], s.leaderId.value) then WithEntry(s.nodes[id], e) else s.nodes[id])
  {
    var e := C.ProposedEntry(s, payload);
    assert OwnIds(s.nodes) by {
      forall k | k in s.nodes ensures s.nodes[k].id == k {
        assert NodeShape(s.nodes[k], k, s.leaderId, s.currentTerm);
      }
    }
    ReplicateAllNodes(C.Replicas(s.nodes, s.pipelines), C.Keys(s), s.leaderId.value, e, Max(s.config.maxPayloadBytes, 1));
    EntryFitsEveryLog(s, payload);
    hide C.ReplicateAll, C.AppendEntry, Receives, NodeShape, C.MatchIndex, WithEntry;
  }

  lemma EntryFitsEveryLog(s: C.Cluster, payload: Payload)
    requires Shape(s) && Bounded(s)
    ensures forall id :: id in s.nodes ==>
      C.AppendEntry(s.nodes[id], C.ProposedEntry(s, payload)) == WithEntry(s.nodes[id], C.ProposedEntry(s, payload))
  {
    var e := C.ProposedEntry(s, payload);
    hide C.AppendEntry;
    forall id | id in s.nodes ensures C.AppendEntry(s.nodes[id], e) == WithEntry(s.nodes[id], e) {
      assert NodeShape(s.nodes[id], id, s.leaderId, s.currentTerm);
      LogIsBounded(s.nodes[id]);
      AppendPastEnd(s.nodes[id], e);
    }
  }

  /** The nodes of t are those of s, some with the entry added. */
  ghost predicate EntryAdded(s: C.Cluster, t: C.Cluster, e: LogEntry) {
    && t.nodes.Keys == s.nodes.Keys && t.commitIndex == s.commitIndex
    && forall id :: id in s.nodes ==> t.nodes[id] == s.nodes[id] || t.nodes[id] == WithEntry(s.nodes[id], e)
  }

  lemma ReplicatedAddsEntry(s: C.Cluster, payload: Payload)
    requires Shape(s) && Bounded(s) && C.CanPropose(s, payload)
    ensures EntryAdded(s, C.Replicated(s, payload).0, C.ProposedEntry(s, payload))
  {
    ReplicatedNodes(s, payload);
    hide C.Replicated, C.ProposedEntry, C.CanPropose, Receives, WithEntry, NodeShape, C.MatchIndex;
  }

  lemma LogIsBounded(n: C.Node)
    requires AscendingLog(n.log)
    ensures forall i :: 0 <= i < |n.log| ==> n.log[i].logId.index <= C.MatchIndex(n)
  {
  }

  /** The same node up to its commit and applied indices. */
  ghost predicate SameButCommit(a: C.Node, b: C.Node) {
    b == a.(commitIndex := b.commitIndex, appliedIndex := b.appliedIndex,
            hardState := a.hardState.(committed := b.hardState.committed))
  }

  lemma RefreshCommitKeeps(s: C.Cluster)
    ensures var t := C.RefreshCommit(s);
            && t.nodes.Keys == s.nodes.Keys
            && t == s.(nodes := t.nodes, commitIndex := t.commitIndex, appliedIndex := t.appliedIndex, lastLogIndex := t.lastLogIndex)
            && (forall id :: id in s.nodes ==> SameButCommit(s.nodes[id], t.nodes[id]))
            && (Bounded(s) ==> Bounded(t))
  {
    hide C.QuorumIndex;
    if C.QuorumIndex(s).Some? {
      RefreshedIsBounded(s.(nodes := C.AdvanceAll(s.nodes, Max(s.commitIndex, C.QuorumIndex(s).value))));
    }
  }

  /** The facts of Shape about nodes alone carry over to nodes that differ in commit. */
  lemma ShapeIgnoresCommit(s: C.Cluster, t: C.Cluster)
    requires Shape(s) && t.nodes.Keys == s.nodes.Keys && t.pipelines.Keys == s.pipelines.Keys
    requires t.leaderId == s.leaderId && t.currentTerm == s.currentTerm
    requires forall id :: id in s.nodes ==> SameButCommit(s.nodes[id], t.nodes[id])
    ensures Shape(t)
    ensures forall e :: EntryOf(t, e) ==> EntryOf(s, e)
  {
  }

  lemma WithEntryKeepsShape(n: C.Node, id: NodeId, leader: Option<NodeId>, term: Term, e: LogEntry)
    requires NodeShape(n, id, leader, term) && C.MatchIndex(n) < e.logId.index && e.logId.term == term
    ensures NodeShape(WithEntry(n, e), id, leader, term)
    ensures C.MatchIndex(WithEntry(n, e)) == e.logId.index
    ensures WithEntry(n, e).replicaRole == n.replicaRole
    ensures forall f :: f in WithEntry(n, e).log <==> f == e || f in n.log
  {
  }

  lemma ReplicatedKeepsShape(s: C.Cluster, payload: Payload)
    requires Shape(s) && Bounded(s) && C.CanPropose(s, payload)
    ensures var t := C.Replicated(s, payload).0;
            && Shape(t) && Bounded(t)
            && forall e :: EntryOf(t, e) ==> EntryOf(s, e) || e == C.ProposedEntry(s, payload)
  {
    ReplicatedNodes(s, payload);
    var t := C.Replicated(s, payload).0;
    var e := C.ProposedEntry(s, payload);
    hide C.Replicated, C.CanPropose, C.ProposedEntry, WithEntry, NodeShape;
    forall id | id in s.nodes
      ensures NodeShape(t.nodes[id], id, t.leaderId, t.currentTerm) && C.MatchIndex(t.nodes[id]) <= t.lastLogIndex
      ensures t.nodes[id].replicaRole == s.nodes[id].replicaRole
      ensures forall f :: f in t.nodes[id].log ==> f in s.nodes[id].log || f == e
    {
      ProposedEntryIsNext(s, payload);
      WithEntryKeepsShape(s.nodes[id], id, s.leaderId, s.currentTerm, e);

    }
  }

  lemma ProposedEntryIsNext(s: C.Cluster, payload: Payload)
    ensures C.ProposedEntry(s, payload).logId == LogId(s.currentTerm, s.lastLogIndex + 1)
  {
  }

  // ----- Every step keeps the shape of the cluster -----

  lemma RefreshPipelinesKeeps(s: C.Cluster)
    ensures var t := C.RefreshPipelines(s);
            t == s.(pipelines := t.pipelines) && t.pipelines.Keys == s.nodes.Keys + s.pipelines.Keys
  {
  }

  /** The step brings in no entry but e. */
  ghost predicate NothingNew(s: C.Cluster, t: C.Cluster) {
    forall e :: EntryOf(t, e) ==> EntryOf(s, e)
  }

  ghost predicate KeepsShape(s: C.Cluster, t: C.Cluster) {
    Shape(t) && Bounded(t) && NothingNew(s, t)
  }

  lemma ElectedKeepsShape(s: C.Cluster, id: NodeId)
    requires Shape(s) && Bounded(s) && id in s.nodes && s.nodes[id].replicaRole.Voter?
    ensures KeepsShape(s, C.Elected(s, id))
  {
    var t := C.Elected(s, id);
    forall k | k in t.nodes ensures NodeShape(t.nodes[k], k, t.leaderId, t.currentTerm) {
      assert NodeShape(s.nodes[k], k, s.leaderId, s.currentTerm);
    }
    assert forall k :: k in t.nodes ==> t.nodes[k].log == s.nodes[k].log && C.MatchIndex(t.nodes[k]) == C.MatchIndex(s.nodes[k]);
  }

  lemma WithPeerKeepsShape(s: C.Cluster, peer: C.Peer)
    requires Shape(s) && Bounded(s) && peer.nodeId !in s.nodes
    ensures KeepsShape(s, C.WithPeer(s, peer))
  {
    var t := C.WithPeer(s, peer);
    hide P.New;
    forall k | k in t.nodes
      ensures NodeShape(t.nodes[k], k, t.leaderId, t.currentTerm) && C.MatchIndex(t.nodes[k]) <= t.lastLogIndex
    {
      if k == peer.nodeId {
        assert t.nodes[k] == C.NewNode(peer.nodeId, peer.role);
      } else {
        assert t.nodes[k] == s.nodes[k] && NodeShape(s.nodes[k], k, s.leaderId, s.currentTerm);
      }
    }
    forall e | EntryOf(t, e) ensures EntryOf(s, e) {
      var k :| k in t.nodes && e in t.nodes[k].log;
      assert k != peer.nodeId ==> t.nodes[k] == s.nodes[k];
    }
  }

  lemma WithoutPeerKeepsShape(s: C.Cluster, id: NodeId)
    requires Shape(s) && Bounded(s)
    ensures KeepsShape(s, C.WithoutPeer(s, id))
  {
  }

  lemma RefreshPipelinesKeepsShape(s: C.Cluster)
    requires Shape(s) && Bounded(s)
    ensures KeepsShape(s, C.RefreshPipelines(s))
  {
  }

  lemma CampaignKeepsShape(s: C.Cluster, id: NodeId, forced: bool)
    requires Shape(s) && Bounded(s)
    ensures KeepsShape(s, C.Campaign(s, id, forced).0)
  {
    hide C.RefreshPipelines, C.Elected, Shape, Bounded, EntryOf;
    if C.Campaign(s, id, forced).1.Ok? {
      ElectedKeepsShape(s, id);
      RefreshPipelinesKeepsShape(C.Elected(s, id));
    }
  }

  lemma PeersKeepShape(s: C.Cluster, step: Step)
    requires Shape(s) && Bounded(s) && (step.AddPeer? || step.Remove?)
    ensures KeepsShape(s, Next(s, step))
  {
    hide C.RefreshPipelines, C.WithPeer, C.WithoutPeer, Shape, Bounded, EntryOf;
    if step.AddPeer? && step.peer.nodeId !in s.nodes {
      WithPeerKeepsShape(s, step.peer);
      RefreshPipelinesKeepsShape(C.WithPeer(s, step.peer));
    } else if step.Remove? && step.id in s.nodes {
      WithoutPeerKeepsShape(s, step.id);
      RefreshPipelinesKeepsShape(C.WithoutPeer(s, step.id));
    }
  }

  /** Replacing one node by one of the same shape whose entries are not new. */
  lemma ReplaceNodeKeepsShape(s: C.Cluster, t: C.Cluster, id: NodeId, n: C.Node)
    requires Shape(s) && id in s.nodes && t.pipelines.Keys == s.pipelines.Keys
    requires t.nodes == s.nodes[id := n]
    requires t.leaderId == s.leaderId && t.currentTerm == s.currentTerm
    requires NodeShape(n, id, s.leaderId, s.currentTerm)
    requires s.nodes[id].replicaRole.Voter? ==> n.replicaRole.Voter?
    requires forall e :: e in n.log ==> EntryOf(s, e)
    ensures Shape(t) && NothingNew(s, t)
  {
  }

  lemma SetHealthyKeepsShape(s: C.Cluster, id: NodeId, healthy: bool)
    requires Shape(s) && Bounded(s)
    ensures KeepsShape(s, C.SetHealthy(s, id, healthy).0)
  {
    if id in s.nodes {
      var n := s.nodes[id].(healthy := healthy);
      assert NodeShape(s.nodes[id], id, s.leaderId, s.currentTerm) && C.MatchIndex(n) == C.MatchIndex(s.nodes[id]);
      ReplaceNodeKeepsShape(s, C.SetHealthy(s, id, healthy).0, id, n);
    }
  }

  lemma PromoteKeepsShape(s: C.Cluster, id: NodeId)
    requires Shape(s) && Bounded(s)
    ensures KeepsShape(s, C.PromotePeer(s, id).0)
  {
    if C.PromotePeer(s, id).1.Ok? {
      var n := s.nodes[id].(replicaRole := Voter, raftRole := FollowerRole);
      assert NodeShape(s.nodes[id], id, s.leaderId, s.currentTerm) && C.MatchIndex(n) == C.MatchIndex(s.nodes[id]);
      ReplaceNodeKeepsShape(s, C.PromotePeer(s, id).0, id, n);
    }
  }

  lemma AboveKeepsAscending(log: seq<LogEntry>, index: LogIndex)
    requires AscendingLog(log)
    ensures AscendingLog(C.EntriesAbove(log, index))
    ensures forall e :: e in C.EntriesAbove(log, index) <==> e in log && e.logId.index > index
  {
  }

  lemma RefreshIndexesKeepsShape(s: C.Cluster)
    requires Shape(s)
    ensures KeepsShape(s, C.RefreshIndexes(s))
  {
    RefreshedIsBounded(s);
    hide C.MaxCommit, C.MaxMatch, C.MinApplied, C.Keys;
  }

  lemma InstalledKeepsShape(s: C.Cluster, id: NodeId, meta: SnapshotMeta)
    requires Shape(s) && id in s.nodes
    ensures Shape(C.Installed(s, id, meta)) && NothingNew(s, C.Installed(s, id, meta))
  {
    assert NodeShape(s.nodes[id], id, s.leaderId, s.currentTerm);
    AboveKeepsAscending(s.nodes[id].log, meta.lastLogId.index);
    hide C.RecordInstall;
    ReplaceNodeKeepsShape(s, C.Installed(s, id, meta), id, C.InstallSnapshot(s.nodes[id], meta));
  }

  lemma CompactedKeepsShape(s: C.Cluster, index: LogIndex)
    requires Shape(s)
    ensures Shape(C.Compacted(s, index)) && NothingNew(s, C.Compacted(s, index))
  {
    var t := C.Compacted(s, index);
    forall id | id in t.nodes ensures NodeShape(t.nodes[id], id, t.leaderId, t.currentTerm) {
      assert NodeShape(s.nodes[id], id, s.leaderId, s.currentTerm);
      AboveKeepsAscending(s.nodes[id].log, index);
    }
    forall e | EntryOf(t, e) ensures EntryOf(s, e) {
      var id :| id in t.nodes && e in t.nodes[id].log;
      assert NodeShape(s.nodes[id], id, s.leaderId, s.currentTerm);
      AboveKeepsAscending(s.nodes[id].log, index);
    }
  }

  lemma CopyIsAppend(learner: C.Node, leader: C.Node, commit: LogIndex)
    requires AscendingLog(learner.log) && AscendingLog(leader.log)
    ensures var n := C.CopyFromLeader(learner, leader, commit);
            var behind := leader.installedSnapshot.Some? && leader.installedSnapshot.value.lastLogId.index > C.MatchIndex(learner);
            var based := if behind then learner.(installedSnapshot := leader.installedSnapshot) else learner;
            && SameButCommit(based.(log := n.log), n)
            && n.log == learner.log + C.EntriesAbove(leader.log, C.MatchIndex(based))
            && AscendingLog(n.log)
  {
    var behind := leader.installedSnapshot.Some? && leader.installedSnapshot.value.lastLogId.index > C.MatchIndex(learner);
    var based := if behind then learner.(installedSnapshot := leader.installedSnapshot) else learner;
    var more := C.EntriesAbove(leader.log, C.MatchIndex(based));
    AboveKeepsAscending(leader.log, C.MatchIndex(based));
    LogIsBounded(based);
    forall i, j | 0 <= i < j < |based.log + more|
      ensures (based.log + more)[i].logId.index < (based.log + more)[j].logId.index
    {
      if i < |based.log| <= j {
        assert more[j - |based.log|] in more;
      }
    }
    AppendManyPastEnd(based, more);
  }

  lemma CaughtUpKeepsShape(s: C.Cluster, id: NodeId)
    requires Shape(s) && s.leaderId.Some? && id in s.nodes
    ensures Shape(C.CaughtUp(s, id)) && NothingNew(s, C.CaughtUp(s, id))
  {
    var learner, leader := s.nodes[id], s.nodes[s.leaderId.value];
    assert NodeShape(learner, id, s.leaderId, s.currentTerm);
    assert NodeShape(leader, s.leaderId.value, s.leaderId, s.currentTerm);
    var n := C.CopyFromLeader(learner, leader, s.commitIndex);
    CopyIsAppend(learner, leader, s.commitIndex);
    hide C.CopyFromLeader, C.Acknowledge;
    forall e | e in n.log ensures e in learner.log || e in leader.log {
      AboveKeepsAscending(leader.log, C.MatchIndex(
        if leader.installedSnapshot.Some? && leader.installedSnapshot.value.lastLogId.index > C.MatchIndex(learner)
        then learner.(installedSnapshot := leader.installedSnapshot) else learner));
    }
    ReplaceNodeKeepsShape(s, C.CaughtUp(s, id), id, n);
  }

  lemma IndexStepsKeepShape(s: C.Cluster, step: Step)
    requires Shape(s) && Bounded(s) && (step.CatchUp? || step.InstallSnapshot? || step.Compact?)
    ensures KeepsShape(s, Next(s, step))
  {
    hide C.RefreshIndexes, C.CaughtUp, C.Installed, C.Compacted, NodeShape, Bounded, EntryOf, C.SnapshotAcceptable;
    match step {
      case CatchUp(id) =>
        if C.CatchUp(s, id).1.Ok? {
          CaughtUpKeepsShape(s, id);
          RefreshIndexesKeepsShape(C.CaughtUp(s, id));
        }
      case InstallSnapshot(id, snapshot, fence) =>
        if C.InstallSnapshotTo(s, id, snapshot, fence).1.Ok? {
          InstalledKeepsShape(s, id, snapshot.meta);
          RefreshIndexesKeepsShape(C.Installed(s, id, snapshot.meta));
        }
      case Compact(index) =>
        CompactedKeepsShape(s, index);
        RefreshIndexesKeepsShape(C.Compacted(s, index));
      case _ =>
    }
  }

  lemma ProposeKeepsShape(s: C.Cluster, payload: Payload)
    requires Shape(s) && Bounded(s)
    ensures var t := C.Propose(s, payload).0;
            && Shape(t) && Bounded(t)
            && forall e :: EntryOf(t, e) ==> EntryOf(s, e) || (C.CanPropose(s, payload) && e == C.ProposedEntry(s, payload))
  {
    hide C.RefreshCommit, C.Replicated, C.CanPropose, C.ProposedEntry, NodeShape, EntryOf, Bounded;
    if C.CanPropose(s, payload) {
      ReplicatedKeepsShape(s, payload);
      var t := C.Replicated(s, payload).0;
      RefreshCommitKeeps(t);
      var u := C.RefreshCommit(t);
      hide SameButCommit;
      ShapeIgnoresCommit(t, u);
    }
  }

  /** The entry the step proposes, if it proposes one. */
  ghost predicate Proposes(s: C.Cluster, step: Step, e: LogEntry) {
    step.Propose? && C.CanPropose(s, step.payload) && e == C.ProposedEntry(s, step.payload)
  }

  /** Entries only come from proposals. */
  lemma StepKeepsShape(s: C.Cluster, step: Step)
    requires Shape(s) && Bounded(s)
    ensures var t := Next(s, step);
            && Shape(t) && Bounded(t)
            && forall e :: EntryOf(t, e) ==> EntryOf(s, e) || Proposes(s, step, e)
  {
    hide EntryOf, NodeShape, C.Propose, C.Campaign, C.CatchUp, C.InstallSnapshotTo, C.CompactLogs, C.AddPeer, C.RemovePeer;
    hide C.SetHealthy, C.PromotePeer, C.FirstElectable;
    match step {
      case Start => StartKeepsShape(s);
      case Stop => SameNodesKeepShape(s, Next(s, step));
      case SetLease(_) => SameNodesKeepShape(s, Next(s, step));
      case SetHealthy(id, healthy) => SetHealthyKeepsShape(s, id, healthy);
      case Campaign(id, forced) => CampaignKeepsShape(s, id, forced);
      case Propose(payload) => ProposeKeepsShape(s, payload);
      case Transfer(id) => CampaignKeepsShape(s, id, true); SameNodesKeepShape(s, s);
      case AddPeer(_) => PeersKeepShape(s, step);
      case Remove(_) => PeersKeepShape(s, step);
      case Promote(id) => PromoteKeepsShape(s, id);
      case _ => IndexStepsKeepShape(s, step);
    }
  }

  lemma SameNodesKeepShape(s: C.Cluster, t: C.Cluster)
    requires Shape(s) && Bounded(s)
    requires t == s.(running := t.running, leaseValid := t.leaseValid)
    ensures KeepsShape(s, t)
  {
  }

  lemma StartKeepsShape(s: C.Cluster)
    requires Shape(s) && Bounded(s)
    ensures KeepsShape(s, C.Start(s).0)
  {
    hide C.Campaign, C.FirstElectable;
    var running := s.(running := true);
    SameNodesKeepShape(s, running);
    if s.leaderId.None? {
      match C.FirstElectable(s.nodes, C.Keys(s)) {
        case None =>
        case Some(id) => CampaignKeepsShape(running, id, true);
      }
    }
  }

  /** Only its removal takes a node away. */
  lemma NodeStays(s: C.Cluster, step: Step, id: NodeId)
    requires Shape(s) && Bounded(s) && id in s.nodes && step != Remove(id)
    ensures id in Next(s, step).nodes
  {
    hide NodeShape, C.MatchIndex, C.Keys, C.MaxCommit, C.MaxMatch, C.MinApplied, C.QuorumIndex, C.Acknowledge;
    hide P.New, C.CopyFromLeader, C.RecordInstall, C.SnapshotAcceptable, C.EntriesAbove, C.Replicated, C.FirstElectable;
    if step.Propose? && C.CanPropose(s, step.payload) {
      assert Shape(s) && Bounded(s);
      ReplicatedNodes(s, step.payload);
    }
  }
}
