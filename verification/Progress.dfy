/** When a proposal succeeds, exactly, and the counterpart of the wedge: while every node stays
    healthy, no backlog ever builds up. */
module Progress {
  import opened Types
  import opened Ordering
  import opened ClusterRuns
  import opened LogAgreement
  import CommitRule
  import C = ClusterModel
  import P = PipelineModel
  import T = PipelineTheorems

  /** A pipeline with the default limits that holds no entry. */
  ghost predicate Idle(p: P.Pipeline) {
    && p.queue == [] && p.inflight == [] && p.status.inflightEntries == 0 && p.status.inflightBytes == 0
    && p.limits == P.DEFAULT_LIMITS && p.status.queueLimit == p.limits.maxInflights
  }

  ghost predicate AllIdle(pipelines: map<NodeId, P.Pipeline>) {
    forall id :: id in pipelines ==> Idle(pipelines[id])
  }

  ghost predicate AllHealthy(nodes: map<NodeId, C.Node>) {
    forall id :: id in nodes ==> nodes[id].healthy
  }

  ghost predicate Clear(s: C.Cluster) {
    AllIdle(s.pipelines) && AllHealthy(s.nodes)
  }

  /** The largest payload that a pipeline with default limits takes. */
  const MAX_ENTRY_BYTES := 8 * 1024 * 1024

  // ----- When a proposal succeeds -----

  /** The pipeline takes an entry of that many bytes: it is within the batch limit, the queue
      is not full, and what is in flight, queued and new fits in memory. */
  predicate HasRoom(p: P.Pipeline, bytes: nat) {
    && bytes <= p.limits.maxApplyBatchBytes && |p.queue| < p.status.queueLimit
    && p.status.inflightBytes + PayloadBytes(p.queue) + bytes <= p.limits.maxMemoryBytes
  }

  lemma RoomExactly(p: P.Pipeline, e: LogEntry)
    ensures P.QueueAppend(p, e).1 <==> HasRoom(p, |e.payload|)
  {
  }

  /** Replication to node k does not refuse an entry of that many bytes. */
  predicate Takes(r: C.Replicas, k: NodeId, leader: NodeId, bytes: nat)
    requires k in r.nodes
  {
    k == leader || !r.nodes[k].replicaRole.CanServeData() || k !in r.pipelines || HasRoom(r.pipelines[k], bytes)
  }

  lemma ReplicateOneExactly(r: C.Replicas, id: NodeId, leader: NodeId, e: LogEntry, maxBytes: nat)
    requires id in r.nodes
    ensures var (q, ok) := C.ReplicateOne(r, id, leader, e, maxBytes);
            && (ok <==> Takes(r, id, leader, |e.payload|)) && q.nodes.Keys == r.nodes.Keys
            && forall k :: k in r.nodes && k != id ==> (Takes(q, k, leader, |e.payload|) <==> Takes(r, k, leader, |e.payload|))
  {
  }

  lemma {:induction false} ReplicateAllExactly(r: C.Replicas, keys: seq<NodeId>, leader: NodeId, e: LogEntry, maxBytes: nat)
    requires Ascending(keys) && forall k :: k in keys ==> k in r.nodes
    ensures C.ReplicateAll(r, keys, leader, e, maxBytes).1 <==> forall k :: k in keys ==> Takes(r, k, leader, |e.payload|)
    decreases |keys|
  {
    if keys != [] {
      assert keys == [keys[0]] + keys[1..] && keys[0] !in keys[1..];
      ReplicateOneExactly(r, keys[0], leader, e, maxBytes);
      var (next, ok) := C.ReplicateOne(r, keys[0], leader, e, maxBytes);
      hide C.ReplicateOne, Takes;
      if ok {
        ReplicateAllExactly(next, keys[1..], leader, e, maxBytes);
      }
    }
  }

  /** Every other node that stores entries has room for the payload in its pipeline. */
  predicate OthersHaveRoom(s: C.Cluster, bytes: nat) {
    forall k :: k in s.nodes && s.leaderId != Some(k) && s.nodes[k].replicaRole.CanServeData() && k in s.pipelines ==>
      HasRoom(s.pipelines[k], bytes)
  }

  /** Main result: a proposal returns a log id exactly when the leader may propose the payload
      and the pipeline of every other node that stores entries has room for it, whether that
      node is healthy or not. */
  lemma ProposalSucceedsExactly(s: C.Cluster, payload: Payload)
    ensures C.Propose(s, payload).1.Ok? <==> C.CanPropose(s, payload) && OthersHaveRoom(s, |payload|)
    ensures C.CanPropose(s, payload) && OthersHaveRoom(s, |payload|) ==>
              C.Replicated(s, payload).1
              && C.Propose(s, payload) == (C.RefreshCommit(C.Replicated(s, payload).0), Ok(C.ProposedEntry(s, payload).logId))
  {
    if C.CanPropose(s, payload) {
      var r := C.Replicas(s.nodes, s.pipelines);
      assert |C.ProposedEntry(s, payload).payload| == |payload|;
      TakenByAll(s, |payload|);
      hide C.ReplicateAll, C.RefreshCommit, C.ProposedEntry, HasRoom, OthersHaveRoom, Takes;
      ReplicateAllExactly(r, C.Keys(s), s.leaderId.value, C.ProposedEntry(s, payload), Max(s.config.maxPayloadBytes, 1));
    }
  }

  lemma TakenByAll(s: C.Cluster, bytes: nat)
    requires s.leaderId.Some?
    ensures OthersHaveRoom(s, bytes)
            <==> forall k :: k in C.Keys(s) ==> Takes(C.Replicas(s.nodes, s.pipelines), k, s.leaderId.value, bytes)
  {
    hide HasRoom;
    var r := C.Replicas(s.nodes, s.pipelines);
    forall k | k in s.nodes
      ensures Takes(r, k, s.leaderId.value, bytes)
              <==> (s.leaderId != Some(k) && s.nodes[k].replicaRole.CanServeData() && k in s.pipelines ==>
                      HasRoom(s.pipelines[k], bytes))
    {
    }
    assert forall k :: k in C.Keys(s) <==> k in s.nodes;
    hide Takes;
  }

  // ----- One pipeline -----

  lemma NewIsIdle(nextIndex: LogIndex)
    ensures Idle(P.New(nextIndex, P.DEFAULT_LIMITS))
  {
  }

  lemma AcknowledgeKeepsIdle(p: P.Pipeline, term: Term, index: LogIndex)
    requires Idle(p)
    ensures Idle(C.Acknowledge(p, term, index))
  {
    hide P.DrainLoop, P.NextBackoffMs;
    var m := Max(p.status.matchIndex, index);
    var q := p.(status := p.status.(matchIndex := m, nextIndex := m + 1));
    assert P.ReleaseThrough(q, index) == q;
    T.DrainTouchesOnlyReorder(q);
  }

  lemma InstallKeepsIdle(p: P.Pipeline, index: LogIndex)
    requires Idle(p)
    ensures Idle(C.RecordInstall(p, index))
  {
  }

  /** An idle pipeline takes an entry exactly when its payload is not too large, and sends it
      at once as a batch of its own. */
  lemma IdleTakes(p: P.Pipeline, e: LogEntry, maxBytes: nat)
    requires Idle(p)
    ensures P.QueueAppend(p, e).1 <==> |e.payload| <= MAX_ENTRY_BYTES
    ensures |e.payload| <= MAX_ENTRY_BYTES ==>
              var q := P.FlushAppendBatch(P.QueueAppend(p, e).0, C.FLUSH_ENTRIES, maxBytes).0;
              && q.queue == [] && q.inflight == [P.Describe([e])]
              && q.status.inflightEntries == 1 && q.status.inflightBytes == |e.payload|
              && q.limits == p.limits && q.status.queueLimit == p.status.queueLimit
  {
    assert PayloadBytes([e]) == |e.payload| + PayloadBytes([]);
    if |e.payload| <= MAX_ENTRY_BYTES {
      var q := P.QueueAppend(p, e).0;
      assert q.queue == [e] && q.inflight == [] && q.status.inflightEntries == 0 && q.status.inflightBytes == 0;
      assert q.limits == p.limits == P.DEFAULT_LIMITS && q.status.queueLimit == p.status.queueLimit;
      hide P.QueueAppend, P.FlushAppendBatch;
      OneIsFlushed(q, e, maxBytes);
    }
  }

  lemma OneIsFlushed(q: P.Pipeline, e: LogEntry, maxBytes: nat)
    requires q.queue == [e] && q.inflight == [] && q.status.inflightEntries == 0 && q.status.inflightBytes == 0
    requires q.limits == P.DEFAULT_LIMITS && |e.payload| <= MAX_ENTRY_BYTES
    ensures var t := P.FlushAppendBatch(q, C.FLUSH_ENTRIES, maxBytes).0;
            && t.queue == [] && t.inflight == [P.Describe([e])]
            && t.status.inflightEntries == 1 && t.status.inflightBytes == |e.payload|
            && t.limits == q.limits && t.status.queueLimit == q.status.queueLimit
  {
    assert PayloadBytes([e]) == |e.payload| + PayloadBytes([]);
    var m, b := Max(C.FLUSH_ENTRIES, 1), Max(maxBytes, 1);
    assert P.TakeBatch(q, 1, |e.payload|, m, b) == 1;
    assert P.TakeBatch(q, 0, 0, m, b) == 1;
    assert q.queue[..1] == [e] && q.queue[1..] == [];
    assert P.FlushLoop(q, m, b).0 == P.SendBatch(q, 1);
  }

  /** Acknowledging the one batch in flight empties the pipeline again. */
  lemma AcknowledgeEmpties(p: P.Pipeline, e: LogEntry, term: Term, index: LogIndex)
    requires p.queue == [] && p.inflight == [P.Describe([e])] && index >= e.logId.index
    requires p.status.inflightEntries == 1 && p.status.inflightBytes == |e.payload|
    requires p.limits == P.DEFAULT_LIMITS && p.status.queueLimit == p.limits.maxInflights
    ensures Idle(C.Acknowledge(p, term, index))
  {
    hide P.DrainLoop, P.NextBackoffMs;
    var m := Max(p.status.matchIndex, index);
    var q := p.(status := p.status.(matchIndex := m, nextIndex := m + 1));
    assert PayloadBytes([e]) == |e.payload| + PayloadBytes([]);
    var empty := q.(inflight := [], status := q.status.(inflightEntries := 0, inflightBytes := 0));
    assert q.inflight[1..] == [];
    assert P.ReleaseThrough(q, index) == P.ReleaseThrough(empty, index) == empty;
    T.DrainTouchesOnlyReorder(empty);
  }

  lemma OfferedAndAcknowledged(p: P.Pipeline, e: LogEntry, maxBytes: nat, term: Term, index: LogIndex)
    requires Idle(p) && |e.payload| <= MAX_ENTRY_BYTES && index >= e.logId.index
    ensures P.QueueAppend(p, e).1
    ensures Idle(C.Acknowledge(P.FlushAppendBatch(P.QueueAppend(p, e).0, C.FLUSH_ENTRIES, maxBytes).0, term, index))
  {
    IdleTakes(p, e, maxBytes);
    hide P.QueueAppend, P.FlushAppendBatch, C.Acknowledge;
    AcknowledgeEmpties(P.FlushAppendBatch(P.QueueAppend(p, e).0, C.FLUSH_ENTRIES, maxBytes).0, e, term, index);
  }

  // ----- Proposals -----

  lemma AppendedMatches(n: C.Node, e: LogEntry)
    ensures C.MatchIndex(C.AppendEntry(n, e)) >= e.logId.index && C.AppendEntry(n, e).healthy == n.healthy
  {
  }

  lemma RefusedStaysIdle(p: P.Pipeline, e: LogEntry)
    requires Idle(p) && |e.payload| > MAX_ENTRY_BYTES
    ensures !P.QueueAppend(p, e).1 && Idle(P.QueueAppend(p, e).0)
  {
  }

  lemma ReplicateOneKeepsIdle(r: C.Replicas, id: NodeId, leader: NodeId, e: LogEntry, maxBytes: nat)
    requires id in r.nodes && AllIdle(r.pipelines) && AllHealthy(r.nodes)
    ensures var q := C.ReplicateOne(r, id, leader, e, maxBytes).0;
            q.nodes.Keys == r.nodes.Keys && AllIdle(q.pipelines) && AllHealthy(q.nodes)
  {
    AppendedMatches(r.nodes[id], e);
    if id in r.pipelines {
      if |e.payload| <= MAX_ENTRY_BYTES {
        OfferedAndAcknowledged(r.pipelines[id], e, maxBytes, r.nodes[id].hardState.currentTerm,
                               C.MatchIndex(C.AppendEntry(r.nodes[id], e)));
      } else {
        RefusedStaysIdle(r.pipelines[id], e);
      }
    }
    hide C.AppendEntry, C.MatchIndex, C.Acknowledge, P.QueueAppend, P.FlushAppendBatch, Idle;
  }

  lemma {:induction false} ReplicateAllKeepsIdle(r: C.Replicas, keys: seq<NodeId>, leader: NodeId, e: LogEntry, maxBytes: nat)
    requires (forall k :: k in keys ==> k in r.nodes) && AllIdle(r.pipelines) && AllHealthy(r.nodes)
    ensures var q := C.ReplicateAll(r, keys, leader, e, maxBytes).0; AllIdle(q.pipelines) && AllHealthy(q.nodes)
    decreases |keys|
  {
    if keys != [] {
      ReplicateOneKeepsIdle(r, keys[0], leader, e, maxBytes);
      hide C.ReplicateOne, AllIdle, AllHealthy;
      ReplicateAllKeepsIdle(C.ReplicateOne(r, keys[0], leader, e, maxBytes).0, keys[1..], leader, e, maxBytes);
    }
  }

  lemma RefreshKeepsHealth(s: C.Cluster)
    requires Clear(s)
    ensures Clear(C.RefreshCommit(s))
  {
  }

  /** With every node healthy and no backlog, a proposal leaves no backlog. */
  lemma ProposalKeepsClear(s: C.Cluster, payload: Payload)
    requires Clear(s)
    ensures Clear(C.Propose(s, payload).0)
  {
    if C.CanPropose(s, payload) {
      var e := C.ProposedEntry(s, payload);
      ReplicateAllKeepsIdle(C.Replicas(s.nodes, s.pipelines), C.Keys(s), s.leaderId.value, e, Max(s.config.maxPayloadBytes, 1));
      assert Clear(C.Replicated(s, payload).0);
      hide C.ReplicateAll, C.Replicated, C.ProposedEntry, Clear;
      RefreshKeepsHealth(C.Replicated(s, payload).0);
    }
    hide C.RefreshCommit;
  }

  // ----- Every other step keeps pipelines idle -----

  lemma RefreshPipelinesKeepsIdle(s: C.Cluster)
    requires AllIdle(s.pipelines)
    ensures AllIdle(C.RefreshPipelines(s).pipelines)
  {
    var filled := C.Filled(s.nodes, s.pipelines);
    forall id | id in filled ensures Idle(filled[id]) && Idle(C.Acknowledge(filled[id], s.currentTerm, s.lastLogIndex)) {
      if id !in s.pipelines {
        NewIsIdle(C.MatchIndex(s.nodes[id]) + 1);
      }
      AcknowledgeKeepsIdle(filled[id], s.currentTerm, s.lastLogIndex);
    }
    hide Idle, C.Acknowledge, C.Filled;
  }

  lemma ClearAfterRefresh(s: C.Cluster)
    requires Clear(s)
    ensures Clear(C.RefreshPipelines(s))
  {
    RefreshPipelinesKeepsIdle(s);
    RefreshPipelinesKeeps(s);
    hide C.RefreshPipelines, AllIdle;
  }

  lemma CampaignKeepsClear(s: C.Cluster, id: NodeId, forced: bool)
    requires Clear(s)
    ensures Clear(C.Campaign(s, id, forced).0)
  {
    assert Clear(C.Elected(s, id));
    hide C.RefreshPipelines, C.Elected, Clear;
    ClearAfterRefresh(C.Elected(s, id));
  }

  lemma PeersKeepClear(s: C.Cluster, step: Step)
    requires Clear(s) && (step.AddPeer? || step.Remove?)
    ensures Clear(Next(s, step))
  {
    if step.AddPeer? {
      NewIsIdle(s.lastLogIndex + 1);
      hide Idle, P.New;
      assert Clear(C.WithPeer(s, step.peer));
      ClearAfterRefresh(C.WithPeer(s, step.peer));
    } else {
      hide Idle;
      assert Clear(C.WithoutPeer(s, step.id));
      ClearAfterRefresh(C.WithoutPeer(s, step.id));
    }
    hide C.RefreshPipelines, C.WithPeer, C.WithoutPeer, Clear;
  }

  lemma CaughtUpIsClear(s: C.Cluster, id: NodeId)
    requires Clear(s) && s.leaderId.Some? && s.leaderId.value in s.nodes && id in s.nodes
    ensures Clear(C.CaughtUp(s, id))
  {
    var n := C.CopyFromLeader(s.nodes[id], s.nodes[s.leaderId.value], s.commitIndex);
    CopyKeepsHealth(s.nodes[id], s.nodes[s.leaderId.value], s.commitIndex);
    if id in s.pipelines {
      AcknowledgeKeepsIdle(s.pipelines[id], s.currentTerm, C.MatchIndex(n));
    }
    hide C.CopyFromLeader, C.Acknowledge, Idle, C.MatchIndex;
  }

  lemma IndexesKeepClear(s: C.Cluster)
    requires Clear(s)
    ensures Clear(C.RefreshIndexes(s))
  {
    hide C.MaxCommit, C.MaxMatch, C.MinApplied, C.Keys, Idle;
  }

  lemma CatchUpKeepsClear(s: C.Cluster, id: NodeId)
    requires Clear(s)
    ensures Clear(C.CatchUp(s, id).0)
  {
    hide C.CaughtUp, C.RefreshIndexes, C.ReportCatchUp, Clear;
    if C.CatchUp(s, id).1.Ok? {
      CaughtUpIsClear(s, id);
      IndexesKeepClear(C.CaughtUp(s, id));
    }
  }

  lemma InstallKeepsClear(s: C.Cluster, id: NodeId, snapshot: Snapshot, fence: ApplySnapshotFence)
    requires Clear(s)
    ensures Clear(C.InstallSnapshotTo(s, id, snapshot, fence).0)
  {
    if id in s.pipelines {
      InstallKeepsIdle(s.pipelines[id], snapshot.meta.lastLogId.index);
    }
    hide Idle, C.RecordInstall, C.EntriesAbove, C.MaxCommit, C.MaxMatch, C.MinApplied, C.Keys, C.SnapshotAcceptable;
  }

  lemma CompactKeepsClear(s: C.Cluster, index: LogIndex)
    requires Clear(s)
    ensures Clear(C.CompactLogs(s, index))
  {
    hide Idle, C.EntriesAbove, C.MaxCommit, C.MaxMatch, C.MinApplied, C.Keys;
  }

  lemma CopyKeepsHealth(learner: C.Node, leader: C.Node, commit: LogIndex)
    ensures C.CopyFromLeader(learner, leader, commit).healthy == learner.healthy
  {
    var behind := leader.installedSnapshot.Some? && leader.installedSnapshot.value.lastLogId.index > C.MatchIndex(learner);
    var based := if behind then learner.(installedSnapshot := leader.installedSnapshot) else learner;
    CommitRule.AppendEntriesOnlyLog(based, C.EntriesAbove(leader.log, C.MatchIndex(based)));
    hide C.AppendEntries, C.EntriesAbove, C.MatchIndex;
  }

  /** The step takes no node down. */
  predicate Gentle(step: Step) {
    step.SetHealthy? ==> step.healthy
  }

  lemma StepKeepsClear(s: C.Cluster, step: Step)
    requires Clear(s) && Gentle(step)
    ensures Clear(Next(s, step))
  {
    hide C.Campaign, C.FirstElectable, C.Propose, C.CanPropose, C.CatchUp, C.InstallSnapshotTo, C.CompactLogs, C.AddPeer, C.RemovePeer;
    hide C.MatchIndex, Idle;
    match step {
      case Start =>
        match C.FirstElectable(s.nodes, C.Keys(s)) {
          case None =>
          case Some(id) => CampaignKeepsClear(s.(running := true), id, true);
        }
      case Campaign(id, forced) => CampaignKeepsClear(s, id, forced);
      case Transfer(id) => CampaignKeepsClear(s, id, true);
      case Propose(payload) => ProposalKeepsClear(s, payload);
      case AddPeer(_) => PeersKeepClear(s, step);
      case Remove(_) => PeersKeepClear(s, step);
      case CatchUp(id) => CatchUpKeepsClear(s, id);
      case InstallSnapshot(id, snapshot, fence) => InstallKeepsClear(s, id, snapshot, fence);
      case Compact(index) => CompactKeepsClear(s, index);
      case _ =>
    }
  }

  lemma {:induction false} RunKeepsClear(s: C.Cluster, steps: seq<Step>)
    requires Clear(s) && (forall i :: 0 <= i < |steps| ==> Gentle(steps[i]))
    ensures Clear(Run(s, steps))
    decreases |steps|
  {
    if steps != [] {
      StepKeepsClear(s, steps[0]);
      hide Next, Clear;
      RunKeepsClear(Next(s, steps[0]), steps[1..]);
    }
  }

  lemma NewIsClear(groupId: GroupId, config: C.Config, peers: seq<C.Peer>)
    requires C.New(groupId, config, peers).Ok?
    ensures Clear(C.New(groupId, config, peers).value)
  {
    NewIsIdle(1);
    hide P.New, Idle;
    var s := C.New(groupId, config, peers).value;
    forall id | id in s.nodes ensures s.nodes[id].healthy {
      NewNodesAreNew(peers, id);
    }
  }

  /** Some node besides the leader stores entries. */
  predicate Replicates(s: C.Cluster) {
    exists k :: k in s.nodes && s.leaderId != Some(k) && s.nodes[k].replicaRole.CanServeData()
  }

  lemma ClearRoomExactly(s: C.Cluster, bytes: nat)
    requires Clear(s) && s.pipelines.Keys == s.nodes.Keys
    ensures OthersHaveRoom(s, bytes) <==> (Replicates(s) ==> bytes <= MAX_ENTRY_BYTES)
  {
    assert forall k :: k in s.nodes ==> k in s.pipelines && (HasRoom(s.pipelines[k], bytes) <==> bytes <= MAX_ENTRY_BYTES);
    hide HasRoom, Idle;
  }

  /** Main result: after any run from a new cluster that takes no node down no backlog is left,
      and a proposal the leader may make succeeds exactly when its payload is at most 8 MiB or
      no other node stores entries. */
  lemma HealthyClusterAcceptsProposals(groupId: GroupId, config: C.Config, peers: seq<C.Peer>, steps: seq<Step>, payload: Payload)
    requires C.New(groupId, config, peers).Ok? && forall i :: 0 <= i < |steps| ==> Gentle(steps[i])
    ensures var t := Run(C.New(groupId, config, peers).value, steps);
            && Clear(t)
            && (C.Propose(t, payload).1.Ok?
                <==> C.CanPropose(t, payload) && (Replicates(t) ==> |payload| <= MAX_ENTRY_BYTES))
  {
    var start := C.New(groupId, config, peers).value;
    hide C.New, Run, Clear, C.Propose, C.CanPropose, OthersHaveRoom, Replicates;
    NewIsClear(groupId, config, peers);
    NewAgrees(groupId, config, peers);
    RunKeepsClear(start, steps);
    RunKeepsAgreement(start, steps);
    ClearRoomExactly(Run(start, steps), |payload|);
    ProposalSucceedsExactly(Run(start, steps), payload);
  }
}
