/** How the pipeline of one follower that stops answering stops every proposal. */
module Wedge {
  import opened Types
  import opened Ordering
  import opened ClusterRuns
  import opened Durability
  import opened LogAgreement
  import CommitRule
  import C = ClusterModel
  import P = PipelineModel
  import T = PipelineTheorems

  // ----- What touches the queue of a pipeline -----

  /** The same queue under the same bound. */
  ghost predicate SameQueue(p: P.Pipeline, q: P.Pipeline) {
    q.queue == p.queue && q.status.queueLimit == p.status.queueLimit
  }

  lemma {:induction false} ReleaseKeepsQueue(p: P.Pipeline, index: LogIndex)
    ensures SameQueue(p, P.ReleaseThrough(p, index))
    decreases |p.inflight|
  {
    if p.inflight != [] && p.inflight[0].last.index <= index {
      var done := p.inflight[0];
      var q := p.(inflight := p.inflight[1..],
                  status := p.status.(inflightEntries := SatSub(p.status.inflightEntries, done.entryCount),
                                      inflightBytes := SatSub(p.status.inflightBytes, done.bytes)));
      ReleaseKeepsQueue(q, index);
    }
  }

  lemma AcknowledgeKeepsQueue(p: P.Pipeline, term: Term, index: LogIndex)
    ensures SameQueue(p, C.Acknowledge(p, term, index))
  {
    hide P.ReleaseThrough, P.DrainLoop, P.NextBackoffMs;
    var m := Max(p.status.matchIndex, index);
    var q := p.(status := p.status.(matchIndex := m, nextIndex := m + 1));
    var released := P.ReleaseThrough(q, index);
    ReleaseKeepsQueue(q, index);
    T.DrainTouchesOnlyReorder(released);
    var drained := P.Drain(released);
    assert SameQueue(p, drained);
    assert C.Acknowledge(p, term, index)
           == drained.(status := drained.status.(retryAttempts := 0, backoffMs := 0, nextRetryAfterMs := 0));
  }

  // ----- A full pipeline -----

  ghost predicate Full(p: P.Pipeline) {
    |p.queue| >= p.status.queueLimit
  }

  /** Follower f stores entries and its pipeline is full. */
  ghost predicate Stuck(s: C.Cluster, f: NodeId) {
    && f in s.nodes && f in s.pipelines
    && s.nodes[f].replicaRole.CanServeData() && Full(s.pipelines[f])
  }

  lemma {:induction false} ReplicationMeetsFull(r: C.Replicas, keys: seq<NodeId>, leader: NodeId, e: LogEntry, maxBytes: nat,
                                                f: NodeId)
    requires Ascending(keys) && forall k :: k in keys ==> k in r.nodes
    requires f in r.nodes && f in r.pipelines && r.nodes[f].replicaRole.CanServeData() && Full(r.pipelines[f])
    ensures var (q, ok) := C.ReplicateAll(r, keys, leader, e, maxBytes);
            && f in q.nodes && f in q.pipelines
            && q.nodes[f].replicaRole == r.nodes[f].replicaRole && SameQueue(r.pipelines[f], q.pipelines[f])
            && (f in keys && f != leader ==> !ok)
    decreases |keys|
  {
    if keys != [] {
      ReplicateOneMeetsFull(r, keys[0], leader, e, maxBytes, f);
      var (next, ok) := C.ReplicateOne(r, keys[0], leader, e, maxBytes);
      if ok {
        hide C.ReplicateOne;
        ReplicationMeetsFull(next, keys[1..], leader, e, maxBytes, f);
      }
    }
  }

  lemma ReplicateOneMeetsFull(r: C.Replicas, id: NodeId, leader: NodeId, e: LogEntry, maxBytes: nat, f: NodeId)
    requires id in r.nodes
    requires f in r.nodes && f in r.pipelines && r.nodes[f].replicaRole.CanServeData() && Full(r.pipelines[f])
    ensures var (q, ok) := C.ReplicateOne(r, id, leader, e, maxBytes);
            && q.nodes.Keys == r.nodes.Keys && f in q.pipelines
            && q.nodes[f].replicaRole == r.nodes[f].replicaRole && SameQueue(r.pipelines[f], q.pipelines[f])
            && (f == id && f != leader ==> !ok)
  {
  }

  lemma RefreshPipelinesKeepsQueue(s: C.Cluster, f: NodeId)
    requires f in s.pipelines
    ensures f in C.RefreshPipelines(s).pipelines && SameQueue(s.pipelines[f], C.RefreshPipelines(s).pipelines[f])
  {
    AcknowledgeKeepsQueue(s.pipelines[f], s.currentTerm, s.lastLogIndex);
    hide C.Acknowledge, P.New, C.MatchIndex;
  }

  /** The step leaves the queue of f alone and f able to store entries. */
  ghost predicate LeavesQueue(s: C.Cluster, t: C.Cluster, f: NodeId)
    requires f in s.nodes && f in s.pipelines
  {
    && f in t.nodes && f in t.pipelines && SameQueue(s.pipelines[f], t.pipelines[f])
    && (s.nodes[f].replicaRole.CanServeData() ==> t.nodes[f].replicaRole.CanServeData())
  }

  lemma CampaignLeavesQueue(s: C.Cluster, id: NodeId, forced: bool, f: NodeId)
    requires f in s.nodes && f in s.pipelines
    ensures LeavesQueue(s, C.Campaign(s, id, forced).0, f)
  {
    RefreshPipelinesKeeps(C.Elected(s, id));
    RefreshPipelinesKeepsQueue(C.Elected(s, id), f);
    hide C.RefreshPipelines;
  }

  lemma PeersLeaveQueue(s: C.Cluster, step: Step, f: NodeId)
    requires Shape(s) && f in s.nodes && f in s.pipelines && (step.AddPeer? || step.Remove?) && step != Remove(f)
    ensures LeavesQueue(s, Next(s, step), f)
  {
    if step.AddPeer? && step.peer.nodeId !in s.nodes {
      RefreshPipelinesKeeps(C.WithPeer(s, step.peer));
      RefreshPipelinesKeepsQueue(C.WithPeer(s, step.peer), f);
    } else if step.Remove? && step.id in s.nodes {
      RefreshPipelinesKeeps(C.WithoutPeer(s, step.id));
      RefreshPipelinesKeepsQueue(C.WithoutPeer(s, step.id), f);
    }
    hide C.RefreshPipelines, P.New, NodeShape;
  }

  lemma CatchUpLeavesQueue(s: C.Cluster, id: NodeId, f: NodeId)
    requires f in s.nodes && f in s.pipelines
    ensures LeavesQueue(s, C.CatchUp(s, id).0, f)
  {
    if C.CatchUp(s, id).1.Ok? {
      var n := C.CopyFromLeader(s.nodes[id], s.nodes[s.leaderId.value], s.commitIndex);
      CopyKeepsRole(s.nodes[id], s.nodes[s.leaderId.value], s.commitIndex);
      AcknowledgeKeepsQueue(s.pipelines[f], s.currentTerm, C.MatchIndex(n));
      hide C.CopyFromLeader, C.Acknowledge, C.MatchIndex, C.MaxCommit, C.MaxMatch, C.MinApplied, C.Keys;
    } else {
      hide C.CaughtUp, C.RefreshIndexes;
    }
  }

  lemma RecordInstallKeepsQueue(p: P.Pipeline, index: LogIndex)
    ensures SameQueue(p, C.RecordInstall(p, index))
  {
  }

  lemma InstallLeavesQueue(s: C.Cluster, id: NodeId, snapshot: Snapshot, fence: ApplySnapshotFence, f: NodeId)
    requires f in s.nodes && f in s.pipelines
    ensures LeavesQueue(s, C.InstallSnapshotTo(s, id, snapshot, fence).0, f)
  {
    hide C.RecordInstall, C.EntriesAbove, C.MaxCommit, C.MaxMatch, C.MinApplied, C.Keys, C.SnapshotAcceptable;
    RecordInstallKeepsQueue(s.pipelines[f], snapshot.meta.lastLogId.index);
  }

  lemma CompactLeavesQueue(s: C.Cluster, index: LogIndex, f: NodeId)
    requires f in s.nodes && f in s.pipelines
    ensures LeavesQueue(s, C.CompactLogs(s, index), f)
  {
  }

  lemma IndexStepsLeaveQueue(s: C.Cluster, step: Step, f: NodeId)
    requires f in s.nodes && f in s.pipelines && (step.CatchUp? || step.InstallSnapshot? || step.Compact?)
    ensures LeavesQueue(s, Next(s, step), f)
  {
    hide C.CatchUp, C.InstallSnapshotTo, C.CompactLogs, LeavesQueue;
    match step {
      case CatchUp(id) => CatchUpLeavesQueue(s, id, f);
      case InstallSnapshot(id, snapshot, fence) => InstallLeavesQueue(s, id, snapshot, fence, f);
      case Compact(index) => CompactLeavesQueue(s, index, f);
      case _ =>
    }
  }

  lemma CopyKeepsRole(learner: C.Node, leader: C.Node, commit: LogIndex)
    ensures C.CopyFromLeader(learner, leader, commit).replicaRole == learner.replicaRole
  {
    var behind := leader.installedSnapshot.Some? && leader.installedSnapshot.value.lastLogId.index > C.MatchIndex(learner);
    var based := if behind then learner.(installedSnapshot := leader.installedSnapshot) else learner;
    CommitRule.AppendEntriesOnlyLog(based, C.EntriesAbove(leader.log, C.MatchIndex(based)));
    hide C.AppendEntries, C.EntriesAbove, C.MatchIndex;
  }

  lemma ProposeMeetsFull(s: C.Cluster, payload: Payload, f: NodeId)
    requires Stuck(s, f)
    ensures Stuck(C.Propose(s, payload).0, f)
    ensures s.leaderId != Some(f) ==> C.Propose(s, payload).1.Err?
  {
    if C.CanPropose(s, payload) {
      ReplicationMeetsFull(C.Replicas(s.nodes, s.pipelines), C.Keys(s), s.leaderId.value, C.ProposedEntry(s, payload),
                           Max(s.config.maxPayloadBytes, 1), f);
      RefreshCommitKeeps(C.Replicated(s, payload).0);
      hide C.ReplicateAll, C.RefreshCommit, C.ProposedEntry;
    }
  }

  lemma StepKeepsStuck(s: C.Cluster, step: Step, f: NodeId)
    requires Shape(s) && Stuck(s, f) && step != Remove(f)
    ensures Stuck(Next(s, step), f)
  {
    hide C.Campaign, C.FirstElectable, NodeShape, C.Propose, C.CatchUp, C.InstallSnapshotTo, C.CompactLogs, C.AddPeer, C.RemovePeer;
    hide C.MatchIndex;
    match step {
      case Start =>
        match C.FirstElectable(s.nodes, C.Keys(s)) {
          case None =>
          case Some(id) => CampaignLeavesQueue(s.(running := true), id, true, f);
        }
      case Campaign(id, forced) => CampaignLeavesQueue(s, id, forced, f);
      case Transfer(id) => CampaignLeavesQueue(s, id, true, f);
      case Propose(payload) => ProposeMeetsFull(s, payload, f);
      case AddPeer(_) => PeersLeaveQueue(s, step, f);
      case Remove(_) => PeersLeaveQueue(s, step, f);
      case CatchUp(_) => IndexStepsLeaveQueue(s, step, f);
      case InstallSnapshot(_, _, _) => IndexStepsLeaveQueue(s, step, f);
      case Compact(_) => IndexStepsLeaveQueue(s, step, f);
      case _ =>
    }
  }

  /** Main result: once the pipeline of a follower is full, whatever happens next short of
      removing that follower, no proposal of another leader ever succeeds again, even after
      the follower is healthy. */
  lemma {:induction false} FullPipelineStopsProposals(s: C.Cluster, steps: seq<Step>, f: NodeId, payload: Payload)
    requires Agrees(s) && Stuck(s, f) && forall i :: 0 <= i < |steps| ==> steps[i] != Remove(f)
    ensures var t := Run(s, steps);
            Stuck(t, f) && (t.leaderId != Some(f) ==> C.Propose(t, payload).1.Err?)
    decreases |steps|
  {
    if steps == [] {
      ProposeMeetsFull(s, payload, f);
    } else {
      StepKeepsStuck(s, steps[0], f);
      StepKeepsAgreement(s, steps[0]);
      hide Next, Agrees, Stuck, C.Propose;
      FullPipelineStopsProposals(Next(s, steps[0]), steps[1..], f, payload);
    }
  }

  // ----- How soon it fills -----

  /** Follower f stores entries, is down, and its pipeline holds load entries that nobody
      acknowledged. */
  ghost predicate Unanswered(s: C.Cluster, f: NodeId, load: nat) {
    && f in s.nodes && f in s.pipelines
    && s.nodes[f].replicaRole.CanServeData() && !s.nodes[f].healthy
    && T.Loaded(s.pipelines[f], load)
  }

  /** Offering an entry to an unacknowledged pipeline adds one to its load, or is refused. */
  lemma OfferLoads(p: P.Pipeline, load: nat, e: LogEntry, maxEntries: nat, maxBytes: nat)
    requires T.Loaded(p, load)
    ensures var (q, ok) := T.Offer(p, e, maxEntries, maxBytes);
            && q.limits == p.limits
            && T.Loaded(q, load + if ok then 1 else 0)
  {
    if P.QueueAppend(p, e).1 {
      T.OfferWhenLoaded(p, load, e, maxEntries, maxBytes);
    }
  }

  /** What replication does to the pipeline of a follower that is down. */
  ghost predicate Offered(p: P.Pipeline, q: P.Pipeline, e: LogEntry, maxBytes: nat, ok: bool) {
    (q, ok) == T.Offer(p, e, C.FLUSH_ENTRIES, maxBytes)
  }

  lemma ReplicateOneOffers(r: C.Replicas, id: NodeId, leader: NodeId, e: LogEntry, maxBytes: nat, f: NodeId)
    requires id in r.nodes && f in r.nodes && f in r.pipelines && f != leader
    requires r.nodes[f].replicaRole.CanServeData() && !r.nodes[f].healthy
    ensures var (q, ok) := C.ReplicateOne(r, id, leader, e, maxBytes);
            && q.nodes.Keys == r.nodes.Keys && q.nodes[f] == r.nodes[f] && f in q.pipelines
            && (id != f ==> q.pipelines[f] == r.pipelines[f])
            && (id == f ==> Offered(r.pipelines[f], q.pipelines[f], e, maxBytes, ok))
  {
  }

  lemma {:induction false} ReplicationOffers(r: C.Replicas, keys: seq<NodeId>, leader: NodeId, e: LogEntry, maxBytes: nat,
                                             f: NodeId)
    requires Ascending(keys) && forall k :: k in keys ==> k in r.nodes
    requires f in r.nodes && f in r.pipelines && f != leader
    requires r.nodes[f].replicaRole.CanServeData() && !r.nodes[f].healthy
    ensures var (q, ok) := C.ReplicateAll(r, keys, leader, e, maxBytes);
            && f in q.nodes && q.nodes[f] == r.nodes[f] && f in q.pipelines
            && (q.pipelines[f] == r.pipelines[f]
                || Offered(r.pipelines[f], q.pipelines[f], e, maxBytes, true)
                || Offered(r.pipelines[f], q.pipelines[f], e, maxBytes, false))
            && (f !in keys ==> q.pipelines[f] == r.pipelines[f])
            && (ok && f in keys ==> Offered(r.pipelines[f], q.pipelines[f], e, maxBytes, true))
    decreases |keys|
  {
    if keys != [] {
      ReplicateOneOffers(r, keys[0], leader, e, maxBytes, f);
      var (next, ok) := C.ReplicateOne(r, keys[0], leader, e, maxBytes);
      assert keys[0] !in keys[1..] && forall k :: k in keys <==> k == keys[0] || k in keys[1..];
      hide C.ReplicateOne, Offered;
      if ok {
        ReplicationOffers(next, keys[1..], leader, e, maxBytes, f);
      }
    }
  }

  /** The load after a step: one more exactly when a proposal succeeded, or at most one more
      when it failed at a later node. */
  ghost predicate LoadGrows(t: C.Cluster, f: NodeId, limits: P.Limits, load: nat, proposed: bool) {
    && f in t.pipelines && t.pipelines[f].limits == limits
    && exists more: nat :: more >= load + (if proposed then 1 else 0) && Unanswered(t, f, more)
  }

  lemma ProposalLoads(s: C.Cluster, payload: Payload, f: NodeId, load: nat)
    requires Shape(s) && Unanswered(s, f, load)
    ensures var (t, r) := C.Propose(s, payload);
            LoadGrows(t, f, s.pipelines[f].limits, load, r.Ok?)
  {
    var (t, result) := C.Propose(s, payload);
    if !C.CanPropose(s, payload) {
      assert Unanswered(t, f, load);
    } else {
      var e := C.ProposedEntry(s, payload);
      var maxBytes := Max(s.config.maxPayloadBytes, 1);
      var (u, ok) := C.Replicated(s, payload);
      ReplicationOffers(C.Replicas(s.nodes, s.pipelines), C.Keys(s), s.leaderId.value, e, maxBytes, f);
      RefreshCommitKeeps(u);
      OfferLoads(s.pipelines[f], load, e, C.FLUSH_ENTRIES, maxBytes);
      hide C.ReplicateAll, C.RefreshCommit, T.Offer, T.Loaded, C.ProposedEntry, Shape;
      assert t.pipelines == u.pipelines;
      assert f in t.nodes && t.nodes[f].replicaRole == s.nodes[f].replicaRole && t.nodes[f].healthy == s.nodes[f].healthy;
      if Offered(s.pipelines[f], t.pipelines[f], e, maxBytes, true) {
        assert Unanswered(t, f, load + 1);
      } else {
        assert Unanswered(t, f, load);
      }
    }
  }

  /** A successful proposal offered its entry to the pipeline of a follower that is down. */
  lemma SuccessOffers(s: C.Cluster, payload: Payload, f: NodeId)
    requires C.Propose(s, payload).1.Ok? && f in s.nodes && f in s.pipelines && s.leaderId != Some(f)
    requires s.nodes[f].replicaRole.CanServeData() && !s.nodes[f].healthy
    ensures var t := C.Propose(s, payload).0;
            && f in t.pipelines
            && t.pipelines[f] == T.Offer(s.pipelines[f], C.ProposedEntry(s, payload), C.FLUSH_ENTRIES,
                                         Max(s.config.maxPayloadBytes, 1)).0
  {
    SuccessfulProposal(s, payload);
    ReplicationOffers(C.Replicas(s.nodes, s.pipelines), C.Keys(s), s.leaderId.value, C.ProposedEntry(s, payload),
                      Max(s.config.maxPayloadBytes, 1), f);
    RefreshCommitKeeps(C.Replicated(s, payload).0);
    hide C.ReplicateAll, C.RefreshCommit, T.Offer, C.ProposedEntry, C.Propose;
  }

  lemma CampaignKeepsLoad(s: C.Cluster, id: NodeId, forced: bool, f: NodeId, load: nat)
    requires Unanswered(s, f, load)
    ensures var t := C.Campaign(s, id, forced).0;
            f in t.pipelines && t.pipelines[f] == s.pipelines[f] && Unanswered(t, f, load)
  {
  }

  lemma FixedStepLoads(s: C.Cluster, step: Step, f: NodeId, load: nat)
    requires Shape(s) && Unanswered(s, f, load) && Fixed(step) && step != SetHealthy(f, true)
    ensures LoadGrows(Next(s, step), f, s.pipelines[f].limits, load, Succeeds(s, step))
  {
    var t := Next(s, step);
    hide C.Campaign, C.FirstElectable, C.Propose, Shape, T.Loaded, C.MatchIndex;
    match step {
      case Start =>
        match C.FirstElectable(s.nodes, C.Keys(s)) {
          case None =>
          case Some(id) => CampaignKeepsLoad(s.(running := true), id, true, f, load);
        }
        assert Unanswered(t, f, load);
      case Campaign(id, forced) => CampaignKeepsLoad(s, id, forced, f, load);
      case Transfer(id) => CampaignKeepsLoad(s, id, true, f, load);
        assert Unanswered(t, f, load);
      case Propose(payload) => ProposalLoads(s, payload, f, load);
      case Stop => assert Unanswered(t, f, load);
      case SetLease(_) => assert Unanswered(t, f, load);
      case SetHealthy(_, _) => assert Unanswered(t, f, load);
      case _ =>
    }
  }

  /** The step is a proposal that returns a log id. */
  predicate Succeeds(s: C.Cluster, step: Step) {
    step.Propose? && C.Propose(s, step.payload).1.Ok?
  }

  /** How many proposals of a run succeed. */
  function Successes(s: C.Cluster, steps: seq<Step>): nat
    decreases |steps|
  {
    if steps == [] then 0 else (if Succeeds(s, steps[0]) then 1 else 0) + Successes(Next(s, steps[0]), steps[1..])
  }

  lemma {:induction false} RunLoads(s: C.Cluster, steps: seq<Step>, f: NodeId, load: nat)
    requires Agrees(s) && Unanswered(s, f, load) && AllFixed(steps)
    requires forall i :: 0 <= i < |steps| ==> steps[i] != SetHealthy(f, true)
    ensures var t := Run(s, steps);
            && f in t.pipelines && t.pipelines[f].limits == s.pipelines[f].limits
            && exists more: nat :: more >= load + Successes(s, steps) && Unanswered(t, f, more)
    decreases |steps|
  {
    if steps == [] {
      assert Unanswered(Run(s, steps), f, load);
    } else {
      FixedStepLoads(s, steps[0], f, load);
      StepKeepsAgreement(s, steps[0]);
      var t := Next(s, steps[0]);
      hide Next, Agrees, Unanswered, Succeeds;
      var more: nat :| more >= load + (if Succeeds(s, steps[0]) then 1 else 0) && Unanswered(t, f, more);
      RunLoads(t, steps[1..], f, more);
    }
  }

  /** Main result: while a follower that stores entries is down, the proposals that can
      succeed, added to what its pipeline already held, are at most twice the inflight limit;
      when that many have succeeded, its pipeline is full. */
  lemma DownFollowerLimitsProposals(s: C.Cluster, steps: seq<Step>, f: NodeId, load: nat)
    requires Agrees(s) && Unanswered(s, f, load) && AllFixed(steps)
    requires forall i :: 0 <= i < |steps| ==> steps[i] != SetHealthy(f, true)
    ensures var capacity := 2 * s.pipelines[f].limits.maxInflights;
            && load + Successes(s, steps) <= capacity
            && (load + Successes(s, steps) == capacity ==> Stuck(Run(s, steps), f))
  {
    RunLoads(s, steps, f, load);
    var t := Run(s, steps);
    var more: nat :| more >= load + Successes(s, steps) && Unanswered(t, f, more);
  }
}
