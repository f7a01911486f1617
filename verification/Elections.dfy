/** Elections: what a won one installs on every node, that requests of older terms are then
    refused, and how a node votes over whole runs. */
module Elections {
  import opened Types
  import opened Ordering
  import opened ClusterRuns
  import opened LogAgreement
  import CommitRule
  import PipelineSteps
  import C = ClusterModel
  import P = PipelineModel
  import T = PipelineTheorems

  // ----- What winning installs -----

  /** The role a node has under a leader. */
  function RoleUnder(replicaRole: ReplicaRole, id: NodeId, leader: NodeId): RaftRole {
    if id == leader then LeaderRole
    else match replicaRole
      case Learner => LearnerRole
      case Voter => FollowerRole
      case Witness => FollowerRole
  }

  /** The node has taken the term, voted for the leader and assumed its role under it; the rest
      of it is as before. */
  ghost predicate TookOver(n: C.Node, m: C.Node, id: NodeId, leader: NodeId, term: Term) {
    && m.hardState.currentTerm == term && m.hardState.votedFor == Some(leader)
    && m.hardState.committed == n.hardState.committed
    && m.raftRole == RoleUnder(n.replicaRole, id, leader)
    && m == n.(hardState := m.hardState, raftRole := m.raftRole)
  }

  ghost predicate OwnIds(s: C.Cluster) {
    forall k :: k in s.nodes ==> s.nodes[k].id == k
  }

  /** Node id has won the next term: it leads, every node took over, and nothing but nodes,
      term, leadership, lease and pipelines changed. */
  ghost predicate WonBy(s: C.Cluster, t: C.Cluster, id: NodeId) {
    && t.currentTerm == s.currentTerm + 1 && t.leaderId == Some(id) && t.leaseValid
    && t.nodes.Keys == s.nodes.Keys
    && (forall k :: k in s.nodes ==> TookOver(s.nodes[k], t.nodes[k], k, id, t.currentTerm))
    && t == s.(currentTerm := t.currentTerm, leaderId := t.leaderId, leaseValid := t.leaseValid,
               nodes := t.nodes, pipelines := t.pipelines)
    && PipelinesFollow(s, t)
  }

  /** Every node has a pipeline: that of the leader is acknowledged up to the last index, and
      the others are as before, or new and waiting for what the node has not matched. */
  ghost predicate PipelinesFollow(s: C.Cluster, t: C.Cluster) {
    && t.pipelines.Keys == s.nodes.Keys + s.pipelines.Keys
    && forall k :: k in t.pipelines ==> PipelineFollows(s, t, k)
  }

  ghost predicate PipelineFollows(s: C.Cluster, t: C.Cluster, k: NodeId)
    requires k in t.pipelines
  {
    if t.leaderId == Some(k) then k in s.pipelines ==> Acknowledged(s.pipelines[k], t.pipelines[k], s.lastLogIndex)
    else if k in s.pipelines then t.pipelines[k] == s.pipelines[k]
    else k in s.nodes && Waiting(t.pipelines[k], C.MatchIndex(s.nodes[k]) + 1)
  }

  /** Nothing up to the index is in flight any more and, with nothing buffered, the match index
      is raised to it. */
  ghost predicate Acknowledged(p: P.Pipeline, q: P.Pipeline, index: LogIndex) {
    && (q.inflight != [] ==> q.inflight[0].last.index > index)
    && q.queue == p.queue && q.limits == p.limits && q.status.backoffMs == 0 && q.status.retryAttempts == 0
    && (p.reorder == map[] ==>
          && q.reorder == map[]
          && q.status.matchIndex == Max(p.status.matchIndex, index) && q.status.nextIndex == q.status.matchIndex + 1)
  }

  /** Nothing was sent or received, and the next entry to send has that index. */
  ghost predicate Waiting(p: P.Pipeline, next: LogIndex) {
    && p.status.nextIndex == next && p.status.matchIndex + 1 == next
    && p.queue == [] && p.inflight == [] && p.reorder == map[] && p.limits == P.DEFAULT_LIMITS && PipelineSteps.Idle(p)
    && p.status.inflightEntries == 0 && p.status.inflightBytes == 0 && p.status.queueLimit == p.limits.maxInflights
    && p.status.queueDepth == 0 && p.status.reorderDepth == 0
  }

  lemma {:induction false} ReleasedThrough(p: P.Pipeline, index: LogIndex)
    ensures var q := P.ReleaseThrough(p, index);
            && (q.inflight != [] ==> q.inflight[0].last.index > index)
            && q.status.matchIndex == p.status.matchIndex && q.status.nextIndex == p.status.nextIndex
            && q.reorder == p.reorder && q.queue == p.queue && q.limits == p.limits
    decreases |p.inflight|
  {
    if p.inflight != [] && p.inflight[0].last.index <= index {
      var done := p.inflight[0];
      ReleasedThrough(p.(inflight := p.inflight[1..],
                         status := p.status.(inflightEntries := SatSub(p.status.inflightEntries, done.entryCount),
                                             inflightBytes := SatSub(p.status.inflightBytes, done.bytes))), index);
    }
  }

  lemma AcknowledgeReaches(p: P.Pipeline, term: Term, index: LogIndex)
    ensures Acknowledged(p, C.Acknowledge(p, term, index), index)
  {
    var m := Max(p.status.matchIndex, index);
    var q := p.(status := p.status.(matchIndex := m, nextIndex := m + 1));
    ReleasedThrough(q, index);
    var released := P.ReleaseThrough(q, index);
    T.DrainTouchesOnlyReorder(released);
    assert released.reorder == map[] ==> P.DrainLoop(released) == released;
    hide P.ReleaseThrough, P.DrainLoop, P.NextBackoffMs;
  }

  lemma NewIsWaiting(next: LogIndex)
    requires next > 0
    ensures Waiting(P.New(next, P.DEFAULT_LIMITS), next)
  {
  }

  lemma RefreshedFollows(s: C.Cluster, k: NodeId)
    requires k in s.nodes || k in s.pipelines
    ensures var t := C.RefreshPipelines(s); k in t.pipelines && PipelineFollows(s, t, k)
  {
    if s.leaderId == Some(k) && k in s.pipelines {
      AcknowledgeReaches(s.pipelines[k], s.currentTerm, s.lastLogIndex);
    } else if k !in s.pipelines {
      NewIsWaiting(C.MatchIndex(s.nodes[k]) + 1);
    }
    hide C.Acknowledge, P.New, C.MatchIndex, Waiting, Acknowledged;
  }

  lemma RefreshedFollow(s: C.Cluster)
    ensures PipelinesFollow(s, C.RefreshPipelines(s))
  {
    RefreshPipelinesKeeps(s);
    var t := C.RefreshPipelines(s);
    hide C.RefreshPipelines, PipelineFollows;
    forall k | k in t.pipelines ensures PipelineFollows(s, t, k) {
      RefreshedFollows(s, k);
    }
  }

  // ----- Campaign, transfer and start -----

  lemma ElectTakesOver(n: C.Node, term: Term, leader: NodeId)
    ensures TookOver(n, C.Elect(n, term, leader), n.id, leader, term)
    ensures C.MatchIndex(C.Elect(n, term, leader)) == C.MatchIndex(n)
  {
  }

  lemma ElectedNodes(s: C.Cluster, id: NodeId)
    requires OwnIds(s)
    ensures var e := C.Elected(s, id);
            && e == s.(currentTerm := s.currentTerm + 1, leaderId := Some(id), leaseValid := true, nodes := e.nodes)
            && e.nodes.Keys == s.nodes.Keys
            && forall k :: k in s.nodes ==>
              TookOver(s.nodes[k], e.nodes[k], k, id, e.currentTerm) && C.MatchIndex(e.nodes[k]) == C.MatchIndex(s.nodes[k])
  {
    forall k | k in s.nodes
      ensures TookOver(s.nodes[k], C.Elect(s.nodes[k], s.currentTerm + 1, id), k, id, s.currentTerm + 1)
      ensures C.MatchIndex(C.Elect(s.nodes[k], s.currentTerm + 1, id)) == C.MatchIndex(s.nodes[k])
    {
      ElectTakesOver(s.nodes[k], s.currentTerm + 1, id);
    }
    hide C.Elect, TookOver, C.MatchIndex;
  }

  lemma FollowAcross(s: C.Cluster, e: C.Cluster, t: C.Cluster)
    requires PipelinesFollow(e, t) && e.nodes.Keys == s.nodes.Keys && e.pipelines == s.pipelines
    requires e.lastLogIndex == s.lastLogIndex && forall k :: k in s.nodes ==> C.MatchIndex(e.nodes[k]) == C.MatchIndex(s.nodes[k])
    ensures PipelinesFollow(s, t)
  {
    hide C.MatchIndex, Waiting, Acknowledged;
  }

  lemma ElectedTookOver(s: C.Cluster, id: NodeId)
    requires OwnIds(s) && id in s.nodes
    ensures WonBy(s, C.RefreshPipelines(C.Elected(s, id)), id)
  {
    var e := C.Elected(s, id);
    ElectedNodes(s, id);
    hide C.RefreshPipelines, C.Elected, C.MatchIndex, TookOver, PipelinesFollow;
    RefreshPipelinesKeeps(e);
    RefreshedFollow(e);
    FollowAcross(s, e, C.RefreshPipelines(e));
    RefreshedIsWon(s, e, C.RefreshPipelines(e), id);
  }

  lemma RefreshedIsWon(s: C.Cluster, e: C.Cluster, t: C.Cluster, id: NodeId)
    requires e == s.(currentTerm := s.currentTerm + 1, leaderId := Some(id), leaseValid := true, nodes := e.nodes)
    requires e.nodes.Keys == s.nodes.Keys && forall k :: k in s.nodes ==> TookOver(s.nodes[k], e.nodes[k], k, id, e.currentTerm)
    requires t == e.(pipelines := t.pipelines) && PipelinesFollow(s, t)
    ensures WonBy(s, t, id)
  {
    hide TookOver, PipelinesFollow;
  }

  /** The node can be elected. */
  predicate Electable(s: C.Cluster, id: NodeId) {
    id in s.nodes && s.nodes[id].replicaRole.Voter? && s.nodes[id].healthy
  }

  /** Main result: a campaign succeeds exactly for a healthy voter of a running cluster, or when
      forced; then the node has won the next term and every node took over, and otherwise
      nothing changes. */
  lemma CampaignElectsExactly(s: C.Cluster, id: NodeId, forced: bool)
    requires OwnIds(s)
    ensures var (t, r) := C.Campaign(s, id, forced);
            && (r.Ok? <==> (s.running || forced) && Electable(s, id))
            && (r.Ok? ==> WonBy(s, t, id))
            && (r.Err? ==> t == s)
            && (r == Err(NodeNotFound(id)) <==> (s.running || forced) && id !in s.nodes)
  {
    hide C.RefreshPipelines, C.Elected, WonBy, OwnIds;
    if id in s.nodes {
      ElectedTookOver(s, id);
    }
  }

  /** A transfer does the same to its target, running or not, but only when the target has
      matched the commit index. */
  lemma TransferElectsExactly(s: C.Cluster, id: NodeId)
    requires OwnIds(s)
    ensures var (t, r) := C.TransferLeader(s, id);
            && (r.Ok? <==> Electable(s, id) && C.MatchIndex(s.nodes[id]) >= s.commitIndex)
            && (r.Ok? ==> WonBy(s, t, id))
            && (r.Err? ==> t == s)
            && (r == Err(NodeNotFound(id)) <==> id !in s.nodes)
  {
    CampaignElectsExactly(s, id, true);
    hide C.Campaign, WonBy, C.MatchIndex;
  }

  lemma {:induction false} FirstElectableIsLeast(s: C.Cluster, keys: seq<NodeId>)
    requires Ascending(keys) && forall k :: k in keys ==> k in s.nodes
    ensures match C.FirstElectable(s.nodes, keys)
            case None => forall k :: k in keys ==> !Electable(s, k)
            case Some(id) => id in keys && Electable(s, id) && forall k :: k in keys && Electable(s, k) ==> id <= k
  {
    if keys != [] {
      FirstElectableIsLeast(s, keys[1..]);
      assert keys == [keys[0]] + keys[1..];
      assert forall k :: k in keys ==> keys[0] <= k;
    }
  }

  /** Starting sets the cluster running; without a leader it elects the healthy voter of least
      id, and fails exactly when there is none. */
  lemma StartElectsLeast(s: C.Cluster)
    requires OwnIds(s)
    ensures var (t, r) := C.Start(s);
            var running := s.(running := true);
            && (r.Ok? <==> s.leaderId.Some? || exists k :: Electable(s, k))
            && (s.leaderId.Some? || r.Err? ==> t == running)
            && (s.leaderId.None? && r.Ok? ==>
                  exists id :: WonBy(running, t, id) && Electable(s, id) && forall k :: Electable(s, k) ==> id <= k)
  {
    var running := s.(running := true);
    FirstElectableIsLeast(s, C.Keys(s));
    if s.leaderId.None? && C.FirstElectable(s.nodes, C.Keys(s)).Some? {
      var id := C.FirstElectable(s.nodes, C.Keys(s)).value;
      CampaignElectsExactly(running, id, true);
      assert Electable(s, id) && Electable(running, id);
    }
    hide C.Campaign, WonBy, C.FirstElectable;
  }

  /** Main result: after an election every node refuses an append of a term up to the one
      before, and nothing changes. */
  lemma OlderTermsAreRefused(s: C.Cluster, id: NodeId, forced: bool, k: NodeId, r: C.AppendRequest)
    requires OwnIds(s) && C.Campaign(s, id, forced).1.Ok?
    requires k in s.nodes && r.groupId == s.groupId && r.term <= s.currentTerm
    ensures var t := C.Campaign(s, id, forced).0;
            var (u, answer) := C.AppendEntriesTo(t, k, r);
            && u == t && answer.Ok? && !answer.value.success && answer.value.term == s.currentTerm + 1
  {
    CampaignElectsExactly(s, id, forced);
    hide C.Campaign, C.AcceptAppend, C.MatchIndex, PipelinesFollow;
  }

  // ----- Votes over whole runs -----

  /** The term of the node has not gone down, and in one term it voted for one node only. */
  ghost predicate VoteKept(n: C.Node, m: C.Node) {
    && m.hardState.currentTerm >= n.hardState.currentTerm
    && (m.hardState.currentTerm == n.hardState.currentTerm ==> m.hardState.votedFor == n.hardState.votedFor)
  }

  ghost predicate VotesKept(s: C.Cluster, t: C.Cluster) {
    forall k :: k in s.nodes && k in t.nodes ==> VoteKept(s.nodes[k], t.nodes[k])
  }

  /** A leader is at the current term and voted for itself. */
  ghost predicate LeaderVoted(s: C.Cluster) {
    s.leaderId.Some? ==>
      && s.leaderId.value in s.nodes
      && s.nodes[s.leaderId.value].hardState.currentTerm == s.currentTerm
      && s.nodes[s.leaderId.value].hardState.votedFor == s.leaderId
  }

  /** Terms and votes are as before; new nodes have none. */
  ghost predicate SameVotes(s: C.Cluster, t: C.Cluster) {
    && t.currentTerm == s.currentTerm && (t.leaderId == s.leaderId || t.leaderId.None?)
    && (t.leaderId.Some? ==> t.leaderId.value in t.nodes)
    && forall k :: k in t.nodes ==>
      if k in s.nodes then t.nodes[k].hardState.currentTerm == s.nodes[k].hardState.currentTerm
                           && t.nodes[k].hardState.votedFor == s.nodes[k].hardState.votedFor
      else t.leaderId != Some(k)
  }

  lemma SameVotesKept(s: C.Cluster, t: C.Cluster)
    requires SameVotes(s, t) && LeaderVoted(s)
    ensures VotesKept(s, t) && LeaderVoted(t)
  {
  }

  lemma WonKeepsVotes(s: C.Cluster, t: C.Cluster, id: NodeId)
    requires Shape(s) && WonBy(s, t, id) && id in s.nodes
    ensures VotesKept(s, t) && LeaderVoted(t)
  {
    forall k | k in s.nodes ensures VoteKept(s.nodes[k], t.nodes[k]) {
      assert NodeShape(s.nodes[k], k, s.leaderId, s.currentTerm);
    }
    hide PipelinesFollow, NodeShape;
  }

  lemma ElectionKeepsVotes(s: C.Cluster, step: Step)
    requires Shape(s) && LeaderVoted(s) && (step.Campaign? || step.Transfer? || step.Start?)
    ensures VotesKept(s, Next(s, step)) && LeaderVoted(Next(s, step))
  {
    assert OwnIds(s) by {
      forall k | k in s.nodes ensures s.nodes[k].id == k {
        assert NodeShape(s.nodes[k], k, s.leaderId, s.currentTerm);
      }
    }
    var t := Next(s, step);
    var running := s.(running := true);
    assert Shape(running) && SameVotes(s, running) && SameVotes(s, s);
    hide C.Campaign, C.TransferLeader, C.Start, WonBy, SameVotes, VotesKept, LeaderVoted, Shape, C.MatchIndex;
    SameVotesKept(s, s);
    SameVotesKept(s, running);
    match step {
      case Campaign(id, forced) =>
        CampaignElectsExactly(s, id, forced);
        if C.Campaign(s, id, forced).1.Ok? {
          WonKeepsVotes(s, t, id);
        }
      case Transfer(id) =>
        TransferElectsExactly(s, id);
        if C.TransferLeader(s, id).1.Ok? {
          WonKeepsVotes(s, t, id);
        }
      case Start =>
        StartElectsLeast(s);
        if s.leaderId.None? && C.Start(s).1.Ok? {
          var id :| WonBy(running, t, id) && Electable(s, id);
          WonKeepsVotes(running, t, id);
          RunningKeepsVotes(s, running, t);
        }
    }
  }

  lemma RunningKeepsVotes(s: C.Cluster, running: C.Cluster, t: C.Cluster)
    requires running.nodes == s.nodes && VotesKept(running, t)
    ensures VotesKept(s, t)
  {
  }

  lemma TouchedSameVotes(s: C.Cluster, t: C.Cluster, e: LogEntry)
    requires Shape(s) && EntryAdded(s, t, e) && t.currentTerm == s.currentTerm && t.leaderId == s.leaderId
    ensures SameVotes(s, t)
  {
  }

  lemma RefreshedSameVotes(s: C.Cluster, t: C.Cluster)
    requires SameVotes(s, t)
    ensures SameVotes(s, C.RefreshCommit(t))
  {
    RefreshCommitKeeps(t);
    hide C.RefreshCommit;
  }

  lemma ProposeSameVotes(s: C.Cluster, payload: Payload)
    requires Shape(s) && Bounded(s)
    ensures SameVotes(s, C.Propose(s, payload).0)
  {
    if C.CanPropose(s, payload) {
      hide C.Replicated, C.RefreshCommit, C.CanPropose, C.ProposedEntry, Shape, Bounded, EntryAdded, SameVotes;
      ReplicatedAddsEntry(s, payload);
      ReplicatedKeepsTerm(s, payload);
      TouchedSameVotes(s, C.Replicated(s, payload).0, C.ProposedEntry(s, payload));
      RefreshedSameVotes(s, C.Replicated(s, payload).0);
    } else {
      hide C.Replicated, C.RefreshCommit;
    }
  }

  lemma PeersSameVotes(s: C.Cluster, step: Step)
    requires Shape(s) && (step.AddPeer? || step.Remove?)
    ensures SameVotes(s, Next(s, step))
  {
    if step.AddPeer? && step.peer.nodeId !in s.nodes {
      RefreshPipelinesKeeps(C.WithPeer(s, step.peer));
    } else if step.Remove? && step.id in s.nodes {
      RefreshPipelinesKeeps(C.WithoutPeer(s, step.id));
    }
    hide C.RefreshPipelines, P.New, NodeShape;
  }

  lemma CopySameVote(learner: C.Node, leader: C.Node, commit: LogIndex)
    ensures var n := C.CopyFromLeader(learner, leader, commit);
            n.hardState.currentTerm == learner.hardState.currentTerm && n.hardState.votedFor == learner.hardState.votedFor
  {
    var behind := leader.installedSnapshot.Some? && leader.installedSnapshot.value.lastLogId.index > C.MatchIndex(learner);
    var based := if behind then learner.(installedSnapshot := leader.installedSnapshot) else learner;
    CommitRule.AppendEntriesOnlyLog(based, C.EntriesAbove(leader.log, C.MatchIndex(based)));
    hide C.AppendEntries, C.EntriesAbove, C.MatchIndex;
  }

  lemma IndexStepsSameVotes(s: C.Cluster, step: Step)
    requires Shape(s) && (step.CatchUp? || step.InstallSnapshot? || step.Compact?)
    ensures SameVotes(s, Next(s, step))
  {
    hide C.EntriesAbove, C.MatchIndex, C.MaxCommit, C.MaxMatch, C.MinApplied, C.Keys, NodeShape;
    match step {
      case CatchUp(id) => CatchUpSameVotes(s, id);
      case InstallSnapshot(id, snapshot, fence) => InstallSameVotes(s, id, snapshot, fence);
      case _ =>
    }
  }

  lemma CatchUpSameVotes(s: C.Cluster, id: NodeId)
    requires Shape(s)
    ensures SameVotes(s, C.CatchUp(s, id).0)
  {
    if C.CatchUp(s, id).1.Ok? {
      CopySameVote(s.nodes[id], s.nodes[s.leaderId.value], s.commitIndex);
    }
    hide C.CopyFromLeader, C.Acknowledge, C.MatchIndex, C.MaxCommit, C.MaxMatch, C.MinApplied, C.Keys, NodeShape;
  }

  lemma InstallSameVotes(s: C.Cluster, id: NodeId, snapshot: Snapshot, fence: ApplySnapshotFence)
    requires Shape(s)
    ensures SameVotes(s, C.InstallSnapshotTo(s, id, snapshot, fence).0)
  {
    hide C.RecordInstall, C.EntriesAbove, C.MaxCommit, C.MaxMatch, C.MinApplied, C.Keys, C.SnapshotAcceptable, NodeShape;
  }

  lemma ControlSameVotes(s: C.Cluster, step: Step)
    requires Shape(s) && (step.Stop? || step.SetLease? || step.SetHealthy? || step.Promote?)
    ensures SameVotes(s, Next(s, step))
  {
    hide NodeShape, C.MatchIndex;
  }

  lemma StepKeepsVotes(s: C.Cluster, step: Step)
    requires Shape(s) && Bounded(s) && LeaderVoted(s)
    ensures VotesKept(s, Next(s, step)) && LeaderVoted(Next(s, step))
  {
    hide Next, Shape, Bounded, LeaderVoted, SameVotes, VotesKept;
    match step {
      case Start => ElectionKeepsVotes(s, step);
      case Campaign(_, _) => ElectionKeepsVotes(s, step);
      case Transfer(_) => ElectionKeepsVotes(s, step);
      case Propose(payload) =>
        NextPropose(s, payload);
        ProposeSameVotes(s, payload);
        SameVotesKept(s, Next(s, step));
      case AddPeer(_) => PeersSameVotes(s, step); SameVotesKept(s, Next(s, step));
      case Remove(_) => PeersSameVotes(s, step); SameVotesKept(s, Next(s, step));
      case CatchUp(_) => IndexStepsSameVotes(s, step); SameVotesKept(s, Next(s, step));
      case InstallSnapshot(_, _, _) => IndexStepsSameVotes(s, step); SameVotesKept(s, Next(s, step));
      case Compact(_) => IndexStepsSameVotes(s, step); SameVotesKept(s, Next(s, step));
      case _ => ControlSameVotes(s, step); SameVotesKept(s, Next(s, step));
    }
  }

  /** Main result: over every run the term of a node that is not removed never goes down and in
      one term it votes for one node only; a leader is always at the current term and voted
      for itself. */
  lemma {:induction false} OneVotePerTerm(s: C.Cluster, steps: seq<Step>, k: NodeId)
    requires Agrees(s) && LeaderVoted(s) && k in s.nodes
    requires forall i :: 0 <= i < |steps| ==> steps[i] != Remove(k)
    ensures var t := Run(s, steps);
            LeaderVoted(t) && k in t.nodes && VoteKept(s.nodes[k], t.nodes[k])
    decreases |steps|
  {
    if steps != [] {
      var next := Next(s, steps[0]);
      StepKeepsVotes(s, steps[0]);
      StepKeepsAgreement(s, steps[0]);
      NodeStays(s, steps[0], k);
      hide Next, Agrees, LeaderVoted;
      OneVotePerTerm(next, steps[1..], k);
    }
  }

  /** The same from a new cluster, where there is no leader yet. */
  lemma NewClusterVotesOnce(groupId: GroupId, config: C.Config, peers: seq<C.Peer>, before: seq<Step>, after: seq<Step>, k: NodeId)
    requires C.New(groupId, config, peers).Ok? && k in Run(C.New(groupId, config, peers).value, before).nodes
    requires forall i :: 0 <= i < |after| ==> after[i] != Remove(k)
    ensures var s := Run(C.New(groupId, config, peers).value, before);
            var t := Run(s, after);
            LeaderVoted(s) && LeaderVoted(t) && k in t.nodes && VoteKept(s.nodes[k], t.nodes[k])
  {
    var start := C.New(groupId, config, peers).value;
    NewAgrees(groupId, config, peers);
    assert LeaderVoted(start);
    hide *;
    RunKeepsAgreement(start, before);
    RunKeepsLeaderVoted(start, before);
    OneVotePerTerm(Run(start, before), after, k);
  }

  lemma {:induction false} RunKeepsLeaderVoted(s: C.Cluster, steps: seq<Step>)
    requires Agrees(s) && LeaderVoted(s)
    ensures LeaderVoted(Run(s, steps))
    decreases |steps|
  {
    if steps != [] {
      StepKeepsVotes(s, steps[0]);
      StepKeepsAgreement(s, steps[0]);
      hide Next, Agrees, LeaderVoted;
      RunKeepsLeaderVoted(Next(s, steps[0]), steps[1..]);
    }
  }
}
