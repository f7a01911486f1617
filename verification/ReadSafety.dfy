/** What a read reported as safe has seen. */
module ReadSafety {
  import opened Types
  import opened Ordering
  import opened ClusterRuns
  import opened LogAgreement
  import opened CommitRule
  import opened Durability
  import C = ClusterModel
  import P = PipelineModel
  import Members = MembershipModel

  // ----- The quorum of the membership lists is the quorum of the nodes -----

  function InRole(nodes: map<NodeId, C.Node>, keys: seq<NodeId>, role: ReplicaRole): set<NodeId>
    requires forall id :: id in keys ==> id in nodes
  {
    set id | id in keys && nodes[id].replicaRole == role
  }

  function HealthyInRole(nodes: map<NodeId, C.Node>, keys: seq<NodeId>, role: ReplicaRole): set<NodeId>
    requires forall id :: id in keys ==> id in nodes
  {
    set id | id in keys && nodes[id].replicaRole == role && nodes[id].healthy
  }

  lemma {:induction false} RoleListsCount(nodes: map<NodeId, C.Node>, keys: seq<NodeId>, role: ReplicaRole)
    requires Ascending(keys) && forall id :: id in keys ==> id in nodes
    ensures |C.WithRole(nodes, keys, role)| == |InRole(nodes, keys, role)|
    ensures |C.HealthyAmong(nodes, C.WithRole(nodes, keys, role))| == |HealthyInRole(nodes, keys, role)|
  {
    if keys == [] {
      assert InRole(nodes, keys, role) == {} && HealthyInRole(nodes, keys, role) == {};
    } else {
      RoleListsCount(nodes, keys[1..], role);
      var rest := C.WithRole(nodes, keys[1..], role);
      if nodes[keys[0]].replicaRole == role {
        assert ([keys[0]] + rest)[1..] == rest;
      } else {
        assert [] + rest == rest;
      }
      FirstInRole(nodes, keys, role);
      FirstHealthyInRole(nodes, keys, role);
    }
  }

  /** Adding the first key to a set chosen among the others. */
  lemma CountFirst(keys: seq<NodeId>, all: set<NodeId>, rest: set<NodeId>)
    requires keys != [] && Ascending(keys)
    requires forall id :: id in rest <==> id in keys[1..] && id in all
    requires forall id :: id in all ==> id in keys
    ensures |all| == |rest| + if keys[0] in all then 1 else 0
  {
    SplitFirst(keys);
    if keys[0] in all {
      assert all == rest + {keys[0]};
    } else {
      assert all == rest;
    }
  }

  lemma FirstInRole(nodes: map<NodeId, C.Node>, keys: seq<NodeId>, role: ReplicaRole)
    requires keys != [] && Ascending(keys) && forall id :: id in keys ==> id in nodes
    ensures |InRole(nodes, keys, role)|
            == |InRole(nodes, keys[1..], role)| + if nodes[keys[0]].replicaRole == role then 1 else 0
  {
    CountFirst(keys, InRole(nodes, keys, role), InRole(nodes, keys[1..], role));
  }

  lemma FirstHealthyInRole(nodes: map<NodeId, C.Node>, keys: seq<NodeId>, role: ReplicaRole)
    requires keys != [] && Ascending(keys) && forall id :: id in keys ==> id in nodes
    ensures |HealthyInRole(nodes, keys, role)|
            == |HealthyInRole(nodes, keys[1..], role)|
               + if nodes[keys[0]].replicaRole == role && nodes[keys[0]].healthy then 1 else 0
  {
    CountFirst(keys, HealthyInRole(nodes, keys, role), HealthyInRole(nodes, keys[1..], role));
  }

  lemma SplitFirst(keys: seq<NodeId>)
    requires keys != [] && Ascending(keys)
    ensures keys[0] !in keys[1..] && forall k :: k in keys <==> k == keys[0] || k in keys[1..]
  {
  }

  lemma ParticipantsByRole(s: C.Cluster, keys: seq<NodeId>)
    requires forall id :: id in keys <==> id in s.nodes
    ensures |C.LiveParticipants(s)| == |HealthyInRole(s.nodes, keys, Voter)| + |HealthyInRole(s.nodes, keys, Witness)|
    ensures C.QuorumSize(s) == (|InRole(s.nodes, keys, Voter)| + |InRole(s.nodes, keys, Witness)|) / 2 + 1
  {
    assert C.LiveParticipants(s) == HealthyInRole(s.nodes, keys, Voter) + HealthyInRole(s.nodes, keys, Witness);
    assert (set id | id in s.nodes && s.nodes[id].replicaRole.ParticipatesInQuorum())
           == InRole(s.nodes, keys, Voter) + InRole(s.nodes, keys, Witness);
  }

  /** The quorum counted over the membership lists is the one counted over the nodes. */
  lemma ReadQuorumIsLiveQuorum(s: C.Cluster)
    ensures C.ReadQuorumReached(s) <==> C.HasLiveQuorum(s)
  {
    var keys := C.Keys(s);
    RoleListsCount(s.nodes, keys, Voter);
    RoleListsCount(s.nodes, keys, Witness);
    ParticipantsByRole(s, keys);
    hide C.WithRole, C.HealthyAmong, InRole, HealthyInRole, C.LiveParticipants, C.QuorumSize;
  }

  // ----- Safe reads -----

  /** What a safe report guarantees at one moment, exactly: the read index is at least the
      requested commit and, under a leader, within the lag of the cluster commit. */
  lemma SafeReadIsFresh(s: C.Cluster, r: C.ReadRequest, maxLag: LogIndex)
    requires NoneAhead(s) && C.ReadPathReport(s, r, maxLag).Ok?
    ensures var report := C.ReadPathReport(s, r, maxLag).value;
            var n := s.nodes[r.requesterId];
            && (report.safe ==>
                  && report.readIndex >= r.minCommitIndex
                  && (s.leaderId.Some? ==> report.readIndex <= s.commitIndex <= report.readIndex + maxLag))
            && (report.safe <==>
                  && n.healthy && C.HasLiveQuorum(s) && r.minCommitIndex <= n.appliedIndex <= n.commitIndex
                  && (s.leaderId.Some? ==> s.commitIndex <= n.commitIndex + maxLag))
  {
    ReadQuorumIsLiveQuorum(s);
    hide C.ReadQuorumReached, C.HasLiveQuorum;
  }

  lemma {:induction false} RunKeepsNoneAhead(s: C.Cluster, steps: seq<Step>)
    requires Agrees(s) && NoneAhead(s)
    ensures NoneAhead(Run(s, steps))
    decreases |steps|
  {
    if steps != [] {
      StepKeepsNoneAhead(s, steps[0]);
      StepKeepsAgreement(s, steps[0]);
      hide Next, Agrees, NoneAhead;
      RunKeepsNoneAhead(Next(s, steps[0]), steps[1..]);
    }
  }

  /** What a safe report promises. */
  ghost predicate Fresh(s: C.Cluster, r: C.ReadRequest, maxLag: LogIndex, readIndex: LogIndex) {
    readIndex >= r.minCommitIndex && (s.leaderId.Some? ==> readIndex <= s.commitIndex <= readIndex + maxLag)
  }

  /** Main result: in every state that any steps at all, removals included, lead to from a new
      cluster, a safe read is at least at the requested commit and, under a leader, within the
      lag of the cluster commit. */
  lemma SafeReadsAreFresh(groupId: GroupId, config: C.Config, peers: seq<C.Peer>, steps: seq<Step>,
                          r: C.ReadRequest, maxLag: LogIndex)
    requires C.New(groupId, config, peers).Ok?
    requires var s := Run(C.New(groupId, config, peers).value, steps);
             C.ReadPathReport(s, r, maxLag).Ok? && C.ReadPathReport(s, r, maxLag).value.safe
    ensures var s := Run(C.New(groupId, config, peers).value, steps);
            Fresh(s, r, maxLag, C.ReadPathReport(s, r, maxLag).value.readIndex)
  {
    NewAgrees(groupId, config, peers);
    NewCommitsNothing(groupId, config, peers);
    var start := C.New(groupId, config, peers).value;
    assert NoneAhead(start);
    hide C.New, Run, C.ReadPathReport, Agrees, NoneAhead, C.HasLiveQuorum;
    RunKeepsNoneAhead(start, steps);
    SafeReadIsFresh(Run(start, steps), r, maxLag);
  }

  lemma NewCommitsNothing(groupId: GroupId, config: C.Config, peers: seq<C.Peer>)
    requires C.New(groupId, config, peers).Ok?
    ensures var s := C.New(groupId, config, peers).value;
            s.commitIndex == 0 && forall id :: id in s.nodes ==> s.nodes[id].commitIndex == 0
  {
    hide P.New;
    var s := C.New(groupId, config, peers).value;
    forall id | id in s.nodes ensures s.nodes[id].commitIndex == 0 {
      NewNodesAreNew(peers, id);
    }
  }

  // ----- Successive reads -----

  /** A cluster loses its leader exactly when that node is removed. */
  lemma LeaderStaysUnlessRemoved(s: C.Cluster, step: Step)
    requires s.leaderId.Some? && s.leaderId.value in s.nodes
    ensures Next(s, step).leaderId.Some? <==> step != Remove(s.leaderId.value)
  {
    hide C.Keys, C.MaxCommit, C.MaxMatch, C.MinApplied, C.QuorumIndex, C.AdvanceAll, C.Acknowledge;
    hide C.MatchIndex, C.FirstElectable, C.Replicated, C.CanPropose, C.CopyFromLeader, C.RecordInstall, C.SnapshotAcceptable;
    if step.Propose? && C.CanPropose(s, step.payload) {
      ReplicatedKeepsTerm(s, step.payload);
    }
  }

  lemma CommitIsMaxNoneAhead(s: C.Cluster)
    requires CommitIsMax(s)
    ensures NoneAhead(s)
  {
  }

  /** Main result: with no lag allowed, a safe read under a leader returns exactly the cluster
      commit index; after any steps whose removals leave a node at the commit index, a later
      safe read on any node, again under a leader, returns at least as much. */
  lemma SafeReadsAreMonotone(s: C.Cluster, steps: seq<Step>, first: C.ReadRequest, later: C.ReadRequest)
    requires Agrees(s) && CommitIsMax(s) && CommitSafe(s, steps)
    requires s.leaderId.Some? && Run(s, steps).leaderId.Some?
    requires C.ReadPathReport(s, first, 0).Ok? && C.ReadPathReport(s, first, 0).value.safe
    requires C.ReadPathReport(Run(s, steps), later, 0).Ok? && C.ReadPathReport(Run(s, steps), later, 0).value.safe
    ensures var a, b := C.ReadPathReport(s, first, 0).value, C.ReadPathReport(Run(s, steps), later, 0).value;
            && a.readIndex == s.commitIndex && b.readIndex == Run(s, steps).commitIndex
            && a.readIndex <= b.readIndex && later.minCommitIndex <= b.readIndex
  {
    hide C.ReadPathReport, Run, Agrees, CommitIsMax, C.HasLiveQuorum, CommitSafe, NoneAhead;
    RunCommits(s, steps);
    CommitIsMaxNoneAhead(s);
    CommitIsMaxNoneAhead(Run(s, steps));
    SafeReadIsFresh(s, first, 0);
    SafeReadIsFresh(Run(s, steps), later, 0);
  }

  /** Main result: a safe read with no lag under a leader covers every proposal that was
      committed when it returned, after any steps whose removals leave a node at the commit
      index. */
  lemma SafeReadCoversProposal(s: C.Cluster, payload: Payload, steps: seq<Step>, r: C.ReadRequest)
    requires Agrees(s) && CommitIsMax(s) && CommitSafe(C.Propose(s, payload).0, steps)
    requires C.Propose(s, payload).1.Ok? && C.Propose(s, payload).0.commitIndex >= s.lastLogIndex + 1
    requires var t := Run(C.Propose(s, payload).0, steps);
             t.leaderId.Some? && C.ReadPathReport(t, r, 0).Ok? && C.ReadPathReport(t, r, 0).value.safe
    ensures C.ReadPathReport(Run(C.Propose(s, payload).0, steps), r, 0).value.readIndex
            >= C.Propose(s, payload).1.value.index
  {
    var p := C.Propose(s, payload).0;
    SuccessfulProposal(s, payload);
    hide *;
    AfterProposal(s, payload);
    RunCommits(p, steps);
    CommitIsMaxNoneAhead(Run(p, steps));
    SafeReadIsFresh(Run(p, steps), r, 0);
  }

  lemma {:induction false} FixedKeepsLeader(s: C.Cluster, steps: seq<Step>)
    requires Agrees(s) && AllFixed(steps) && s.leaderId.Some?
    ensures Run(s, steps).leaderId.Some?
    decreases |steps|
  {
    if steps != [] {
      assert Fixed(steps[0]) && Shape(s);
      LeaderStaysUnlessRemoved(s, steps[0]);
      StepKeepsAgreement(s, steps[0]);
      hide Next, Agrees;
      FixedKeepsLeader(Next(s, steps[0]), steps[1..]);
    }
  }

  /** What a safe read by a node shows of an entry returned when the cluster was s. */
  ghost predicate ReaderHolds(s: C.Cluster, e: LogEntry, t: C.Cluster, reader: NodeId, readIndex: LogIndex) {
    && reader in t.nodes && readIndex >= e.logId.index
    && (e in t.nodes[reader].log
        <==> reader in s.nodes && s.nodes[reader].healthy && s.nodes[reader].replicaRole.CanServeData())
  }

  /** Main result: after a proposal that was committed when it returned and any starts, stops,
      elections, transfers, health changes and proposals, a safe read with no lag covers its
      index, and the reader holds the entry exactly when it was healthy and stores entries at
      the proposal. */
  lemma SafeReaderHoldsExactly(s: C.Cluster, payload: Payload, steps: seq<Step>, r: C.ReadRequest)
    requires Agrees(s) && CommitIsMax(s) && AllFixed(steps)
    requires C.Propose(s, payload).1.Ok? && C.Propose(s, payload).0.commitIndex >= s.lastLogIndex + 1
    requires var t := Run(C.Propose(s, payload).0, steps);
             C.ReadPathReport(t, r, 0).Ok? && C.ReadPathReport(t, r, 0).value.safe
    ensures var t := Run(C.Propose(s, payload).0, steps);
            ReaderHolds(s, C.ProposedEntry(s, payload), t, r.requesterId, C.ReadPathReport(t, r, 0).value.readIndex)
  {
    var p := C.Propose(s, payload).0;
    var t := Run(p, steps);
    ProposalKeepsLeader(s, payload);
    ReaderIsThere(t, r);
    SuccessfulProposal(s, payload);
    hide Run, C.Propose, C.ProposedEntry, C.ReadPathReport, Agrees, CommitIsMax, Stays;
    AfterProposal(s, payload);
    FixedKeepsLeader(p, steps);
    FixedIsCommitSafe(p, steps);
    SafeReadCoversProposal(s, payload, steps, r);
    AcknowledgedEntriesStay(s, payload, steps);
    HoldsWhenStays(s, p, C.ProposedEntry(s, payload), t, r.requesterId);
  }

  lemma ProposalKeepsLeader(s: C.Cluster, payload: Payload)
    requires C.Propose(s, payload).1.Ok?
    ensures C.Propose(s, payload).0.leaderId.Some?
  {
    ReplicatedKeepsTerm(s, payload);
    RefreshCommitKeeps(C.Replicated(s, payload).0);
    hide C.Replicated, C.RefreshCommit;
  }

  lemma ReaderIsThere(t: C.Cluster, r: C.ReadRequest)
    requires C.ReadPathReport(t, r, 0).Ok?
    ensures r.requesterId in t.nodes
  {
    hide C.HasLiveQuorum, C.ReadQuorumReached;
  }

  lemma HoldsWhenStays(s: C.Cluster, p: C.Cluster, e: LogEntry, t: C.Cluster, id: NodeId)
    requires Stays(s, p, e, t) && id in t.nodes
    ensures e in t.nodes[id].log <==> id in s.nodes && s.nodes[id].healthy && s.nodes[id].replicaRole.CanServeData()
  {
    assert id in Holders(t, e) <==> id in LiveServers(s);
  }

  /** From a new cluster: successive safe reads with no lag, on any nodes and each under a
      leader, return commit indices that never go down. */
  lemma SafeReadsFromNewAreMonotone(groupId: GroupId, config: C.Config, peers: seq<C.Peer>, before: seq<Step>, between: seq<Step>,
                                    first: C.ReadRequest, later: C.ReadRequest)
    requires C.New(groupId, config, peers).Ok? && CommitSafe(C.New(groupId, config, peers).value, before)
    requires var s := Run(C.New(groupId, config, peers).value, before);
             var t := Run(s, between);
             && CommitSafe(s, between) && s.leaderId.Some? && t.leaderId.Some?
             && C.ReadPathReport(s, first, 0).Ok? && C.ReadPathReport(s, first, 0).value.safe
             && C.ReadPathReport(t, later, 0).Ok? && C.ReadPathReport(t, later, 0).value.safe
    ensures var s := Run(C.New(groupId, config, peers).value, before);
            C.ReadPathReport(s, first, 0).value.readIndex <= C.ReadPathReport(Run(s, between), later, 0).value.readIndex
  {
    var start := C.New(groupId, config, peers).value;
    NewAgrees(groupId, config, peers);
    NewCommitsNothing(groupId, config, peers);
    assert CommitIsMax(start);
    hide *;
    RunCommits(start, before);
    RunKeepsAgreement(start, before);
    SafeReadsAreMonotone(Run(start, before), between, first, later);
  }
}
