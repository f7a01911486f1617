/** Concrete runs from a new cluster that show where the guarantees end: why durability
    needs a live quorum, why a safe read need not hold every entry it covers, why reads
    need a leader, how a follower that comes back too late stops every proposal, and when
    compaction makes the numbering start again. */
module Scenarios {
  import opened Types
  import opened Ordering
  import opened ClusterRuns
  import opened LogAgreement
  import opened CommitRule
  import opened Durability
  import opened CrashRecovery
  import C = ClusterModel
  import P = PipelineModel
  import T = PipelineTheorems
  import W = WalModel
  import WalTheorems
  import Progress
  import Wedge
  import ReadSafety

  // ----- Two voters -----

  const CONFIG := C.Config(1024, true)
  const PAIR := [C.Peer(1, Voter), C.Peer(2, Voter)]

  /** Two nodes, in a group with the configuration, neither more nor less than given. */
  ghost predicate Pair(s: C.Cluster, first: C.Node, second: C.Node) {
    && s.groupId == 1 && s.config == CONFIG
    && s.nodes.Keys == {1, 2} && s.pipelines.Keys == {1, 2}
    && s.nodes[1] == first && s.nodes[2] == second
  }

  /** A new cluster of two voters. */
  ghost predicate Begun(s: C.Cluster) {
    && Pair(s, C.NewNode(1, Voter), C.NewNode(2, Voter))
    && s.leaderId.None? && s.currentTerm == 0 && s.commitIndex == 0 && s.lastLogIndex == 0
    && s.pipelines[2] == P.New(1, P.DEFAULT_LIMITS)
  }

  lemma NewPair() returns (s: C.Cluster)
    ensures C.New(1, CONFIG, PAIR) == Ok(s) && Begun(s)
    ensures Agrees(s) && CommitIsMax(s) && AllSafe(s)
  {
    assert PAIR[..1] == [C.Peer(1, Voter)] && PAIR[..1][..0] == [];
    assert C.NewNodes([]) == map[];
    assert C.NewNodes(PAIR[..1]) == map[1 := C.NewNode(1, Voter)];
    var nodes := C.NewNodes(PAIR);
    assert nodes == map[1 := C.NewNode(1, Voter), 2 := C.NewNode(2, Voter)];
    assert 1 in nodes && nodes[1].replicaRole.CanBeLeader();
    hide P.New;
    s := C.New(1, CONFIG, PAIR).value;
    NewAgrees(1, CONFIG, PAIR);
  }

  lemma FirstIsElectable(s: C.Cluster)
    requires s.nodes.Keys == {1, 2} && s.nodes[1].replicaRole.Voter? && s.nodes[1].healthy
    ensures C.FirstElectable(s.nodes, C.Keys(s)) == Some(1)
  {
  }

  /** Led by node id since a term. */
  ghost predicate Led(s: C.Cluster, id: NodeId, term: Term) {
    s.leaderId == Some(id) && s.currentTerm == term && s.running
  }

  lemma ElectedPair(s: C.Cluster, first: C.Node, second: C.Node)
    requires Pair(s, first, second) && s.running
    ensures var t := C.RefreshPipelines(C.Elected(s, 1));
            && Pair(t, C.Elect(first, s.currentTerm + 1, 1), C.Elect(second, s.currentTerm + 1, 1))
            && Led(t, 1, s.currentTerm + 1)
            && t.commitIndex == s.commitIndex && t.lastLogIndex == s.lastLogIndex
            && t.pipelines[2] == s.pipelines[2]
  {
    RefreshPipelinesKeeps(C.Elected(s, 1));
    OnlyLeaderAcknowledged(C.Elected(s, 1), 2);
    hide C.RefreshPipelines, C.Elect;
  }

  lemma OnlyLeaderAcknowledged(s: C.Cluster, k: NodeId)
    requires k in s.pipelines && s.leaderId != Some(k)
    ensures k in C.RefreshPipelines(s).pipelines && C.RefreshPipelines(s).pipelines[k] == s.pipelines[k]
  {
  }

  lemma StartElectsFirst(s: C.Cluster)
    requires s.leaderId.None? && C.FirstElectable(s.nodes, C.Keys(s)) == Some(1)
    requires 1 in s.nodes && s.nodes[1].replicaRole.Voter? && s.nodes[1].healthy
    ensures Next(s, Start) == C.RefreshPipelines(C.Elected(s.(running := true), 1))
  {
    hide C.RefreshPipelines, C.Elected, C.FirstElectable;
  }

  lemma Started(s: C.Cluster)
    requires Begun(s)
    ensures var t := Next(s, Start);
            && Pair(t, C.Elect(C.NewNode(1, Voter), 1, 1), C.Elect(C.NewNode(2, Voter), 1, 1)) && Led(t, 1, 1)
            && t.commitIndex == 0 && t.lastLogIndex == 0 && t.pipelines[2] == P.New(1, P.DEFAULT_LIMITS)
  {
    FirstIsElectable(s);
    StartElectsFirst(s);
    hide Next, C.RefreshPipelines, C.Elected, C.Elect, P.New, C.FirstElectable;
    ElectedPair(s.(running := true), C.NewNode(1, Voter), C.NewNode(2, Voter));
  }

  /** A node after a proposal that committed up to its own index. */
  function Proposed(n: C.Node, e: LogEntry): C.Node {
    if n.healthy then C.AdvanceCommit(WithEntry(n, e), e.logId.index) else n
  }

  ghost predicate ReadyToPropose(s: C.Cluster, first: C.Node, second: C.Node) {
    && Pair(s, first, second) && Led(s, 1, 1)
    && Agrees(s) && CommitIsMax(s) && AllSafe(s)
    && first.replicaRole.Voter? && first.healthy && second.replicaRole.Voter?
  }

  lemma CommitWithinLog(s: C.Cluster)
    requires Bounded(s) && CommitIsMax(s) && AllSafe(s)
    ensures s.commitIndex <= s.lastLogIndex
  {
  }

  lemma BothVoters(s: C.Cluster, first: C.Node, second: C.Node)
    requires ReadyToPropose(s, first, second)
    ensures LiveVoters(s) == C.LiveParticipants(s) && C.LiveParticipants(s) != {}
    ensures LiveServers(s) == C.LiveParticipants(s)
  {
    assert s.nodes[1].healthy && 1 in C.LiveParticipants(s);
  }

  lemma PairAccepts(s: C.Cluster, first: C.Node, second: C.Node)
    requires ReadyToPropose(s, first, second)
    requires P.QueueAppend(s.pipelines[2], C.ProposedEntry(s, [])).1
    ensures C.CanPropose(s, []) && C.Replicated(s, []).1
    ensures C.Propose(s, []) == (C.RefreshCommit(C.Replicated(s, []).0), Ok(C.ProposedEntry(s, []).logId))
  {
    PairHasRoom(s, first, second);
    var nothing: Payload := [];
    assert |nothing| == 0;
    hide *;
    Progress.ProposalSucceedsExactly(s, []);
  }

  lemma PairHasRoom(s: C.Cluster, first: C.Node, second: C.Node)
    requires ReadyToPropose(s, first, second)
    requires P.QueueAppend(s.pipelines[2], C.ProposedEntry(s, [])).1
    ensures C.CanPropose(s, []) && Progress.OthersHaveRoom(s, 0)
  {
    assert |C.ProposedEntry(s, []).payload| == 0;
    Progress.RoomExactly(s.pipelines[2], C.ProposedEntry(s, []));
    hide P.QueueAppend, C.ProposedEntry, Agrees, CommitIsMax, AllSafe, Progress.HasRoom;
  }

  /** What the two nodes look like once the entry is replicated. */
  lemma PairReplicated(s: C.Cluster, first: C.Node, second: C.Node)
    requires ReadyToPropose(s, first, second) && C.CanPropose(s, []) && C.Replicated(s, []).1
    ensures var r := C.Replicated(s, []).0;
            var e := C.ProposedEntry(s, []);
            && Pair(r, WithEntry(first, e), if second.healthy then WithEntry(second, e) else second) && Led(r, 1, 1)
            && r.lastLogIndex == e.logId.index && CommitIsMax(r) && C.LiveParticipants(r) != {}
  {
    ReplicatedNodes(s, []);
    ReplicatedIsMax(s, []);
    LiveAtProposal(s, []);
    BothVoters(s, first, second);
    PairReceivers(s, first, second);
    hide C.Replicated, C.ProposedEntry, C.CanPropose, Agrees, CommitIsMax, AllSafe, WithEntry, C.LiveParticipants, LiveAt, LiveVoters;
  }

  lemma PairReceivers(s: C.Cluster, first: C.Node, second: C.Node)
    requires ReadyToPropose(s, first, second)
    ensures Receives(first, 1) && (Receives(second, 1) <==> second.healthy)
  {
  }

  lemma PairRefreshed(r: C.Cluster, first: C.Node, second: C.Node)
    requires Pair(r, first, second) && Led(r, 1, 1) && CommitIsMax(r) && C.LiveParticipants(r) != {}
    ensures var t := C.RefreshCommit(r);
            && Led(t, 1, 1)
            && Pair(t, if first.healthy then C.AdvanceCommit(first, t.commitIndex) else first,
                    if second.healthy then C.AdvanceCommit(second, t.commitIndex) else second)
  {
    RefreshCommitKeeps(r);
    RefreshAdvancesAll(r);
    hide C.RefreshCommit, C.AdvanceCommit, CommitIsMax, C.LiveParticipants;
  }

  lemma PairCommits(s: C.Cluster, first: C.Node, second: C.Node)
    requires ReadyToPropose(s, first, second) && C.Propose(s, []).1.Ok?
    ensures C.Propose(s, []).0.commitIndex >= s.lastLogIndex + 1
  {
    ReadyParts(s, first, second);
    BothVoters(s, first, second);
    hide *;
    CommittedAtOnce(s, []);
    SameSizes(LiveVoters(s), C.LiveParticipants(s), C.QuorumSize(s));
  }

  lemma SameSizes(voters: set<NodeId>, live: set<NodeId>, quorum: nat)
    requires voters == live
    ensures |voters| >= Min(quorum, |live|)
  {
  }

  lemma AfterPairProposal(s: C.Cluster, first: C.Node, second: C.Node)
    requires ReadyToPropose(s, first, second) && C.Propose(s, []).1.Ok?
    ensures var t := C.Propose(s, []).0;
            && Agrees(t) && CommitIsMax(t) && AllSafe(t)
            && t.commitIndex == t.lastLogIndex == s.lastLogIndex + 1
  {
    AgreesIsBounded(s);
    hide *;
    ReadyParts(s, first, second);
    AfterProposal(s, []);
    ProposeIsSafe(s, []);
    PairCommits(s, first, second);
    LastAfterProposal(s, []);
    var t := C.Propose(s, []).0;
    AgreesIsBounded(t);
    SafeStepIsSafe(s, t);
    CommitWithinLog(t);
  }

  lemma ReadyParts(s: C.Cluster, first: C.Node, second: C.Node)
    requires ReadyToPropose(s, first, second)
    ensures Agrees(s) && CommitIsMax(s) && AllSafe(s)
  {
  }

  lemma SafeStepIsSafe(s: C.Cluster, t: C.Cluster)
    requires SafeStep(s, t)
    ensures AllSafe(t)
  {
  }

  lemma AgreesIsBounded(s: C.Cluster)
    requires Agrees(s)
    ensures Shape(s) && Bounded(s)
  {
  }

  /** No node matches past the entry just proposed. */
  lemma LastAfterProposal(s: C.Cluster, payload: Payload)
    requires Agrees(s) && C.Propose(s, payload).1.Ok?
    ensures C.Propose(s, payload).0.lastLogIndex <= s.lastLogIndex + 1
  {
    SuccessfulProposal(s, payload);
    ReplicatedKeepsShape(s, payload);
    var r := C.Replicated(s, payload).0;
    ReplicatedNodes(s, payload);
    RefreshNeverPastLog(r);
    hide C.Replicated, C.RefreshCommit, C.Propose, C.CanPropose, Agrees;
  }

  lemma RefreshNeverPastLog(r: C.Cluster)
    requires Bounded(r)
    ensures C.RefreshCommit(r).lastLogIndex <= r.lastLogIndex
  {
    var t := C.RefreshCommit(r);
    RefreshCommitKeeps(r);
    if t != r {
      MaxMatchIsMax(t.nodes, C.Keys(t));
      assert t.lastLogIndex == C.MaxMatch(t.nodes, C.Keys(t));
    }
    hide C.RefreshCommit;
  }

  /** An empty proposal by the leader of the pair, when the pipeline of the other takes it. */
  lemma ProposeOnPair(s: C.Cluster, first: C.Node, second: C.Node)
    requires ReadyToPropose(s, first, second)
    requires P.QueueAppend(s.pipelines[2], C.ProposedEntry(s, [])).1
    ensures var (t, r) := C.Propose(s, []);
            var e := C.ProposedEntry(s, []);
            && r == Ok(e.logId) && e.logId == LogId(1, s.lastLogIndex + 1)
            && ReadyToPropose(t, Proposed(first, e), Proposed(second, e))
            && t.commitIndex == e.logId.index == t.lastLogIndex
  {
    PairAccepts(s, first, second);
    PairReplicated(s, first, second);
    AfterPairProposal(s, first, second);
    var r, t, e := C.Replicated(s, []).0, C.Propose(s, []).0, C.ProposedEntry(s, []);
    ProposedEntryIsNext(s, []);
    PairRefreshed(r, WithEntry(first, e), if second.healthy then WithEntry(second, e) else second);
    assert WithEntry(first, e).healthy == first.healthy && WithEntry(second, e).healthy == second.healthy;
    hide C.Propose, C.Replicated, C.RefreshCommit, C.ProposedEntry, C.CanPropose, Agrees, CommitIsMax, AllSafe, C.LiveParticipants;
    AgreesIsBounded(t);
    CommitWithinLog(t);
    hide C.AdvanceCommit, WithEntry;
  }

  lemma InvariantsAfter(s: C.Cluster, step: Step)
    requires Agrees(s) && CommitIsMax(s) && AllSafe(s) && (step.Start? || step.SetHealthy?)
    ensures Agrees(Next(s, step)) && CommitIsMax(Next(s, step)) && AllSafe(Next(s, step))
  {
    AgreesIsBounded(s);
    assert Guarded(s, step) && KeepsCommit(s, step);
    hide *;
    StepKeepsAgreement(s, step);
    StepCommits(s, step);
    StepIsSafe(s, step);
    SafeStepIsSafe(s, Next(s, step));
  }

  lemma SecondHealth(s: C.Cluster, first: C.Node, second: C.Node, healthy: bool)
    requires Pair(s, first, second)
    ensures var t := Next(s, SetHealthy(2, healthy));
            && Pair(t, first, second.(healthy := healthy))
            && t == s.(nodes := t.nodes, leaseValid := t.leaseValid)
  {
  }

  /** Node 2 of a fresh pair goes down after the start. */
  lemma SecondGoesDown(s: C.Cluster)
    requires Begun(s) && Agrees(s) && CommitIsMax(s) && AllSafe(s)
    ensures var t := Next(Next(s, Start), SetHealthy(2, false));
            && ReadyToPropose(t, First(), Second().(healthy := false))
            && t.lastLogIndex == 0 && t.commitIndex == 0 && t.pipelines[2] == P.New(1, P.DEFAULT_LIMITS)
  {
    Started(s);
    var u := Next(s, Start);
    InvariantsAfter(s, Start);
    InvariantsAfter(u, SetHealthy(2, false));
    SecondHealth(u, First(), Second(), false);
    hide Agrees, CommitIsMax, AllSafe, P.New, Begun, Next, Pair;
  }

  function First(): C.Node { C.Elect(C.NewNode(1, Voter), 1, 1) }

  function Second(): C.Node { C.Elect(C.NewNode(2, Voter), 1, 1) }

  lemma FreshPipelineTakes(e: LogEntry)
    requires e.payload == []
    ensures P.QueueAppend(P.New(1, P.DEFAULT_LIMITS), e).1
  {
  }

  lemma OnlyFirstLives(s: C.Cluster, first: C.Node, second: C.Node)
    requires Pair(s, first, second) && first.replicaRole.Voter? && second.replicaRole.Voter?
    requires first.healthy && !second.healthy
    ensures LiveServers(s) == {1} && !C.HasLiveQuorum(s)
  {
    assert LiveServers(s) == {1} && C.LiveParticipants(s) == {1};
    assert (set id | id in s.nodes && s.nodes[id].replicaRole.ParticipatesInQuorum()) == {1, 2};
  }

  /** The first entry of the pair, proposed while node 2 is down. */
  lemma ProposedWhileDown(start: C.Cluster) returns (s: C.Cluster)
    requires Begun(start) && Agrees(start) && CommitIsMax(start) && AllSafe(start)
    ensures s == Run(start, [Start, SetHealthy(2, false)])
    ensures ReadyToPropose(s, First(), Second().(healthy := false)) && s.pipelines[2] == P.New(1, P.DEFAULT_LIMITS)
    ensures C.ProposedEntry(s, []) == ENTRY && s.commitIndex == 0 && s.lastLogIndex == 0
    ensures var (p, r) := C.Propose(s, []);
            && r == Ok(LogId(1, 1))
            && ReadyToPropose(p, Proposed(First(), ENTRY), Second().(healthy := false))
            && p.commitIndex == 1 == p.lastLogIndex
  {
    s := Next(Next(start, Start), SetHealthy(2, false));
    TwoSteps(start, Start, SetHealthy(2, false));
    SecondGoesDown(start);
    FreshPipelineTakes(C.ProposedEntry(s, []));
    hide Next, C.Propose, Agrees, CommitIsMax, AllSafe, P.QueueAppend, P.New, Begun, First, Second, Run, Pair;
    ProposeOnPair(s, First(), Second().(healthy := false));
  }

  const ENTRY := LogEntry(LogId(1, 1), [])

  /** Without a live quorum a proposal still commits at once, and then stays on a minority
      for ever: two voters, one of them down. */
  lemma MinorityCommits(later: seq<Step>) returns (s: C.Cluster)
    requires AllFixed(later)
    ensures C.New(1, CONFIG, PAIR).Ok?
    ensures s == Run(C.New(1, CONFIG, PAIR).value, [Start, SetHealthy(2, false)]) && !C.HasLiveQuorum(s)
    ensures var (p, r) := C.Propose(s, []);
            r == Ok(LogId(1, 1)) && p.commitIndex == 1 && Holders(Run(p, later), ENTRY) == {1}
  {
    var start := NewPair();
    s := ProposedWhileDown(start);
    hide Next, C.Propose, Agrees, CommitIsMax, AllSafe, P.New, C.New, Begun, Run, C.ProposedEntry;
    OnlyFirstLives(s, First(), Second().(healthy := false));
    hide LiveServers, C.HasLiveQuorum, First, Second, Holders;
    AcknowledgedEntriesStay(s, [], later);
  }

  lemma TwoSteps(s: C.Cluster, a: Step, b: Step)
    ensures Run(s, [a, b]) == Next(Next(s, a), b)
  {
    assert [a, b][1..] == [b] && [b][1..] == [];
    hide Next;
    assert Run(Next(s, a), [b]) == Run(Next(Next(s, a), b), []);
  }

  // ----- A safe read on a node that lacks an entry -----

  lemma FreshIsEmpty()
    ensures var p := P.New(1, P.DEFAULT_LIMITS);
            T.Loaded(p, 0) && T.HeldBytes(p) == 0 && p.limits == P.DEFAULT_LIMITS
  {
  }

  lemma OfferLeavesRoom(p: P.Pipeline, f: LogEntry, e: LogEntry, maxEntries: nat, maxBytes: nat)
    requires T.Loaded(p, 0) && T.HeldBytes(p) == 0 && p.limits == P.DEFAULT_LIMITS
    requires f.payload == [] && |e.payload| <= 1024
    ensures P.QueueAppend(T.Offer(p, f, maxEntries, maxBytes).0, e).1
  {
    hide T.Offer, T.Loaded, T.HeldBytes, P.QueueAppend;
    T.OfferWhenLoaded(p, 0, f, maxEntries, maxBytes);
    LoadedTakes(T.Offer(p, f, maxEntries, maxBytes).0, 1, e);
  }

  lemma LoadedTakes(p: P.Pipeline, load: nat, e: LogEntry)
    requires T.Loaded(p, load) && load <= 256 && p.limits == P.DEFAULT_LIMITS && T.HeldBytes(p) == 0 && |e.payload| <= 1024
    ensures P.QueueAppend(p, e).1
  {
  }

  /** The pipeline of follower f after an empty proposal made while it was down takes another
      small entry, when it was a fresh one. */
  lemma DownPipelineHasRoom(p: P.Pipeline, q: P.Pipeline, g: LogEntry, e: LogEntry, maxBytes: nat)
    requires p == P.New(1, P.DEFAULT_LIMITS) && g.payload == [] && |e.payload| <= 1024
    requires q == T.Offer(p, g, C.FLUSH_ENTRIES, maxBytes).0
    ensures P.QueueAppend(q, e).1
  {
    hide P.New, T.Loaded, T.HeldBytes, T.Offer, P.QueueAppend;
    FreshIsEmpty();
    OfferLeavesRoom(p, g, e, C.FLUSH_ENTRIES, maxBytes);
  }

  /** A node that was down at a proposal and got only a later one: its log has a gap, and
      still it is fully committed and serves a safe read, with no lag allowed, at an index
      that covers the entry it lacks. */
  lemma SafeReadOverGap() returns (s: C.Cluster, t: C.Cluster)
    ensures C.New(1, CONFIG, PAIR).Ok?
    ensures s == Run(C.New(1, CONFIG, PAIR).value, [Start, SetHealthy(2, false)])
    ensures C.Propose(s, []).1 == Ok(LogId(1, 1))
    ensures t == Run(C.Propose(s, []).0, [SetHealthy(2, true), Propose([])])
    ensures 2 in t.nodes && ENTRY !in t.nodes[2].log
    ensures C.ReadPathReport(t, C.ReadRequest(1, 2, 2, false), 0) == Ok(C.ReadResponse(true, 2, false))
  {
    hide *;
    var start := NewPair();
    s := ProposedWhileDown(start);
    var p := C.Propose(s, []).0;
    var u := Next(p, SetHealthy(2, true));
    t := Next(u, Propose([]));
    TwoSteps(p, SetHealthy(2, true), Propose([]));
    SecondReturns(s);
    NextPropose(u, []);
    FirstIsVoter();
    ProposeOnPair(u, Proposed(First(), ENTRY), Second().(healthy := true));
    NextIsSecond(u);
    GapIsRead(t);
  }

  /** Node 2 comes back after the first entry, and its pipeline has room for another. */
  lemma SecondReturns(s: C.Cluster)
    requires ReadyToPropose(s, First(), Second().(healthy := false)) && s.pipelines[2] == P.New(1, P.DEFAULT_LIMITS)
    requires var (p, r) := C.Propose(s, []);
             && r == Ok(LogId(1, 1)) && p.lastLogIndex == 1 && p.commitIndex == 1
             && ReadyToPropose(p, Proposed(First(), ENTRY), Second().(healthy := false))
    ensures var u := Next(C.Propose(s, []).0, SetHealthy(2, true));
            && ReadyToPropose(u, Proposed(First(), ENTRY), Second().(healthy := true))
            && u.lastLogIndex == 1 && P.QueueAppend(u.pipelines[2], C.ProposedEntry(u, [])).1
  {
    var p := C.Propose(s, []).0;
    var u := Next(p, SetHealthy(2, true));
    InvariantsAfter(p, SetHealthy(2, true));
    SecondHealth(p, Proposed(First(), ENTRY), Second().(healthy := false), true);
    assert C.ProposedEntry(s, []).payload == [] && C.ProposedEntry(u, []).payload == [];
    hide Next, C.Propose, Agrees, CommitIsMax, AllSafe, P.New, P.QueueAppend, C.ProposedEntry, T.Offer;
    Wedge.SuccessOffers(s, [], 2);
    DownPipelineHasRoom(s.pipelines[2], p.pipelines[2], C.ProposedEntry(s, []), C.ProposedEntry(u, []),
                        Max(s.config.maxPayloadBytes, 1));
  }

  /** The entry that follows the first is the second of the term. */
  lemma NextIsSecond(u: C.Cluster)
    requires ReadyToPropose(u, Proposed(First(), ENTRY), Second().(healthy := true)) && u.lastLogIndex == 1
    ensures C.ProposedEntry(u, []) == LogEntry(LogId(1, 2), [])
    ensures Proposed(Second().(healthy := true), LogEntry(LogId(1, 2), [])) == Gapped()
  {
    hide Agrees, CommitIsMax, AllSafe, Proposed, First, Second;
  }

  lemma FirstIsVoter()
    ensures var n := Proposed(First(), ENTRY); n.replicaRole.Voter? && n.healthy
    ensures Second().replicaRole.Voter?
  {
  }

  /** Node 2 after it came back and took only the second proposal. */
  function Gapped(): C.Node {
    Proposed(Second().(healthy := true), LogEntry(LogId(1, 2), []))
  }

  lemma GappedNode()
    ensures var n := Gapped();
            && ENTRY !in n.log && n.commitIndex == 2 && n.appliedIndex == 2 && n.healthy && n.replicaRole.Voter?
    ensures var n := Proposed(Proposed(First(), ENTRY), LogEntry(LogId(1, 2), [])); n.healthy && n.replicaRole.Voter?
  {
  }

  /** A safe read by the second node of the pair, with no lag allowed. */
  lemma SecondReads(t: C.Cluster, first: C.Node, second: C.Node, commit: LogIndex)
    requires Pair(t, first, second) && C.HasLiveQuorum(t) && t.commitIndex == commit
    requires second.healthy && second.commitIndex == commit && second.appliedIndex == commit
    ensures C.ReadPathReport(t, C.ReadRequest(1, 2, commit, false), 0) == Ok(C.ReadResponse(true, commit, false))
  {
    ReadSafety.ReadQuorumIsLiveQuorum(t);
    hide C.ReadQuorumReached, C.HasLiveQuorum;
  }

  lemma GapIsRead(t: C.Cluster)
    requires ReadyToPropose(t, Proposed(Proposed(First(), ENTRY), LogEntry(LogId(1, 2), [])), Gapped())
    requires t.commitIndex == 2
    ensures 2 in t.nodes && ENTRY !in t.nodes[2].log
    ensures C.ReadPathReport(t, C.ReadRequest(1, 2, 2, false), 0) == Ok(C.ReadResponse(true, 2, false))
  {
    GappedNode();
    hide Proposed, First, Gapped, Agrees, AllSafe, CommitIsMax, C.ReadPathReport, C.HasLiveQuorum;
    var first := Proposed(Proposed(First(), ENTRY), LogEntry(LogId(1, 2), []));
    BothLive(t, first, Gapped());
    SecondReads(t, first, Gapped(), 2);
  }

  lemma BothLive(s: C.Cluster, first: C.Node, second: C.Node)
    requires Pair(s, first, second) && first.replicaRole.Voter? && second.replicaRole.Voter?
    requires first.healthy && second.healthy
    ensures C.HasLiveQuorum(s)
  {
    assert C.LiveParticipants(s) == {1, 2};
    assert (set id | id in s.nodes && s.nodes[id].replicaRole.ParticipatesInQuorum()) == {1, 2};
  }

  // ----- A follower that comes back too late -----

  /** The pair with node 2 down and load empty entries unanswered in its pipeline. */
  ghost predicate Filling(s: C.Cluster, load: nat) {
    && Agrees(s) && s.nodes.Keys == {1, 2} && s.pipelines.Keys == {1, 2} && Led(s, 1, 1) && s.config == CONFIG
    && s.nodes[1].healthy && Wedge.Unanswered(s, 2, load)
    && s.pipelines[2].limits == P.DEFAULT_LIMITS && T.HeldBytes(s.pipelines[2]) == 0
  }

  lemma LoadedHasRoom(p: P.Pipeline, load: nat)
    requires T.Loaded(p, load) && load < 512 && p.limits == P.DEFAULT_LIMITS && T.HeldBytes(p) == 0
    ensures Progress.HasRoom(p, 0)
  {
  }

  lemma FillingProposes(s: C.Cluster, load: nat)
    requires Filling(s, load) && load < 512
    ensures C.Propose(s, []).1.Ok?
  {
    LoadedHasRoom(s.pipelines[2], load);
    hide Agrees, T.Loaded, T.HeldBytes, Progress.HasRoom, C.Propose;
    Progress.ProposalSucceedsExactly(s, []);
  }

  lemma OfferedLoad(p: P.Pipeline, load: nat, e: LogEntry, maxBytes: nat)
    requires T.Loaded(p, load) && load < 512 && p.limits == P.DEFAULT_LIMITS && T.HeldBytes(p) == 0 && e.payload == []
    ensures var q := T.Offer(p, e, C.FLUSH_ENTRIES, maxBytes).0;
            T.Loaded(q, load + 1) && q.limits == P.DEFAULT_LIMITS && T.HeldBytes(q) == 0
  {
    T.OfferWhenLoaded(p, load, e, C.FLUSH_ENTRIES, maxBytes);
  }

  /** The same members, leader, term, health and configuration. */
  ghost predicate SameCast(s: C.Cluster, t: C.Cluster) {
    && t.nodes.Keys == s.nodes.Keys && t.pipelines.Keys == s.nodes.Keys && t.config == s.config
    && t.leaderId == s.leaderId && t.currentTerm == s.currentTerm && t.running == s.running
    && forall id :: id in s.nodes ==>
      t.nodes[id].healthy == s.nodes[id].healthy && t.nodes[id].replicaRole == s.nodes[id].replicaRole
  }

  lemma TouchedKeepsCast(s: C.Cluster, t: C.Cluster, e: LogEntry)
    requires t.nodes.Keys == s.nodes.Keys && t.pipelines.Keys == s.nodes.Keys
    requires t == s.(nodes := t.nodes, pipelines := t.pipelines, lastLogIndex := t.lastLogIndex)
    requires forall id :: id in s.nodes ==> t.nodes[id] == s.nodes[id] || t.nodes[id] == WithEntry(s.nodes[id], e)
    ensures SameCast(s, t)
  {
  }

  lemma ReplicatedKeepsCast(s: C.Cluster, payload: Payload)
    requires Shape(s) && Bounded(s) && C.CanPropose(s, payload)
    ensures SameCast(s, C.Replicated(s, payload).0)
  {
    hide *;
    ReplicatedNodes(s, payload);
    TouchedKeepsCast(s, C.Replicated(s, payload).0, C.ProposedEntry(s, payload));
  }

  lemma RefreshKeepsCast(s: C.Cluster, t: C.Cluster)
    requires SameCast(s, t)
    ensures SameCast(s, C.RefreshCommit(t))
  {
    RefreshCommitKeeps(t);
    hide C.RefreshCommit;
  }

  lemma ProposalKeepsCast(s: C.Cluster, payload: Payload)
    requires Shape(s) && Bounded(s) && C.Propose(s, payload).1.Ok?
    ensures SameCast(s, C.Propose(s, payload).0)
  {
    hide *;
    SuccessfulProposal(s, payload);
    ReplicatedKeepsCast(s, payload);
    RefreshKeepsCast(s, C.Replicated(s, payload).0);
  }

  lemma FillingStep(s: C.Cluster, load: nat)
    requires Filling(s, load) && load < 512
    ensures Wedge.Succeeds(s, Propose([])) && Filling(Next(s, Propose([])), load + 1)
  {
    FillingProposes(s, load);
    AgreesIsBounded(s);
    StepKeepsAgreement(s, Propose([]));
    NextPropose(s, []);
    hide Agrees, T.Loaded, T.HeldBytes, C.Propose, Next, Shape, Bounded;
    ProposalKeepsCast(s, []);
    Wedge.SuccessOffers(s, [], 2);
    assert C.ProposedEntry(s, []).payload == [];
    hide C.ProposedEntry, T.Offer;
    OfferedLoad(s.pipelines[2], load, C.ProposedEntry(s, []), Max(s.config.maxPayloadBytes, 1));
  }

  /** That many empty proposals. */
  function Proposals(n: nat): seq<Step> {
    seq(n, _ => Propose([]))
  }

  lemma {:induction false} FillingRun(s: C.Cluster, load: nat, n: nat)
    requires Filling(s, load) && load + n <= 512
    ensures Filling(Run(s, Proposals(n)), load + n) && Wedge.Successes(s, Proposals(n)) == n
    decreases n
  {
    hide Filling, Next, Wedge.Succeeds;
    if n > 0 {
      FillingStep(s, load);
      assert Proposals(n)[0] == Propose([]) && Proposals(n)[1..] == Proposals(n - 1);
      FillingRun(Next(s, Propose([])), load + 1, n - 1);
    }
  }

  lemma FilledIsStuck(s: C.Cluster)
    requires Filling(s, 512)
    ensures var t := Next(s, SetHealthy(2, true)); Wedge.Stuck(t, 2) && Agrees(t) && t.nodes[2].healthy
  {
    StepKeepsAgreement(s, SetHealthy(2, true));
    hide Agrees;
  }

  lemma DownIsFilling(s: C.Cluster)
    requires ReadyToPropose(s, First(), Second().(healthy := false)) && s.pipelines[2] == P.New(1, P.DEFAULT_LIMITS)
    ensures Filling(s, 0)
  {
    FreshIsEmpty();
    hide Agrees, CommitIsMax, AllSafe, P.New, T.Loaded, T.HeldBytes;
  }

  lemma FilledAndReturned(s: C.Cluster)
    requires Filling(s, 0)
    ensures var t := Next(Run(s, Proposals(512)), SetHealthy(2, true));
            && Wedge.Successes(s, Proposals(512)) == 512
            && Wedge.Stuck(t, 2) && Agrees(t) && 2 in t.nodes && t.nodes[2].healthy
  {
    hide *;
    FillingRun(s, 0, 512);
    FilledIsStuck(Run(s, Proposals(512)));
    StuckIsThere(Next(Run(s, Proposals(512)), SetHealthy(2, true)));
  }

  /** A follower is down for 512 proposals, each of which succeeds, and comes back: both voters
      are then healthy, and whatever happens next short of removing it, no proposal of another
      leader ever succeeds again. */
  lemma ReturnedFollowerStopsProposals(later: seq<Step>, payload: Payload) returns (s: C.Cluster, t: C.Cluster)
    requires forall i :: 0 <= i < |later| ==> later[i] != Remove(2)
    ensures C.New(1, CONFIG, PAIR).Ok?
    ensures s == Run(C.New(1, CONFIG, PAIR).value, [Start, SetHealthy(2, false)])
    ensures Wedge.Successes(s, Proposals(512)) == 512
    ensures t == Next(Run(s, Proposals(512)), SetHealthy(2, true)) && 2 in t.nodes && t.nodes[2].healthy
    ensures Run(t, later).leaderId != Some(2) ==> C.Propose(Run(t, later), payload).1.Err?
  {
    hide *;
    var start := NewPair();
    s := ProposedWhileDown(start);
    DownIsFilling(s);
    FilledAndReturned(s);
    t := Next(Run(s, Proposals(512)), SetHealthy(2, true));
    Wedge.FullPipelineStopsProposals(t, later, 2, payload);
  }

  lemma StuckIsThere(t: C.Cluster)
    requires Wedge.Stuck(t, 2)
    ensures 2 in t.nodes
  {
  }

  // ----- Reads without a leader, and commits after a removal -----

  /** The cluster with only the node left that had been down. */
  lemma OnlySecondLeft(s: C.Cluster, first: C.Node, second: C.Node)
    requires Pair(s, first, second) && s.leaderId == Some(1)
    ensures var t := Next(s, Remove(1));
            && t.nodes == map[2 := second] && t.leaderId.None? && t.commitIndex == s.commitIndex && t.groupId == 1
  {
  }

  lemma AloneHasQuorum(s: C.Cluster, n: C.Node)
    requires s.nodes == map[2 := n] && n.replicaRole.Voter? && n.healthy
    ensures C.HasLiveQuorum(s)
  {
    assert C.LiveParticipants(s) == {2};
    assert (set id | id in s.nodes && s.nodes[id].replicaRole.ParticipatesInQuorum()) == {2};
  }

  lemma SecondReadsZero(t: C.Cluster)
    requires t.nodes == map[2 := Second().(healthy := true)] && t.leaderId.None? && t.groupId == 1
    ensures C.ReadPathReport(t, C.ReadRequest(1, 2, 0, false), 0) == Ok(C.ReadResponse(true, 0, false))
    ensures C.CompactLogs(t, 0).commitIndex == 0
  {
    AloneHasQuorum(t, Second().(healthy := true));
    ReadSafety.ReadQuorumIsLiveQuorum(t);
    MaxCommitIsMax(C.Compacted(t, 0).nodes, C.Keys(C.Compacted(t, 0)));
    hide C.ReadQuorumReached, C.HasLiveQuorum, C.Keys, C.MaxCommit, C.MaxMatch, C.MinApplied;
    assert C.Compacted(t, 0).nodes[2].commitIndex == 0;
  }

  lemma ReturnAndRemove(p: C.Cluster, first: C.Node, second: C.Node)
    requires Pair(p, first, second) && p.leaderId == Some(1)
    ensures var t := Run(p, [SetHealthy(2, true), Remove(1)]);
            && t.nodes == map[2 := second.(healthy := true)]
            && t.leaderId.None? && t.groupId == 1 && t.commitIndex == p.commitIndex
  {
    var u := Next(p, SetHealthy(2, true));
    TwoSteps(p, SetHealthy(2, true), Remove(1));
    SecondHealth(p, first, second, true);
    hide Next, Run;
    OnlySecondLeft(u, first, second.(healthy := true));
  }

  lemma AfterRemoval(p: C.Cluster, first: C.Node)
    requires Pair(p, first, Second().(healthy := false)) && p.leaderId == Some(1)
    ensures var t := Run(p, [SetHealthy(2, true), Remove(1)]);
            && t.commitIndex == p.commitIndex
            && C.ReadPathReport(t, C.ReadRequest(1, 2, 0, false), 0) == Ok(C.ReadResponse(true, 0, false))
            && Next(t, Compact(0)).commitIndex == 0
  {
    hide Run, C.ReadPathReport, C.CompactLogs, Pair;
    assert Second().(healthy := false).(healthy := true) == Second().(healthy := true);
    hide Second;
    ReturnAndRemove(p, first, Second().(healthy := false));
    SecondReadsZero(Run(p, [SetHealthy(2, true), Remove(1)]));
  }

  lemma ReadyIsLed(p: C.Cluster, first: C.Node, second: C.Node)
    requires ReadyToPropose(p, first, second)
    ensures Pair(p, first, second) && p.leaderId == Some(1)
  {
  }

  /** Once the leader is removed the lag is no longer checked: a read with no lag allowed is
      safe at index 0 while the cluster has committed 1, and the next refresh takes the
      commit index itself back to 0. */
  lemma StaleReadAfterRemoval() returns (s: C.Cluster)
    ensures C.New(1, CONFIG, PAIR).Ok?
    ensures s == Run(C.New(1, CONFIG, PAIR).value, [Start, SetHealthy(2, false)])
    ensures C.Propose(s, []).1 == Ok(LogId(1, 1))
    ensures var t := Run(C.Propose(s, []).0, [SetHealthy(2, true), Remove(1)]);
            && t.commitIndex == 1
            && C.ReadPathReport(t, C.ReadRequest(1, 2, 0, false), 0) == Ok(C.ReadResponse(true, 0, false))
            && Next(t, Compact(0)).commitIndex == 0
  {
    hide *;
    var start := NewPair();
    s := ProposedWhileDown(start);
    ReadyIsLed(C.Propose(s, []).0, Proposed(First(), ENTRY), Second().(healthy := false));
    AfterRemoval(C.Propose(s, []).0, Proposed(First(), ENTRY));
  }

  // ----- Compaction without a snapshot -----

  lemma {:induction false} NothingAbove(log: seq<LogEntry>, index: LogIndex)
    requires forall i :: 0 <= i < |log| ==> log[i].logId.index <= index
    ensures C.EntriesAbove(log, index) == []
  {
    if log != [] {
      NothingAbove(log[1..], index);
    }
  }

  /** Nothing is left of a log without a snapshot that is compacted through its end. */
  lemma CompactedAway(n: C.Node, index: LogIndex)
    requires AscendingLog(n.log) && C.MatchIndex(n) <= index && n.installedSnapshot.None?
    ensures C.MatchIndex(C.CompactLog(n, index)) == 0
  {
    LogIsBounded(n);
    NothingAbove(n.log, index);
  }

  lemma AllCompactedAway(s: C.Cluster)
    requires Agrees(s) && forall id :: id in s.nodes ==> s.nodes[id].installedSnapshot.None?
    ensures var u := C.Compacted(s, s.lastLogIndex);
            forall id :: id in u.nodes ==> C.MatchIndex(u.nodes[id]) == 0
  {
    forall id | id in s.nodes ensures C.MatchIndex(C.CompactLog(s.nodes[id], s.lastLogIndex)) == 0 {
      assert NodeShape(s.nodes[id], id, s.leaderId, s.currentTerm);
      CompactedAway(s.nodes[id], s.lastLogIndex);
    }
  }

  lemma NothingMatched(u: C.Cluster)
    requires forall id :: id in u.nodes ==> C.MatchIndex(u.nodes[id]) == 0
    ensures C.RefreshIndexes(u).lastLogIndex == 0
  {
    MaxMatchIsMax(u.nodes, C.Keys(u));
    hide C.MatchIndex, C.MaxMatch, C.MaxCommit, C.MinApplied, C.Keys;
  }

  lemma CompactionKeepsCommit(s: C.Cluster, index: LogIndex)
    requires CommitIsMax(s)
    ensures C.CompactLogs(s, index).commitIndex == s.commitIndex && C.CompactLogs(s, index).currentTerm == s.currentTerm
  {
    var u := C.Compacted(s, index);
    assert forall id :: id in s.nodes ==> id in u.nodes && u.nodes[id].commitIndex == s.nodes[id].commitIndex;
    MaxCommitIsMax(u.nodes, C.Keys(u));
    hide C.MatchIndex, C.EntriesAbove, C.MinApplied, C.MaxMatch, C.MaxCommit, C.Keys;
  }

  /** Nothing is committed, or some node keeps the commit index: in its snapshot, or in a last
      entry beyond the compacted index. */
  predicate KeepsNumbering(s: C.Cluster, index: LogIndex) {
    s.commitIndex == 0 || exists id :: id in s.nodes && KeepsIndex(s.nodes[id], index, s.commitIndex)
  }

  predicate KeepsIndex(n: C.Node, index: LogIndex, commit: LogIndex) {
    || W.SnapshotIndex(n.installedSnapshot) >= commit
    || (W.LastEntryIndex(n.log) > index && W.LastEntryIndex(n.log) >= commit)
  }

  lemma CompactedMatch(n: C.Node, index: LogIndex, commit: LogIndex)
    requires AscendingLog(n.log) && commit > 0
    ensures C.MatchIndex(C.CompactLog(n, index)) >= commit <==> KeepsIndex(n, index, commit)
  {
    LastAbove(n.log, index);
    hide C.EntriesAbove;
  }

  lemma LastIndexReaches(u: C.Cluster, commit: LogIndex)
    requires commit > 0
    ensures C.RefreshIndexes(u).lastLogIndex >= commit <==> exists id :: id in u.nodes && C.MatchIndex(u.nodes[id]) >= commit
  {
    MaxMatchIsMax(u.nodes, C.Keys(u));
    hide C.MatchIndex, C.MaxMatch, C.MaxCommit, C.MinApplied, C.Keys;
  }

  /** Main result: compaction leaves the last index at or past the commit index exactly when
      some node keeps that index. */
  lemma CompactionKeepsNumberingExactly(s: C.Cluster, index: LogIndex)
    requires Agrees(s) && CommitIsMax(s)
    ensures var t := C.CompactLogs(s, index);
            && t.commitIndex == s.commitIndex && t.currentTerm == s.currentTerm
            && (t.lastLogIndex >= t.commitIndex <==> KeepsNumbering(s, index))
  {
    CompactionKeepsCommit(s, index);
    var u := C.Compacted(s, index);
    if s.commitIndex > 0 {
      LastIndexReaches(u, s.commitIndex);
      forall id | id in s.nodes
        ensures id in u.nodes
                && (C.MatchIndex(u.nodes[id]) >= s.commitIndex <==> KeepsIndex(s.nodes[id], index, s.commitIndex))
      {
        assert NodeShape(s.nodes[id], id, s.leaderId, s.currentTerm);
        CompactedMatch(s.nodes[id], index, s.commitIndex);
      }
    }
    hide C.MatchIndex, C.RefreshIndexes, C.CompactLog, KeepsIndex, CommitIsMax;
  }

  /** Main result: so exactly then the next log id that is returned after a compaction lies past
      the commit index; otherwise it is that of a committed index again. */
  lemma NextIdIsNewExactly(s: C.Cluster, index: LogIndex, payload: Payload)
    requires Agrees(s) && CommitIsMax(s) && C.Propose(C.CompactLogs(s, index), payload).1.Ok?
    ensures C.Propose(C.CompactLogs(s, index), payload).1.value.index > s.commitIndex <==> KeepsNumbering(s, index)
  {
    hide *;
    CompactionKeepsNumberingExactly(s, index);
    SuccessfulProposal(C.CompactLogs(s, index), payload);
  }

  /** Compacting through the last index with no snapshot installed keeps the commit index but
      forgets the last one: the next proposal starts again at index 1. */
  lemma CompactionRestartsIndices(s: C.Cluster, payload: Payload)
    requires Agrees(s) && CommitIsMax(s) && forall id :: id in s.nodes ==> s.nodes[id].installedSnapshot.None?
    ensures var t := C.CompactLogs(s, s.lastLogIndex);
            && t.commitIndex == s.commitIndex
            && C.ProposedEntry(t, payload).logId == LogId(s.currentTerm, 1)
  {
    AllCompactedAway(s);
    NothingMatched(C.Compacted(s, s.lastLogIndex));
    CompactionKeepsCommit(s, s.lastLogIndex);
    hide C.RefreshIndexes, C.Compacted, Agrees, CommitIsMax;
  }

  lemma NextAfterCompaction(p: C.Cluster, first: C.Node, second: C.Node)
    requires ReadyToPropose(p, first, second) && first.installedSnapshot.None? && second.installedSnapshot.None?
    requires p.lastLogIndex == 1
    ensures C.ProposedEntry(Next(p, Compact(1)), [7]) == LogEntry(LogId(1, 1), [7])
  {
    hide C.CompactLogs, Agrees, CommitIsMax, AllSafe;
    CompactionRestartsIndices(p, [7]);
  }

  lemma CompactedRuns(p: C.Cluster, first: C.Node, second: C.Node)
    requires ReadyToPropose(p, first, second)
    ensures var u := Next(p, Compact(1));
            && u.nodes.Keys == {1, 2} && u.pipelines == p.pipelines && u.pipelines.Keys == {1, 2}
            && Led(u, 1, 1) && u.config == CONFIG && u.nodes[1].healthy
  {
    hide Agrees, CommitIsMax, AllSafe;
    CompactedPair(p, first, second);
    hide Next, C.EntriesAbove;
  }

  lemma ReusedAfterCompaction(p: C.Cluster, first: C.Node, second: C.Node)
    requires ReadyToPropose(p, first, second) && first.installedSnapshot.None? && second.installedSnapshot.None?
    requires p.lastLogIndex == 1 && P.QueueAppend(p.pipelines[2], LogEntry(LogId(1, 1), [7])).1
    ensures C.Propose(Next(p, Compact(1)), [7]).1 == Ok(LogId(1, 1))
  {
    NextAfterCompaction(p, first, second);
    CompactedRuns(p, first, second);
    hide *;
    PairTakes(Next(p, Compact(1)), [7]);
  }

  /** So a log id that was returned and committed can be returned again. */
  lemma CommittedIdIsReused() returns (s: C.Cluster)
    ensures C.New(1, CONFIG, PAIR).Ok?
    ensures s == Run(C.New(1, CONFIG, PAIR).value, [Start, SetHealthy(2, false)])
    ensures var p := C.Propose(s, []).0;
            && C.Propose(s, []).1 == Ok(LogId(1, 1)) && p.commitIndex == 1
            && C.Propose(Next(p, Compact(1)), [7]).1 == Ok(LogId(1, 1))
  {
    var start := NewPair();
    s := ProposedWhileDown(start);
    var p := C.Propose(s, []).0;
    NoSnapshots();
    hide Next, C.Propose, Agrees, CommitIsMax, AllSafe, P.New, C.New, Begun, Run, P.QueueAppend;
    FirstIsVoter();
    hide First, Second, Proposed;
    Wedge.SuccessOffers(s, [], 2);
    DownPipelineHasRoom(s.pipelines[2], p.pipelines[2], ENTRY, LogEntry(LogId(1, 1), [7]), Max(s.config.maxPayloadBytes, 1));
    ReusedAfterCompaction(p, Proposed(First(), ENTRY), Second().(healthy := false));
  }

  lemma NoSnapshots()
    ensures Proposed(First(), ENTRY).installedSnapshot.None? && Second().installedSnapshot.None?
  {
  }

  /** Compaction changes the logs of the pair only. */
  lemma CompactedPair(s: C.Cluster, first: C.Node, second: C.Node)
    requires Pair(s, first, second)
    ensures var t := Next(s, Compact(1));
            && Pair(t, C.CompactLog(first, 1), C.CompactLog(second, 1))
            && t.leaderId == s.leaderId && t.currentTerm == s.currentTerm && t.running == s.running && t.pipelines == s.pipelines
  {
    hide C.EntriesAbove, C.MinApplied, C.MaxMatch, C.MaxCommit, C.Keys;
  }

  lemma PairTakes(s: C.Cluster, payload: Payload)
    requires s.nodes.Keys == {1, 2} && s.pipelines.Keys == {1, 2} && Led(s, 1, 1) && s.config == CONFIG
    requires |payload| <= 1024 && s.nodes[1].healthy
    requires P.QueueAppend(s.pipelines[2], C.ProposedEntry(s, payload)).1
    ensures C.Propose(s, payload).1 == Ok(C.ProposedEntry(s, payload).logId)
  {
    assert |C.ProposedEntry(s, payload).payload| == |payload|;
    hide P.QueueAppend, C.ProposedEntry, C.Propose, Progress.HasRoom;
    Progress.RoomExactly(s.pipelines[2], C.ProposedEntry(s, payload));
    Progress.ProposalSucceedsExactly(s, payload);
  }
}
