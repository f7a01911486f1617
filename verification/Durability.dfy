/** What becomes of a proposal that returned a log id: who holds the entry from then on,
    and when that is a quorum. */
module Durability {
  import opened Types
  import opened Ordering
  import opened ClusterRuns
  import opened LogAgreement
  import opened CommitRule
  import C = ClusterModel
  import P = PipelineModel

  /** Steps that neither change the membership nor replace a log. */
  predicate Fixed(step: Step) {
    step.Start? || step.Stop? || step.SetHealthy? || step.SetLease? || step.Campaign? || step.Transfer? || step.Propose?
  }

  predicate AllFixed(steps: seq<Step>) {
    forall i :: 0 <= i < |steps| ==> Fixed(steps[i])
  }

  /** The nodes with the entry in their log. */
  function Holders(s: C.Cluster, e: LogEntry): set<NodeId> {
    set id | id in s.nodes && e in s.nodes[id].log
  }

  /** The healthy nodes that store entries. */
  function LiveServers(s: C.Cluster): set<NodeId> {
    set id | id in s.nodes && s.nodes[id].healthy && s.nodes[id].replicaRole.CanServeData()
  }

  function LiveVoters(s: C.Cluster): set<NodeId> {
    set id | id in s.nodes && s.nodes[id].healthy && s.nodes[id].replicaRole.Voter?
  }

  /** The quorum participants with the entry in their log. */
  function HoldingParticipants(s: C.Cluster, e: LogEntry): set<NodeId> {
    set id | id in s.nodes && e in s.nodes[id].log && s.nodes[id].replicaRole.ParticipatesInQuorum()
  }

  ghost predicate VotersOnly(s: C.Cluster) {
    forall id :: id in s.nodes ==> s.nodes[id].replicaRole.Voter?
  }

  // ----- A successful proposal -----

  /** The same nodes in the same roles. */
  ghost predicate SameMembers(s: C.Cluster, t: C.Cluster) {
    t.nodes.Keys == s.nodes.Keys && forall id :: id in s.nodes ==> t.nodes[id].replicaRole == s.nodes[id].replicaRole
  }

  lemma SameMembersSameQuorum(s: C.Cluster, t: C.Cluster)
    requires SameMembers(s, t)
    ensures C.QuorumSize(t) == C.QuorumSize(s)
  {
    assert (set id | id in s.nodes && s.nodes[id].replicaRole.ParticipatesInQuorum())
           == (set id | id in t.nodes && t.nodes[id].replicaRole.ParticipatesInQuorum());
  }

  lemma ReceiversAreLiveServers(s: C.Cluster, payload: Payload, id: NodeId)
    requires Shape(s) && C.CanPropose(s, payload) && id in s.nodes
    ensures Receives(s.nodes[id], s.leaderId.value) <==> id in LiveServers(s)
  {
  }

  /** What replication without a refusal does to one node. */
  ghost predicate Appended(s: C.Cluster, t: C.Cluster, e: LogEntry, id: NodeId)
    requires id in s.nodes && id in t.nodes
  {
    t.nodes[id] == if id in LiveServers(s) then WithEntry(s.nodes[id], e) else s.nodes[id]
  }

  lemma ReplicatedAppendsAt(s: C.Cluster, payload: Payload, id: NodeId)
    requires Agrees(s) && C.CanPropose(s, payload) && C.Replicated(s, payload).1 && id in s.nodes
    ensures var t := C.Replicated(s, payload).0;
            id in t.nodes && Appended(s, t, C.ProposedEntry(s, payload), id)
  {
    ReplicatedNodes(s, payload);
    ReceiversAreLiveServers(s, payload, id);
    hide C.Replicated, C.ProposedEntry, C.CanPropose, Receives, LiveServers, WithEntry, Shape, Bounded, Coherent;
  }

  lemma ReplicatedAppends(s: C.Cluster, payload: Payload)
    requires Agrees(s) && C.CanPropose(s, payload) && C.Replicated(s, payload).1
    ensures var t := C.Replicated(s, payload).0;
            && SameMembers(s, t) && t.commitIndex == s.commitIndex
            && forall id :: id in s.nodes ==> Appended(s, t, C.ProposedEntry(s, payload), id)
  {
    ReplicatedExtends(s, payload);
    ReplicatedSameCommits(s, payload);
    hide C.Replicated, C.ProposedEntry, C.CanPropose, Agrees, Appended;
    forall id | id in s.nodes ensures Appended(s, C.Replicated(s, payload).0, C.ProposedEntry(s, payload), id) {
      ReplicatedAppendsAt(s, payload, id);
    }
  }

  lemma AppendedHolds(s: C.Cluster, t: C.Cluster, e: LogEntry, id: NodeId)
    requires Agrees(s) && id in s.nodes && id in t.nodes && Appended(s, t, e, id)
    requires e.logId == LogId(s.currentTerm, s.lastLogIndex + 1)
    ensures e in t.nodes[id].log <==> id in LiveServers(s)
    ensures C.MatchIndex(t.nodes[id]) >= e.logId.index <==> id in LiveServers(s)
    ensures t.nodes[id].healthy == s.nodes[id].healthy
  {
  }

  lemma LiveAtProposal(s: C.Cluster, payload: Payload)
    requires Agrees(s) && C.CanPropose(s, payload) && C.Replicated(s, payload).1
    ensures var t := C.Replicated(s, payload).0;
            LiveAt(t, s.lastLogIndex + 1) == LiveVoters(s) && C.LiveParticipants(t) == C.LiveParticipants(s)
  {
    ReplicatedAppends(s, payload);
    ProposedEntryIsNext(s, payload);
    hide *;
    LiveSetsAfter(s, C.Replicated(s, payload).0, C.ProposedEntry(s, payload));
  }

  lemma LiveSetsAfter(s: C.Cluster, t: C.Cluster, e: LogEntry)
    requires Agrees(s) && SameMembers(s, t) && forall id :: id in s.nodes ==> Appended(s, t, e, id)
    requires e.logId == LogId(s.currentTerm, s.lastLogIndex + 1)
    ensures LiveAt(t, s.lastLogIndex + 1) == LiveVoters(s) && C.LiveParticipants(t) == C.LiveParticipants(s)
  {
    hide Agrees, Appended, C.MatchIndex;
    forall id | id in s.nodes
      ensures id in LiveAt(t, e.logId.index) <==> id in LiveVoters(s)
      ensures id in C.LiveParticipants(t) <==> id in C.LiveParticipants(s)
    {
      AppendedHolds(s, t, e, id);
    }
  }

  /** The entry is committed at once exactly when its index already was, or the live voters
      are as many as the commit rule asks for. */
  lemma CommittedAtOnce(s: C.Cluster, payload: Payload)
    requires Agrees(s) && CommitIsMax(s) && C.Propose(s, payload).1.Ok?
    ensures C.Propose(s, payload).0.commitIndex >= s.lastLogIndex + 1
            <==> s.commitIndex >= s.lastLogIndex + 1
                 || |LiveVoters(s)| >= Min(C.QuorumSize(s), |C.LiveParticipants(s)|)
  {
    var t := C.Replicated(s, payload).0;
    var index := s.lastLogIndex + 1;
    ReplicatedAppends(s, payload);
    ReplicatedSameCommits(s, payload);
    ReplicatedIsMax(s, payload);
    LiveAtProposal(s, payload);
    LeaderIsLive(s, payload);
    assert C.Propose(s, payload).0 == C.RefreshCommit(t);
    assert SameMembers(s, t) && t.commitIndex == s.commitIndex;
    assert Backed(t, index) <==> |LiveAt(t, index)| >= Min(C.QuorumSize(t), |C.LiveParticipants(t)|);
    hide *;
    SameMembersSameQuorum(s, t);
    RefreshedReaches(t, index);
  }

  lemma ReplicatedIsMax(s: C.Cluster, payload: Payload)
    requires Agrees(s) && CommitIsMax(s) && C.CanPropose(s, payload)
    ensures CommitIsMax(C.Replicated(s, payload).0)
  {
    ReplicatedSameCommits(s, payload);
    ReplicatedNodes(s, payload);
    hide C.Replicated, C.ProposedEntry, C.CanPropose, Agrees, Receives, WithEntry;
  }

  lemma LeaderIsLive(s: C.Cluster, payload: Payload)
    requires Shape(s) && C.CanPropose(s, payload)
    ensures s.leaderId.value in C.LiveParticipants(s) && s.leaderId.value in LiveServers(s)
  {
  }

  // ----- Fixed steps keep every entry where it is -----

  ghost predicate SameLogs(s: C.Cluster, t: C.Cluster) {
    SameMembers(s, t) && forall id :: id in s.nodes ==> t.nodes[id].log == s.nodes[id].log
  }

  lemma CampaignSameLogs(s: C.Cluster, id: NodeId, forced: bool)
    ensures SameLogs(s, C.Campaign(s, id, forced).0)
  {
  }

  lemma ControlSameLogs(s: C.Cluster, step: Step)
    requires Fixed(step) && !step.Propose?
    ensures SameLogs(s, Next(s, step))
  {
    hide C.Campaign, C.MatchIndex, C.FirstElectable;
    match step {
      case Start =>
        match C.FirstElectable(s.nodes, C.Keys(s)) {
          case None =>
          case Some(id) => CampaignSameLogs(s.(running := true), id, true);
        }
      case Campaign(id, forced) => CampaignSameLogs(s, id, forced);
      case Transfer(id) => CampaignSameLogs(s, id, true);
      case _ =>
    }
  }

  /** A proposal only adds its own entry, at the end of logs. */
  ghost predicate LogsExtended(s: C.Cluster, t: C.Cluster, e: LogEntry) {
    && SameMembers(s, t)
    && forall id :: id in s.nodes ==> t.nodes[id].log == s.nodes[id].log || t.nodes[id].log == s.nodes[id].log + [e]
  }

  lemma RefreshCommitSameLogs(s: C.Cluster)
    ensures SameLogs(s, C.RefreshCommit(s))
  {
    RefreshCommitKeeps(s);
    hide C.RefreshCommit;
  }

  lemma TouchedIsExtended(s: C.Cluster, t: C.Cluster, e: LogEntry)
    requires t.nodes.Keys == s.nodes.Keys
    requires forall id :: id in s.nodes ==> t.nodes[id] == s.nodes[id] || t.nodes[id] == WithEntry(s.nodes[id], e)
    ensures LogsExtended(s, t, e)
  {
  }

  lemma ReplicatedExtends(s: C.Cluster, payload: Payload)
    requires Agrees(s) && C.CanPropose(s, payload)
    ensures LogsExtended(s, C.Replicated(s, payload).0, C.ProposedEntry(s, payload))
  {
    assert Shape(s) && Bounded(s);
    hide *;
    ReplicatedNodes(s, payload);
    TouchedIsExtended(s, C.Replicated(s, payload).0, C.ProposedEntry(s, payload));
  }

  lemma ProposeExtends(s: C.Cluster, payload: Payload)
    requires Agrees(s)
    ensures LogsExtended(s, C.Propose(s, payload).0, C.ProposedEntry(s, payload))
  {
    hide C.Replicated, C.RefreshCommit, C.ProposedEntry, C.CanPropose, Agrees;
    if C.CanPropose(s, payload) {
      ReplicatedExtends(s, payload);
      RefreshCommitSameLogs(C.Replicated(s, payload).0);
    }
  }

  lemma ExtendedKeepsHolders(s: C.Cluster, t: C.Cluster, f: LogEntry, e: LogEntry)
    requires LogsExtended(s, t, f) && e != f
    ensures Holders(t, e) == Holders(s, e) && HoldingParticipants(t, e) == HoldingParticipants(s, e)
    ensures EntryOf(s, e) ==> EntryOf(t, e)
  {
  }

  lemma FixedStepKeepsHolders(s: C.Cluster, step: Step, e: LogEntry)
    requires Agrees(s) && Fixed(step) && EntryOf(s, e)
    ensures var t := Next(s, step);
            && SameMembers(s, t) && EntryOf(t, e)
            && Holders(t, e) == Holders(s, e) && HoldingParticipants(t, e) == HoldingParticipants(s, e)
  {
    var t := Next(s, step);
    EntriesAreBounded(s, e);
    if step.Propose? {
      ProposeExtends(s, step.payload);
      ProposedEntryIsNext(s, step.payload);
      hide C.Propose, C.ProposedEntry, Agrees, EntryOf, Holders, HoldingParticipants, SameMembers;
      ExtendedKeepsHolders(s, t, C.ProposedEntry(s, step.payload), e);
    } else {
      ControlSameLogs(s, step);
      hide Next, Agrees, EntryOf, Holders, HoldingParticipants, SameMembers;
      ExtendedKeepsHolders(s, t, LogEntry(LogId(0, e.logId.index + 1), []), e);
    }
  }

  lemma {:induction false} FixedRunKeepsHolders(s: C.Cluster, steps: seq<Step>, e: LogEntry)
    requires Agrees(s) && AllFixed(steps) && EntryOf(s, e)
    ensures var t := Run(s, steps);
            && SameMembers(s, t)
            && Holders(t, e) == Holders(s, e) && HoldingParticipants(t, e) == HoldingParticipants(s, e)
    decreases |steps|
  {
    if steps != [] {
      FixedStepKeepsHolders(s, steps[0], e);
      StepKeepsAgreement(s, steps[0]);
      hide Next, Holders, HoldingParticipants, EntryOf, Agrees;
      FixedRunKeepsHolders(Next(s, steps[0]), steps[1..], e);
    }
  }

  /** Every removal of the run leaves a node at the commit index. */
  ghost predicate CommitSafe(s: C.Cluster, steps: seq<Step>)
    decreases |steps|
  {
    steps == [] || (KeepsCommit(s, steps[0]) && CommitSafe(Next(s, steps[0]), steps[1..]))
  }

  /** The node is still there and committed no less. */
  ghost predicate KeptCommit(s: C.Cluster, t: C.Cluster, id: NodeId)
    requires id in s.nodes
  {
    id in t.nodes && t.nodes[id].commitIndex >= s.nodes[id].commitIndex
  }

  /** Main result: in a run whose removals each leave a node at the commit index, the commit
      index stays the greatest of the nodes and never goes down, nor does that of a node that
      is not removed. */
  lemma {:induction false} RunCommits(s: C.Cluster, steps: seq<Step>)
    requires Agrees(s) && CommitIsMax(s) && CommitSafe(s, steps)
    ensures var t := Run(s, steps); CommitIsMax(t) && t.commitIndex >= s.commitIndex
    ensures forall id :: id in s.nodes && (forall i :: 0 <= i < |steps| ==> steps[i] != Remove(id)) ==>
              KeptCommit(s, Run(s, steps), id)
    decreases |steps|
  {
    if steps != [] {
      StepCommits(s, steps[0]);
      StepKeepsAgreement(s, steps[0]);
      hide Next, Agrees, CommitIsMax, KeepsCommit;
      var next := Next(s, steps[0]);
      RunCommits(next, steps[1..]);
      forall id | id in s.nodes && (forall i :: 0 <= i < |steps| ==> steps[i] != Remove(id))
        ensures KeptCommit(s, Run(s, steps), id)
      {
        assert steps[0] != Remove(id) && forall i :: 0 <= i < |steps| - 1 ==> steps[1..][i] == steps[i + 1];
        assert KeptCommit(next, Run(next, steps[1..]), id);
      }
    }
  }

  lemma {:induction false} FixedIsCommitSafe(s: C.Cluster, steps: seq<Step>)
    requires AllFixed(steps)
    ensures CommitSafe(s, steps)
    decreases |steps|
  {
    if steps != [] {
      assert Fixed(steps[0]);
      hide Next;
      FixedIsCommitSafe(Next(s, steps[0]), steps[1..]);
    }
  }

  lemma AppendedMeansHeld(s: C.Cluster, r: C.Cluster, e: LogEntry, leader: NodeId)
    requires Agrees(s) && SameMembers(s, r) && leader in LiveServers(s)
    requires forall id :: id in s.nodes ==> Appended(s, r, e, id)
    requires e.logId == LogId(s.currentTerm, s.lastLogIndex + 1)
    ensures EntryOf(r, e) && Holders(r, e) == LiveServers(s) && HoldingParticipants(r, e) == LiveVoters(s)
  {
    hide Agrees, Appended;
    forall id | id in s.nodes ensures e in r.nodes[id].log <==> id in LiveServers(s) {
      AppendedHolds(s, r, e, id);
    }
    assert e in r.nodes[leader].log;
  }

  lemma HoldersAtProposal(s: C.Cluster, payload: Payload)
    requires Agrees(s) && C.CanPropose(s, payload) && C.Replicated(s, payload).1
    ensures var t := C.RefreshCommit(C.Replicated(s, payload).0);
            var e := C.ProposedEntry(s, payload);
            && EntryOf(t, e) && SameMembers(s, t)
            && Holders(t, e) == LiveServers(s) && HoldingParticipants(t, e) == LiveVoters(s)
  {
    var e := C.ProposedEntry(s, payload);
    var r := C.Replicated(s, payload).0;
    LeaderIsLive(s, payload);
    ReplicatedAppends(s, payload);
    ProposedEntryIsNext(s, payload);
    hide *;
    AppendedMeansHeld(s, r, e, s.leaderId.value);
    RefreshCommitSameLogs(r);
    SameLogsKeepHolders(s, r, C.RefreshCommit(r), e);
  }

  lemma SameLogsKeepHolders(s: C.Cluster, r: C.Cluster, t: C.Cluster, e: LogEntry)
    requires SameMembers(s, r) && SameLogs(r, t) && EntryOf(r, e)
    ensures EntryOf(t, e) && SameMembers(s, t)
    ensures Holders(t, e) == Holders(r, e) && HoldingParticipants(t, e) == HoldingParticipants(r, e)
  {
  }

  /** What is known about an entry proposed at s, returned by the proposal that led to p,
      at a later state t. */
  ghost predicate Stays(s: C.Cluster, p: C.Cluster, e: LogEntry, t: C.Cluster) {
    && SameMembers(s, t)
    && Holders(t, e) == LiveServers(s)
    && HoldingParticipants(t, e) == LiveVoters(s)
    && (s.commitIndex <= s.lastLogIndex ==>
          (p.commitIndex >= e.logId.index <==> |LiveVoters(s)| >= Min(C.QuorumSize(s), |C.LiveParticipants(s)|)))
    && t.commitIndex >= p.commitIndex
  }

  lemma SuccessfulProposal(s: C.Cluster, payload: Payload)
    requires C.Propose(s, payload).1.Ok?
    ensures C.CanPropose(s, payload) && C.Replicated(s, payload).1
    ensures C.Propose(s, payload) == (C.RefreshCommit(C.Replicated(s, payload).0), Ok(C.ProposedEntry(s, payload).logId))
    ensures C.ProposedEntry(s, payload).logId == LogId(s.currentTerm, s.lastLogIndex + 1)
  {
    hide C.CanPropose, C.Replicated, C.RefreshCommit;
  }

  lemma AfterProposal(s: C.Cluster, payload: Payload)
    requires Agrees(s) && CommitIsMax(s)
    ensures Agrees(C.Propose(s, payload).0) && CommitIsMax(C.Propose(s, payload).0)
  {
    NextPropose(s, payload);
    assert Shape(s) && Bounded(s);
    hide *;
    StepKeepsAgreement(s, Propose(payload));
    StepCommits(s, Propose(payload));
  }

  /** Main result: whatever fixed steps follow a proposal that returned a log id, exactly
      the nodes that were healthy and store entries at that moment hold the entry, so it is
      on a quorum of participants exactly when the voters healthy then are one; and it is
      committed, at once and for good, exactly when those voters satisfy the commit rule. */
  lemma AcknowledgedEntriesStay(s: C.Cluster, payload: Payload, steps: seq<Step>)
    requires Agrees(s) && CommitIsMax(s) && C.Propose(s, payload).1.Ok? && AllFixed(steps)
    ensures var (p, r) := C.Propose(s, payload);
            var e := C.ProposedEntry(s, payload);
            r == Ok(e.logId) && Stays(s, p, e, Run(p, steps))
  {
    var p := C.Propose(s, payload).0;
    var e := C.ProposedEntry(s, payload);
    SuccessfulProposal(s, payload);
    AfterProposal(s, payload);
    CommittedAtOnce(s, payload);
    FixedIsCommitSafe(p, steps);
    hide *;
    HoldersAtProposal(s, payload);
    FixedRunKeepsHolders(p, steps, e);
    RunCommits(p, steps);
    MembersCompose(s, p, Run(p, steps));
    StaysIf(s, p, e, Run(p, steps));
  }

  lemma MembersCompose(s: C.Cluster, p: C.Cluster, t: C.Cluster)
    requires SameMembers(s, p) && SameMembers(p, t)
    ensures SameMembers(s, t)
  {
  }

  lemma StaysIf(s: C.Cluster, p: C.Cluster, e: LogEntry, t: C.Cluster)
    requires SameMembers(s, t) && Holders(t, e) == LiveServers(s) && HoldingParticipants(t, e) == LiveVoters(s)
    requires e.logId.index == s.lastLogIndex + 1
    requires p.commitIndex >= s.lastLogIndex + 1
             <==> s.commitIndex >= s.lastLogIndex + 1
                  || |LiveVoters(s)| >= Min(C.QuorumSize(s), |C.LiveParticipants(s)|)
    requires t.commitIndex >= p.commitIndex
    ensures Stays(s, p, e, t)
  {
  }

  /** On a cluster of voters alone an acknowledged entry is committed at once, whoever is
      alive, and it is on a majority from then on exactly when a quorum was live. */
  lemma QuorumDurability(s: C.Cluster, payload: Payload, steps: seq<Step>)
    requires Agrees(s) && CommitIsMax(s) && VotersOnly(s) && s.commitIndex <= s.lastLogIndex
    requires C.Propose(s, payload).1.Ok? && AllFixed(steps)
    ensures var p := C.Propose(s, payload).0;
            var e := C.ProposedEntry(s, payload);
            var t := Run(p, steps);
            && e.logId.index <= p.commitIndex <= t.commitIndex
            && (C.HasLiveQuorum(s) <==> |Holders(t, e)| >= |t.nodes.Keys| / 2 + 1)
  {
    AcknowledgedEntriesStay(s, payload, steps);
    hide Run, C.Propose, C.ProposedEntry, Agrees, CommitIsMax;
    VotersOnlyStay(s, C.Propose(s, payload).0, C.ProposedEntry(s, payload), Run(C.Propose(s, payload).0, steps));
  }

  lemma VotersOnlyStay(s: C.Cluster, p: C.Cluster, e: LogEntry, t: C.Cluster)
    requires VotersOnly(s) && s.commitIndex <= s.lastLogIndex && Stays(s, p, e, t)
    ensures e.logId.index <= p.commitIndex <= t.commitIndex
    ensures C.HasLiveQuorum(s) <==> |Holders(t, e)| >= |t.nodes.Keys| / 2 + 1
  {
    assert LiveVoters(s) == C.LiveParticipants(s) == LiveServers(s);
    assert s.nodes.Keys == (set id | id in s.nodes && s.nodes[id].replicaRole.ParticipatesInQuorum());
  }
}
