/** Log agreement over every run from a new cluster: one common set of entries, each from
    a proposal, and one proposer per term. */
module LogAgreement {
  import opened Types
  import opened Ordering
  import opened ClusterRuns
  import C = ClusterModel
  import P = PipelineModel

  lemma {:induction false} NewNodesAreNew(peers: seq<C.Peer>, id: NodeId)
    requires id in C.NewNodes(peers)
    ensures var n := C.NewNodes(peers)[id]; n == C.NewNode(id, n.replicaRole)
  {
    var p, rest := peers[|peers| - 1], C.NewNodes(peers[..|peers| - 1]);
    assert C.NewNodes(peers) == rest[p.nodeId := C.NewNode(p.nodeId, p.role)];
    if id != p.nodeId {
      NewNodesAreNew(peers[..|peers| - 1], id);
    }
  }

  lemma NewAgrees(groupId: GroupId, config: C.Config, peers: seq<C.Peer>)
    requires C.New(groupId, config, peers).Ok?
    ensures Agrees(C.New(groupId, config, peers).value)
  {
    hide P.New;
    var s := C.New(groupId, config, peers).value;
    forall id | id in s.nodes ensures NodeShape(s.nodes[id], id, s.leaderId, 0) && s.nodes[id].log == [] && C.MatchIndex(s.nodes[id]) == 0 {
      NewNodesAreNew(peers, id);
    }
    assert forall e :: !EntryOf(s, e);
  }

  lemma StepKeepsAgreement(s: C.Cluster, step: Step)
    requires Agrees(s)
    ensures Agrees(Next(s, step))
  {
    StepKeepsShape(s, step);
    var t := Next(s, step);
    hide Next, Shape, EntryOf, Bounded;
    forall e, f | EntryOf(t, e) && EntryOf(t, f) ensures Compatible(e, f) {
      if EntryOf(s, e) {
        EntriesAreBounded(s, e);
      }
      if EntryOf(s, f) {
        EntriesAreBounded(s, f);
      }
    }
  }

  lemma {:induction false} RunKeepsAgreement(s: C.Cluster, steps: seq<Step>)
    requires Agrees(s)
    ensures Agrees(Run(s, steps))
    decreases |steps|
  {
    if steps != [] {
      StepKeepsAgreement(s, steps[0]);
      RunKeepsAgreement(Next(s, steps[0]), steps[1..]);
    }
  }

  /** The logs of two nodes agree wherever both hold an index, and each is ordered. */
  ghost predicate LogsAgree(a: seq<LogEntry>, b: seq<LogEntry>) {
    && (forall i, j :: 0 <= i < |a| && 0 <= j < |b| && a[i].logId.index == b[j].logId.index ==> a[i] == b[j])
    && (forall i, j :: 0 <= i < j < |a| ==> a[i].logId.index < a[j].logId.index && a[i].logId.term <= a[j].logId.term)
  }

  lemma AgreementOfLogs(s: C.Cluster, a: NodeId, b: NodeId)
    requires Agrees(s) && a in s.nodes && b in s.nodes
    ensures LogsAgree(s.nodes[a].log, s.nodes[b].log)
  {
    var la, lb := s.nodes[a].log, s.nodes[b].log;
    assert NodeShape(s.nodes[a], a, s.leaderId, s.currentTerm);
    forall i, j | 0 <= i < |la| && 0 <= j < |lb| ensures Compatible(la[i], lb[j]) {
      assert la[i] in la && lb[j] in lb;
      assert EntryOf(s, la[i]) && EntryOf(s, lb[j]);
    }
    forall i, j | 0 <= i < |la| && 0 <= j < |la| ensures Compatible(la[i], la[j]) {
      assert la[i] in la && la[j] in la;
      assert EntryOf(s, la[i]) && EntryOf(s, la[j]);
    }
  }

  // ----- One proposer per term -----

  /** A proposed entry and the leader that proposed it, whether or not it succeeded. */
  datatype Proposal = Proposal(leader: NodeId, entry: LogEntry)

  function Proposals(s: C.Cluster, steps: seq<Step>): seq<Proposal>
    decreases |steps|
  {
    if steps == [] then [] else Proposed(s, steps[0]) + Proposals(Next(s, steps[0]), steps[1..])
  }

  function Proposed(s: C.Cluster, step: Step): seq<Proposal> {
    if step.Propose? && C.CanPropose(s, step.payload)
    then [Proposal(s.leaderId.value, C.ProposedEntry(s, step.payload))] else []
  }

  /** The proposals of a run, one step unfolded: at most one, by the leader of that moment. */
  lemma FirstProposal(s: C.Cluster, steps: seq<Step>)
    requires steps != []
    ensures var first := Proposed(s, steps[0]);
            && Proposals(s, steps) == first + Proposals(Next(s, steps[0]), steps[1..])
            && (first == [] || (|first| == 1 && s.leaderId == Some(first[0].leader) && Proposes(s, steps[0], first[0].entry)
                                && first[0].entry.logId.term == s.currentTerm))
            && (first == [] ==> forall e :: !Proposes(s, steps[0], e))
  {
  }

  /** A leader keeps its term until it is removed or another one is elected. */
  lemma LeaderKeepsTerm(s: C.Cluster, step: Step)
    ensures var t := Next(s, step);
            && t.currentTerm >= s.currentTerm
            && (t.currentTerm == s.currentTerm ==> t.leaderId == s.leaderId || t.leaderId.None?)
  {
    hide C.Keys, C.MaxCommit, C.MaxMatch, C.MinApplied, C.QuorumIndex, C.AdvanceAll, C.Acknowledge;
    hide C.MatchIndex, C.FirstElectable, C.Replicated, C.CanPropose, P.New, C.CopyFromLeader, C.RecordInstall, C.SnapshotAcceptable;
    if step.Propose? && C.CanPropose(s, step.payload) {
      ReplicatedKeepsTerm(s, step.payload);
    }
  }

  lemma ReplicatedKeepsTerm(s: C.Cluster, payload: Payload)
    requires C.CanPropose(s, payload)
    ensures var t := C.Replicated(s, payload).0; t.currentTerm == s.currentTerm && t.leaderId == s.leaderId
  {
  }

  /** Proposals of the current term come from the current leader, later ones from later terms. */
  lemma {:induction false} ProposalsFollowTerms(s: C.Cluster, steps: seq<Step>)
    ensures forall i :: 0 <= i < |Proposals(s, steps)| ==>
              var p := Proposals(s, steps)[i];
              && p.entry.logId.term >= s.currentTerm
              && (p.entry.logId.term == s.currentTerm ==> s.leaderId == Some(p.leader))
    decreases |steps|
  {
    if steps != [] {
      LeaderKeepsTerm(s, steps[0]);
      ProposalsFollowTerms(Next(s, steps[0]), steps[1..]);
      FirstProposal(s, steps);
      hide Next, Proposals, Proposed, Proposes;
    }
  }

  ghost predicate InTermOrder(ps: seq<Proposal>) {
    forall i, j :: 0 <= i < j < |ps| ==>
      && ps[i].entry.logId.term <= ps[j].entry.logId.term
      && (ps[i].entry.logId.term == ps[j].entry.logId.term ==> ps[i].leader == ps[j].leader)
  }

  lemma {:induction false} OneProposerPerTerm(s: C.Cluster, steps: seq<Step>)
    ensures InTermOrder(Proposals(s, steps))
    decreases |steps|
  {
    if steps != [] {
      var t := Next(s, steps[0]);
      OneProposerPerTerm(t, steps[1..]);
      ProposalsFollowTerms(t, steps[1..]);
      LeaderKeepsTerm(s, steps[0]);
      FirstProposal(s, steps);
      hide Next, Proposals, Proposed, Proposes;
    }
  }

  /** Whatever a node holds after a run it held before, or a proposal of the run made it. */
  lemma {:induction false} EntriesAreProposed(s: C.Cluster, steps: seq<Step>, e: LogEntry)
    requires Agrees(s) && EntryOf(Run(s, steps), e)
    ensures EntryOf(s, e) || exists p :: p in Proposals(s, steps) && p.entry == e
    decreases |steps|
  {
    if steps != [] {
      var t := Next(s, steps[0]);
      StepKeepsAgreement(s, steps[0]);
      EntriesAreProposed(t, steps[1..], e);
      StepKeepsShape(s, steps[0]);
      FirstProposal(s, steps);
      hide Next, Proposals, Proposed, Proposes, EntryOf, Shape, Bounded, Coherent;
      if Proposes(s, steps[0], e) {
        assert Proposed(s, steps[0])[0] in Proposals(s, steps);
        SameProposal(s, steps[0], e, Proposed(s, steps[0])[0].entry);
      }
    }
  }

  lemma SameProposal(s: C.Cluster, step: Step, e: LogEntry, f: LogEntry)
    requires Proposes(s, step, e) && Proposes(s, step, f)
    ensures e == f
  {
  }

  /** Main result: after any run from a new cluster, any two nodes agree wherever they both
      hold an index, logs are ordered by index and term with terms up to the current one,
      every entry was proposed in the run, entries of one term by one leader, and no node
      but the leader has the leader role. */
  lemma LogAgreement(groupId: GroupId, config: C.Config, peers: seq<C.Peer>, steps: seq<Step>)
    requires C.New(groupId, config, peers).Ok?
    ensures var s := C.New(groupId, config, peers).value;
            var t := Run(s, steps);
            && (forall a, b :: a in t.nodes && b in t.nodes ==> LogsAgree(t.nodes[a].log, t.nodes[b].log))
            && (forall a, e :: a in t.nodes && e in t.nodes[a].log ==>
                  e.logId.term <= t.currentTerm
                  && exists p :: p in Proposals(s, steps) && p.entry == e)
            && InTermOrder(Proposals(s, steps))
            && (forall a :: a in t.nodes && t.nodes[a].raftRole == LeaderRole ==> t.leaderId == Some(a))
  {
    var s := C.New(groupId, config, peers).value;
    var t := Run(s, steps);
    NewAgrees(groupId, config, peers);
    RunKeepsAgreement(s, steps);
    OneProposerPerTerm(s, steps);
    NewHasNoEntries(groupId, config, peers);
    hide C.New, Run, Proposals, Next;
    forall a, b | a in t.nodes && b in t.nodes ensures LogsAgree(t.nodes[a].log, t.nodes[b].log) {
      AgreementOfLogs(t, a, b);
    }
    forall a, e | a in t.nodes && e in t.nodes[a].log
      ensures e.logId.term <= t.currentTerm
      ensures exists p :: p in Proposals(s, steps) && p.entry == e
    {
      assert EntryOf(t, e);
      EntriesAreProposed(s, steps, e);
    }
    forall a | a in t.nodes && t.nodes[a].raftRole == LeaderRole ensures t.leaderId == Some(a) {
      assert NodeShape(t.nodes[a], a, t.leaderId, t.currentTerm);
    }
  }

  lemma NewHasNoEntries(groupId: GroupId, config: C.Config, peers: seq<C.Peer>)
    requires C.New(groupId, config, peers).Ok?
    ensures forall e :: !EntryOf(C.New(groupId, config, peers).value, e)
  {
    hide P.New;
    var s := C.New(groupId, config, peers).value;
    forall id | id in s.nodes ensures s.nodes[id].log == [] {
      NewNodesAreNew(peers, id);
    }
  }
}
