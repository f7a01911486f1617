/** The cluster theorems for clusters as they are really built: from a new cluster on. */
module ClusterTheorems {
  import opened Types
  import opened ClusterRuns
  import opened LogAgreement
  import opened CommitRule
  import opened Durability
  import opened CrashRecovery
  import C = ClusterModel
  import P = PipelineModel

  ghost predicate Invariant(s: C.Cluster) {
    Agrees(s) && CommitIsMax(s) && AllSafe(s)
  }

  lemma NewHoldsInvariant(groupId: GroupId, config: C.Config, peers: seq<C.Peer>)
    requires C.New(groupId, config, peers).Ok?
    ensures Invariant(C.New(groupId, config, peers).value)
  {
    NewAgrees(groupId, config, peers);
    hide P.New;
    var s := C.New(groupId, config, peers).value;
    forall id | id in s.nodes ensures NodeSafe(s.nodes[id]) && s.nodes[id].commitIndex == 0 {
      NewNodesAreNew(peers, id);
    }
  }

  /** Every step of the run passes its guards. */
  ghost predicate Careful(s: C.Cluster, steps: seq<Step>)
    decreases |steps|
  {
    steps == [] || (Guarded(s, steps[0]) && KeepsCommit(s, steps[0]) && Careful(Next(s, steps[0]), steps[1..]))
  }

  lemma {:induction false} CarefulRunsKeepInvariant(s: C.Cluster, steps: seq<Step>)
    requires Invariant(s) && Careful(s, steps)
    ensures Invariant(Run(s, steps)) && Run(s, steps).commitIndex >= s.commitIndex
    decreases |steps|
  {
    if steps != [] {
      StepKeepsAgreement(s, steps[0]);
      StepCommits(s, steps[0]);
      StepIsSafe(s, steps[0]);
      hide Next, Agrees, CommitIsMax, Guarded, KeepsCommit;
      CarefulRunsKeepInvariant(Next(s, steps[0]), steps[1..]);
    }
  }

  lemma {:induction false} FixedIsCareful(s: C.Cluster, steps: seq<Step>)
    requires AllFixed(steps)
    ensures Careful(s, steps)
    decreases |steps|
  {
    if steps != [] {
      hide Next;
      FixedIsCareful(Next(s, steps[0]), steps[1..]);
    }
  }

  lemma FixedStepKeepsMembers(s: C.Cluster, step: Step)
    requires Agrees(s) && Fixed(step)
    ensures SameMembers(s, Next(s, step))
  {
    if step.Propose? {
      ProposeExtends(s, step.payload);
      NextPropose(s, step.payload);
      hide C.Propose, C.ProposedEntry, Next;
    } else {
      ControlSameLogs(s, step);
    }
    hide Next;
  }

  lemma {:induction false} FixedRunKeepsMembers(s: C.Cluster, steps: seq<Step>)
    requires Agrees(s) && AllFixed(steps)
    ensures SameMembers(s, Run(s, steps))
    decreases |steps|
  {
    if steps != [] {
      FixedStepKeepsMembers(s, steps[0]);
      StepKeepsAgreement(s, steps[0]);
      hide Next, Agrees;
      FixedRunKeepsMembers(Next(s, steps[0]), steps[1..]);
    }
  }

  lemma NewVotersOnly(groupId: GroupId, config: C.Config, peers: seq<C.Peer>)
    requires C.New(groupId, config, peers).Ok? && forall i :: 0 <= i < |peers| ==> peers[i].role.Voter?
    ensures VotersOnly(C.New(groupId, config, peers).value)
  {
    hide P.New;
    forall id | id in C.NewNodes(peers) ensures C.NewNodes(peers)[id].replicaRole.Voter? {
      NewVoter(peers, id);
    }
  }

  lemma {:induction false} NewVoter(peers: seq<C.Peer>, id: NodeId)
    requires id in C.NewNodes(peers) && forall i :: 0 <= i < |peers| ==> peers[i].role.Voter?
    ensures C.NewNodes(peers)[id].replicaRole.Voter?
  {
    var p, rest := peers[|peers| - 1], C.NewNodes(peers[..|peers| - 1]);
    assert C.NewNodes(peers) == rest[p.nodeId := C.NewNode(p.nodeId, p.role)];
    if id != p.nodeId {
      NewVoter(peers[..|peers| - 1], id);
    }
  }

  /** Main result on durability: build a cluster of voters, take any fixed steps, propose with
      success, take any more fixed steps. The entry was committed at once; it is now on a
      majority of the nodes exactly when a quorum was live at the proposal; and if so it is
      still committed. */
  lemma AcknowledgedEntriesAreDurable(groupId: GroupId, config: C.Config, peers: seq<C.Peer>,
                                      before: seq<Step>, payload: Payload, after: seq<Step>)
    requires C.New(groupId, config, peers).Ok? && forall i :: 0 <= i < |peers| ==> peers[i].role.Voter?
    requires AllFixed(before) && AllFixed(after)
    requires C.Propose(Run(C.New(groupId, config, peers).value, before), payload).1.Ok?
    ensures var s := Run(C.New(groupId, config, peers).value, before);
            var p := C.Propose(s, payload).0;
            DurableExactly(s, p, C.ProposedEntry(s, payload), Run(p, after))
  {
    var start := C.New(groupId, config, peers).value;
    NewHoldsInvariant(groupId, config, peers);
    NewVotersOnly(groupId, config, peers);
    hide C.New, C.Propose, C.ProposedEntry, Run;
    FixedIsCareful(start, before);
    CarefulRunsKeepInvariant(start, before);
    var s := Run(start, before);
    FixedRunKeepsMembers(start, before);
    assert VotersOnly(s);
    hide VotersOnly, SameMembers;
    CommitBelowLog(s);
    hide Agrees, CommitIsMax, AllSafe;
    QuorumDurability(s, payload, after);
  }

  /** The entry was committed when proposed, is committed now, and is on a majority of the
      nodes exactly when a quorum was live at its proposal. */
  ghost predicate DurableExactly(s: C.Cluster, p: C.Cluster, e: LogEntry, t: C.Cluster) {
    && e.logId.index <= p.commitIndex <= t.commitIndex
    && (C.HasLiveQuorum(s) <==> |Holders(t, e)| >= |t.nodes.Keys| / 2 + 1)
  }

  lemma CommitBelowLog(s: C.Cluster)
    requires Invariant(s)
    ensures s.commitIndex <= s.lastLogIndex
  {
  }
}
