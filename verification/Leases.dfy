/** Health, the running flag and the leader lease: what sets them, what they allow, and how long
    a lease is held over a run. */
module Leases {
  import opened Types
  import opened ClusterRuns
  import opened LogAgreement
  import opened Elections
  import CommitRule
  import C = ClusterModel

  // ----- Health -----

  /** Whether a node is healthy is what the step says, for that node alone. */
  lemma SetHealthyIsExact(s: C.Cluster, id: NodeId, healthy: bool)
    ensures var (t, r) := C.SetHealthy(s, id, healthy);
            && (r.Ok? <==> id in s.nodes) && (r.Err? ==> t == s && r == Err(NodeNotFound(id)))
            && (r.Ok? ==>
                  && id in t.nodes && t.nodes == s.nodes[id := t.nodes[id]]
                  && t.nodes[id].healthy == healthy && t.nodes[id] == s.nodes[id].(healthy := t.nodes[id].healthy)
                  && t == s.(nodes := t.nodes, leaseValid := t.leaseValid))
  {
  }

  // ----- The lease -----

  predicate LosesLease(s: C.Cluster, step: Step) {
    match step
    case Stop => true
    case SetLease(valid) => !valid
    case SetHealthy(id, healthy) => s.leaderId == Some(id) && !healthy
    case Remove(id) => s.leaderId == Some(id)
    case _ => false
  }

  /** The step elects a leader, or sets the lease outright. */
  predicate GainsLease(s: C.Cluster, step: Step) {
    match step
    case SetLease(valid) => valid
    case Campaign(id, forced) => (s.running || forced) && Electable(s, id)
    case Transfer(id) => Electable(s, id) && C.MatchIndex(s.nodes[id]) >= s.commitIndex
    case Start => s.leaderId.None? && AnyElectable(s)
    case _ => false
  }

  predicate AnyElectable(s: C.Cluster) {
    exists id :: id in s.nodes && Electable(s, id)
  }

  lemma ElectionLease(s: C.Cluster, step: Step)
    requires Shape(s) && (step.Start? || step.Campaign? || step.Transfer?)
    ensures Next(s, step).leaseValid <==> GainsLease(s, step) || s.leaseValid
  {
    assert Elections.OwnIds(s) by {
      forall k | k in s.nodes ensures s.nodes[k].id == k {
        assert NodeShape(s.nodes[k], k, s.leaderId, s.currentTerm);
      }
    }
    hide C.Campaign, C.TransferLeader, C.Start, C.MatchIndex, Shape, Elections.OwnIds;
    match step {
      case Campaign(id, forced) => CampaignElectsExactly(s, id, forced);
      case Transfer(id) => TransferElectsExactly(s, id);
      case Start =>
        StartElectsLeast(s);
        if k :| Electable(s, k) {
          assert AnyElectable(s);
        }
      case _ =>
    }
  }

  lemma ProposeKeepsLease(s: C.Cluster, payload: Payload)
    ensures C.Propose(s, payload).0.leaseValid == s.leaseValid
  {
    if C.CanPropose(s, payload) {
      RefreshCommitKeeps(C.Replicated(s, payload).0);
    }
    hide C.RefreshCommit, C.ReplicateAll, C.CanPropose;
  }

  /** Main result: a step leaves the lease held exactly when it elects a leader or sets it, or
      when it was held and the step is none of those that lose it: a stop, and the leader going
      down or away. */
  lemma LeaseIsExact(s: C.Cluster, step: Step)
    requires Shape(s)
    ensures Next(s, step).leaseValid <==> GainsLease(s, step) || (s.leaseValid && !LosesLease(s, step))
  {
    if step.Start? || step.Campaign? || step.Transfer? {
      ElectionLease(s, step);
      hide Next, GainsLease;
    } else {
      LeaderIsKnown(s);
      if step.Propose? {
        ProposeKeepsLease(s, step.payload);
      } else if step.AddPeer? && step.peer.nodeId !in s.nodes {
        RefreshPipelinesKeeps(C.WithPeer(s, step.peer));
      } else if step.Remove? && step.id in s.nodes {
        RefreshPipelinesKeeps(C.WithoutPeer(s, step.id));
      }
      hide C.Propose, C.RefreshPipelines, Shape, C.MatchIndex, C.CopyFromLeader, C.Acknowledge, C.MaxCommit, C.MaxMatch;
      hide C.MinApplied, C.Keys, C.RecordInstall, C.EntriesAbove;
    }
  }

  lemma LeaderIsKnown(s: C.Cluster)
    requires Shape(s)
    ensures s.leaderId.Some? ==> s.leaderId.value in s.nodes
  {
  }

  /** The lease was gained at some point of the run, or held before it, and not lost since. */
  ghost predicate HeldSince(s: C.Cluster, steps: seq<Step>, k: nat) {
    && k <= |steps|
    && (if k == 0 then s.leaseValid else GainsLease(Run(s, steps[..k - 1]), steps[k - 1]))
    && forall i :: k <= i < |steps| ==> KeepsLease(s, steps, i)
  }

  ghost predicate KeepsLease(s: C.Cluster, steps: seq<Step>, i: nat)
    requires i < |steps|
  {
    !LosesLease(Run(s, steps[..i]), steps[i])
  }

  lemma {:induction false} RunSnoc(s: C.Cluster, steps: seq<Step>, step: Step)
    ensures Run(s, steps + [step]) == Next(Run(s, steps), step)
    decreases |steps|
  {
    if steps == [] {
      assert [] + [step] == [step];
      assert Run(Next(s, step), []) == Next(s, step);
    } else {
      assert (steps + [step])[1..] == steps[1..] + [step];
      RunSnoc(Next(s, steps[0]), steps[1..], step);
    }
  }

  lemma HeldLonger(s: C.Cluster, steps: seq<Step>, step: Step, k: nat)
    requires k <= |steps|
    ensures HeldSince(s, steps + [step], k) <==> HeldSince(s, steps, k) && !LosesLease(Run(s, steps), step)
  {
    var longer := steps + [step];
    assert forall i :: 0 <= i <= |steps| ==> longer[..i] == steps[..i];
    assert steps[..|steps|] == steps;
    assert KeepsLease(s, longer, |steps|) <==> !LosesLease(Run(s, steps), step);
    assert forall i :: 0 <= i < |steps| ==> (KeepsLease(s, longer, i) <==> KeepsLease(s, steps, i));
    hide Run, LosesLease, GainsLease, KeepsLease;
  }

  /** Main result: after any run the lease is held exactly when some point of it gained the lease,
      and nothing after that point lost it. */
  lemma {:induction false} LeaseHeldExactly(s: C.Cluster, steps: seq<Step>)
    requires Agrees(s)
    ensures Run(s, steps).leaseValid <==> exists k: nat :: HeldSince(s, steps, k)
    decreases |steps|
  {
    if steps == [] {
      assert HeldSince(s, steps, 0) <==> s.leaseValid;
    } else {
      var n := |steps| - 1;
      var front, step := steps[..n], steps[n];
      assert steps == front + [step];
      LeaseHeldExactly(s, front);
      RunSnoc(s, front, step);
      RunKeepsAgreement(s, front);
      LeaseIsExact(Run(s, front), step);
      assert HeldSince(s, steps, n + 1) <==> GainsLease(Run(s, front), step);
      hide *;
      forall k: nat | k <= n ensures HeldSince(s, steps, k) <==> HeldSince(s, front, k) && !LosesLease(Run(s, front), step) {
        HeldLonger(s, front, step, k);
      }
      LeaseSplits(s, front, step, steps);
    }
  }

  lemma LeaseSplits(s: C.Cluster, front: seq<Step>, step: Step, steps: seq<Step>)
    requires steps == front + [step]
    requires forall k: nat :: k <= |front| ==>
               (HeldSince(s, steps, k) <==> HeldSince(s, front, k) && !LosesLease(Run(s, front), step))
    requires HeldSince(s, steps, |steps|) <==> GainsLease(Run(s, front), step)
    requires Run(s, front).leaseValid <==> exists k: nat :: HeldSince(s, front, k)
    requires Run(s, steps).leaseValid <==>
               GainsLease(Run(s, front), step) || (Run(s, front).leaseValid && !LosesLease(Run(s, front), step))
    ensures Run(s, steps).leaseValid <==> exists k: nat :: HeldSince(s, steps, k)
  {
    hide Run, LosesLease, GainsLease;
    assert forall k: nat :: HeldSince(s, steps, k) ==> k <= |steps|;
    assert forall k: nat :: HeldSince(s, front, k) ==> k <= |front|;
    hide HeldSince;
  }

  /** A read is refused for an unknown group or requester; otherwise it is safe exactly for a
      healthy requester that applied far enough, under a live quorum, and rests on the lease
      exactly when it is safe, asked to, allowed to and made by the leader that holds it. */
  lemma ReadIsExact(s: C.Cluster, r: C.ReadRequest)
    ensures var answer := C.ReadIndex(s, r);
            && (answer.Ok? <==> r.groupId == s.groupId && r.requesterId in s.nodes)
            && (answer.Ok? ==>
                  var n := s.nodes[r.requesterId];
                  && (answer.value.safe <==> n.healthy && C.HasLiveQuorum(s) && n.appliedIndex >= r.minCommitIndex)
                  && answer.value.readIndex == n.commitIndex
                  && (answer.value.leaseRead <==>
                        answer.value.safe && r.allowLease && s.config.enableLeaseRead
                        && s.leaderId == Some(r.requesterId) && s.leaseValid))
            && (r.groupId == s.groupId && r.requesterId !in s.nodes ==> answer == Err(NodeNotFound(r.requesterId)))
  {
  }

  /** A report on the read path asks more of a safe read, and only a safe one may rest on the
      lease. */
  lemma ReadReportIsExact(s: C.Cluster, r: C.ReadRequest, maxLag: LogIndex)
    ensures var (answer, report) := (C.ReadIndex(s, r), C.ReadPathReport(s, r, maxLag));
            && (answer.Err? ==> report == answer)
            && (answer.Ok? ==>
                  && report.Ok? && report.value.readIndex == answer.value.readIndex
                  && (report.value.safe ==> answer.value.safe)
                  && (report.value.leaseRead <==> report.value.safe && answer.value.leaseRead))
  {
    hide C.HasLiveQuorum, C.ReadQuorumReached;
  }

  // ----- A stopped cluster -----

  /** A stop changes the flags alone; from then on, until a start, no proposal and no unforced
      campaign succeeds or changes anything, whatever else happens. */
  lemma StopIsExact(s: C.Cluster, steps: seq<Step>, id: NodeId, payload: Payload)
    requires forall i :: 0 <= i < |steps| ==> !steps[i].Start?
    ensures C.Stop(s) == s.(running := false, leaseValid := false)
    ensures var t := Run(C.Stop(s), steps);
            && C.Propose(t, payload) == (t, Err(if t.leaderId.Some? then InvalidRequest else NoLeader))
            && C.Campaign(t, id, false) == (t, Err(InvalidRequest))
  {
    StaysStopped(C.Stop(s), steps);
    hide Run;
  }

  lemma {:induction false} StaysStopped(s: C.Cluster, steps: seq<Step>)
    requires !s.running && forall i :: 0 <= i < |steps| ==> !steps[i].Start?
    ensures !Run(s, steps).running
    decreases |steps|
  {
    if steps != [] {
      OnlyStartRuns(s, steps[0]);
      StaysStopped(Next(s, steps[0]), steps[1..]);
    }
  }

  lemma OnlyStartRuns(s: C.Cluster, step: Step)
    requires !step.Start?
    ensures Next(s, step).running <==> s.running && !step.Stop?
  {
    if step.Propose? && C.CanPropose(s, step.payload) {
      RefreshCommitKeeps(C.Replicated(s, step.payload).0);
    } else if step.AddPeer? && step.peer.nodeId !in s.nodes {
      RefreshPipelinesKeeps(C.WithPeer(s, step.peer));
    } else if step.Remove? && step.id in s.nodes {
      RefreshPipelinesKeeps(C.WithoutPeer(s, step.id));
    } else if step.Campaign? || step.Transfer? {
      RefreshPipelinesKeeps(C.Elected(s, step.id));
    }
    hide C.RefreshPipelines, C.MatchIndex, C.CopyFromLeader, C.Acknowledge, C.MaxCommit, C.MaxMatch, C.RefreshCommit;
    hide C.MinApplied, C.Keys, C.RecordInstall, C.EntriesAbove, C.ReplicateAll, C.CanPropose;
  }

  /** A proposal is refused up front, with nothing changed, without a leader, in a stopped cluster,
      over the payload limit, and when the leader is gone or down: in this order. A later refusal
      still uses up the index. */
  lemma UpFrontRefusals(s: C.Cluster, payload: Payload)
    ensures var (t, r) := C.Propose(s, payload);
            && (s.leaderId.None? ==> t == s && r == Err(NoLeader))
            && (s.leaderId.Some? && (!s.running || |payload| > s.config.maxPayloadBytes) ==> t == s && r == Err(InvalidRequest))
            && (s.leaderId.Some? && s.running && |payload| <= s.config.maxPayloadBytes ==>
                  var id := s.leaderId.value;
                  if id !in s.nodes then t == s && r == Err(NodeNotFound(id))
                  else if !s.nodes[id].healthy then t == s && r == Err(NotLeader(id))
                  else r.Err? ==> r == Err(InvalidRequest) && t.lastLogIndex == s.lastLogIndex + 1)
  {
    hide C.RefreshCommit, C.ReplicateAll;
  }
}
