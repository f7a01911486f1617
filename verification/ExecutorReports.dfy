/** When a membership operation succeeds and what it then does, in terms of the nodes; and that
    the reports of a list of operations tell this, one by one. */
module ExecutorReports {
  import opened Types
  import opened Ordering
  import opened ClusterRuns
  import opened ClusterSteps
  import opened Elections
  import opened ExecutorModel
  import opened ExecutorTheorems
  import C = ClusterModel
  import Members = MembershipModel

  /** The nodes allow the operation: unknown ids can be added, learners that match the commit
      index promoted, members other than the leader and the last voter removed, and voters that
      match the commit index given the leadership. */
  ghost predicate Valid(s: C.Cluster, op: Operation) {
    match op
    case AddNode(peer) => peer.nodeId !in s.nodes
    case AddVoter(peer) => peer.nodeId !in s.nodes
    case AddLearner(peer) => peer.nodeId !in s.nodes
    case AddWitness(peer) => peer.nodeId !in s.nodes
    case Promote(id) => id in s.nodes && s.nodes[id].replicaRole.Learner? && C.MatchIndex(s.nodes[id]) >= s.commitIndex
    case Remove(id) =>
      && id in s.nodes && s.leaderId != Some(id)
      && (s.nodes[id].replicaRole.Voter? ==> exists k :: k in s.nodes && k != id && s.nodes[k].replicaRole.Voter?)
    case TransferLeader(id) =>
      id in s.nodes && s.nodes[id].replicaRole.Voter? && C.MatchIndex(s.nodes[id]) >= s.commitIndex
  }

  /** It is valid and, if a transfer, to a healthy node. */
  ghost predicate Succeeds(s: C.Cluster, op: Operation) {
    Valid(s, op) && (op.TransferLeader? ==> s.nodes[op.id].healthy)
  }

  lemma OneVoterOnly(s: C.Cluster, id: NodeId)
    requires id in s.nodes && s.nodes[id].replicaRole.Voter?
    ensures |C.MembershipOf(s).voters| <= 1 <==> !exists k :: k in s.nodes && k != id && s.nodes[k].replicaRole.Voter?
  {
    MembersAreNodes(s);
    var voters := C.MembershipOf(s).voters;
    assert id in voters;
    hide C.MembershipOf;
    if |voters| > 1 {
      assert voters[0] in voters && voters[1] in voters && voters[0] != voters[1];
    }
    if k :| k in s.nodes && k != id && s.nodes[k].replicaRole.Voter? {
      assert k in voters && id in voters;
    }
  }

  lemma RemoveBlocked(s: C.Cluster, id: NodeId)
    ensures Blocked(s, Operation.Remove(id)) <==> !Valid(s, Operation.Remove(id))
  {
    MemberIsNode(s, id);
    if id in s.nodes {
      VotersAreNodes(s, id);
      if s.nodes[id].replicaRole.Voter? {
        OneVoterOnly(s, id);
      }
    }
    hide C.MembershipOf, Members.IsMember;
  }

  lemma VotersAreNodes(s: C.Cluster, id: NodeId)
    ensures id in C.MembershipOf(s).voters <==> id in s.nodes && s.nodes[id].replicaRole.Voter?
  {
    MembersAreNodes(s);
    hide C.MembershipOf;
  }

  lemma LearnersAreNodes(s: C.Cluster, id: NodeId)
    ensures id in C.MembershipOf(s).learners <==> id in s.nodes && s.nodes[id].replicaRole.Learner?
  {
    MembersAreNodes(s);
    hide C.MembershipOf;
  }

  lemma BlockedUnlessValid(s: C.Cluster, op: Operation)
    ensures Blocked(s, op) <==> !Valid(s, op)
  {
    match op {
      case AddNode(peer) => MemberIsNode(s, peer.nodeId);
      case AddVoter(peer) => MemberIsNode(s, peer.nodeId);
      case AddLearner(peer) => MemberIsNode(s, peer.nodeId);
      case AddWitness(peer) => MemberIsNode(s, peer.nodeId);
      case Promote(id) => LearnersAreNodes(s, id);
      case Remove(id) => RemoveBlocked(s, id);
      case TransferLeader(id) =>
    }
    hide C.MembershipOf, Members.IsMember, C.MatchIndex;
  }

  /** What a successful operation has done to the cluster. */
  ghost predicate Performed(s: C.Cluster, t: C.Cluster, op: Operation) {
    match op
    case AddNode(peer) => PeerAdded(s, t, peer.nodeId, peer.role)
    case AddVoter(peer) => PeerAdded(s, t, peer.nodeId, Voter)
    case AddLearner(peer) => PeerAdded(s, t, peer.nodeId, Learner)
    case AddWitness(peer) => PeerAdded(s, t, peer.nodeId, Witness)
    case Promote(id) => PromotedTo(s, t, id)
    case Remove(id) => PeerRemoved(s, t, id)
    case TransferLeader(id) => WonBy(s, t, id)
  }

  lemma AddPerforms(s: C.Cluster, peer: C.Peer)
    requires Shape(s) && peer.nodeId !in s.nodes
    ensures var (t, r) := C.AddPeer(s, peer); r.Ok? && PeerAdded(s, t, peer.nodeId, peer.role)
  {
    AddPeerIsExact(s, peer);
    hide C.AddPeer, PeerAdded, Shape;
  }

  lemma NodesKnowIds(s: C.Cluster)
    requires Shape(s)
    ensures Elections.OwnIds(s)
  {
    forall k | k in s.nodes ensures s.nodes[k].id == k {
      assert NodeShape(s.nodes[k], k, s.leaderId, s.currentTerm);
    }
  }

  lemma TransferPerforms(s: C.Cluster, id: NodeId)
    requires Shape(s) && Valid(s, TransferLeader(id))
    ensures var (t, r) := C.TransferLeader(s, id);
            && (r.Ok? <==> s.nodes[id].healthy)
            && (r.Ok? ==> WonBy(s, t, id)) && (r.Err? ==> t == s && r.error == InvalidRequest)
  {
    NodesKnowIds(s);
    TransferElectsExactly(s, id);
    hide C.Campaign, WonBy, C.MatchIndex, Shape;
  }

  lemma PromotePerforms(s: C.Cluster, id: NodeId)
    requires Valid(s, Operation.Promote(id))
    ensures var (t, r) := Perform(s, Operation.Promote(id)); r.Ok? && PromotedTo(s, t, id)
  {
    PromoteIsExact(s, id);
    MembersAreNodes(s);
    hide C.PromotePeer, C.MembershipOf, C.MatchIndex;
  }

  lemma RemovePerforms(s: C.Cluster, id: NodeId)
    requires Shape(s) && id in s.nodes
    ensures var (t, r) := C.RemovePeer(s, id); r.Ok? && PeerRemoved(s, t, id)
  {
    RemovePeerIsExact(s, id);
    hide C.RemovePeer, PeerRemoved, Shape;
  }

  /** Main result: an operation succeeds exactly when the nodes allow it and a new leader is
      healthy; it has then done just what it names, and otherwise nothing. */
  lemma ExecuteIsExact(s: C.Cluster, op: Operation)
    requires Shape(s)
    ensures var (t, r) := Execute(s, op);
            && (r.Ok? <==> Succeeds(s, op))
            && (r.Ok? ==> Performed(s, t, op))
            && (r.Err? ==> t == s && r.error == InvalidRequest)
  {
    BlockedUnlessValid(s, op);
    if Valid(s, op) {
      match op {
        case AddNode(peer) => AddPerforms(s, peer);
        case AddVoter(peer) => AddPerforms(s, peer.(role := Voter));
        case AddLearner(peer) => AddPerforms(s, peer.(role := Learner));
        case AddWitness(peer) => AddPerforms(s, peer.(role := Witness));
        case Promote(id) => PromotePerforms(s, id);
        case Remove(id) => RemovePerforms(s, id);
        case TransferLeader(id) => TransferPerforms(s, id);
      }
    }
    hide Blocked, C.AddPeer, C.RemovePeer, C.TransferLeader, C.MembershipOf, PeerAdded, PeerRemoved, WonBy, Shape;
    hide C.MatchIndex, PromotedTo;
  }

  // ----- Reports -----

  /** The report tells what the operation met and what came of it. */
  ghost predicate Tells(report: Report, s: C.Cluster, op: Operation, rolledBack: bool) {
    var t := Execute(s, op).0;
    && report.operation == op
    && ListsMembers(s, report.before) && ListsMembers(t, report.after)
    && report.leaderBefore == s.leaderId && report.leaderAfter == t.leaderId
    && report.validationPassed == Valid(s, op) && report.success == Succeeds(s, op)
    && report.rolledBack == (rolledBack && !report.success)
    && report.joint == (if report.before.voters == report.after.voters then None
                        else Some(Members.JointMembership(report.before.voters, report.after.voters)))
  }

  lemma ReportTells(s: C.Cluster, op: Operation, rollback: bool)
    requires Shape(s)
    ensures Tells(ReportOf(s, op, rollback), s, op, rollback && Valid(s, op))
  {
    ExecuteIsExact(s, op);
    BlockedUnlessValid(s, op);
    MembershipIsExact(s);
    MembershipIsExact(Execute(s, op).0);
    hide Execute, Blocked, C.MembershipOf, ListsMembers, Valid, Succeeds, Performed, Shape;
  }

  /** The step of the cluster that an operation takes when it is not refused. */
  function StepOf(op: Operation): Step {
    match op
    case AddNode(peer) => Step.AddPeer(peer)
    case AddVoter(peer) => Step.AddPeer(peer.(role := Voter))
    case AddLearner(peer) => Step.AddPeer(peer.(role := Learner))
    case AddWitness(peer) => Step.AddPeer(peer.(role := Witness))
    case Promote(id) => Step.Promote(id)
    case Remove(id) => Step.Remove(id)
    case TransferLeader(id) => Step.Transfer(id)
  }

  lemma ExecuteIsStep(s: C.Cluster, op: Operation)
    ensures Execute(s, op).0 == s || Execute(s, op).0 == Next(s, StepOf(op))
  {
    hide Blocked, Promotable, C.AddPeer, C.RemovePeer, C.TransferLeader, C.PromotePeer;
  }

  lemma ExecuteKeepsShape(s: C.Cluster, op: Operation)
    requires Shape(s) && Bounded(s)
    ensures Shape(Execute(s, op).0) && Bounded(Execute(s, op).0)
  {
    ExecuteIsStep(s, op);
    hide Execute, Next, Shape, Bounded;
    StepKeepsShape(s, StepOf(op));
  }

  /** The states that the operations of a list are tried in. */
  function Before(s: C.Cluster, ops: seq<Operation>, i: nat): C.Cluster
    requires i <= |ops|
  {
    Reached(s, ops[..i])
  }

  /** One report for each operation up to the first failure, each telling of the state that the
      operations before it led to. */
  ghost predicate TellsAll(reports: seq<Report>, s: C.Cluster, ops: seq<Operation>, rollback: bool) {
    && |reports| <= |ops|
    && (forall i :: 0 <= i < |reports| ==> TellsOne(reports, s, ops, rollback, i))
    && (forall i :: 0 <= i < |reports| - 1 ==> reports[i].success)
    && (|reports| < |ops| ==> reports != [] && !reports[|reports| - 1].success)
  }

  ghost predicate TellsOne(reports: seq<Report>, s: C.Cluster, ops: seq<Operation>, rollback: bool, i: nat)
    requires i < |reports| <= |ops|
  {
    Tells(reports[i], Before(s, ops, i), ops[i], rollback && Valid(Before(s, ops, i), ops[i]))
  }

  lemma TellsLater(rs: seq<Report>, s: C.Cluster, ops: seq<Operation>, rollback: bool, first: Report)
    requires ops != [] && TellsAll(rs, Execute(s, ops[0]).0, ops[1..], rollback)
    requires Tells(first, s, ops[0], rollback && Valid(s, ops[0])) && first.success
    ensures TellsAll([first] + rs, s, ops, rollback)
  {
    var all := [first] + rs;
    hide Tells, Execute, Valid;
    forall i | 0 <= i < |all| ensures TellsOne(all, s, ops, rollback, i) {
      if i > 0 {
        assert TellsOne(rs, Execute(s, ops[0]).0, ops[1..], rollback, i - 1);
        assert ops[..i][1..] == ops[1..][..i - 1];
      }
    }
  }

  lemma FirstTells(s: C.Cluster, op: Operation, rollback: bool)
    requires Shape(s)
    ensures var report := ReportOf(s, op, rollback);
            && Tells(report, s, op, rollback && Valid(s, op))
            && (report.success <==> Execute(s, op).1.Ok?)
  {
    ReportTells(s, op, rollback);
    ExecuteIsExact(s, op);
    hide Execute, Blocked, C.MembershipOf, ListsMembers, Valid, Succeeds, Performed, Shape;
  }

  lemma TellsFirst(rs: seq<Report>, s: C.Cluster, ops: seq<Operation>, rollback: bool)
    requires |rs| == 1 && ops != [] && Tells(rs[0], s, ops[0], rollback && Valid(s, ops[0]))
    ensures TellsOne(rs, s, ops, rollback, 0)
  {
    assert ops[..0] == [] && Before(s, ops, 0) == s;
    hide Tells, Valid, Before;
  }

  lemma TellsOnly(rs: seq<Report>, s: C.Cluster, ops: seq<Operation>, rollback: bool)
    requires |rs| == 1 && ops != [] && TellsOne(rs, s, ops, rollback, 0) && !rs[0].success
    ensures TellsAll(rs, s, ops, rollback)
  {
    hide TellsOne;
  }

  /** Main result: a list of operations leaves the reports that tell, each of the state it met,
      what every operation up to the first failure did. */
  lemma {:induction false} ReportsTell(s: C.Cluster, ops: seq<Operation>, rollback: bool)
    requires Shape(s) && Bounded(s)
    ensures TellsAll(ReportsOf(s, ops, rollback), s, ops, rollback)
    decreases |ops|
  {
    if ops != [] {
      var report := ReportOf(s, ops[0], rollback);
      var next := Execute(s, ops[0]).0;
      FirstTells(s, ops[0], rollback);
      assert ReportsOf(s, ops, rollback) == if report.success then [report] + ReportsOf(next, ops[1..], rollback) else [report] by {
        hide Tells, Execute, ReportOf, Valid;
      }
      assert Shape(s);
      hide *;
      if report.success {
        ExecuteKeepsShape(s, ops[0]);
        ReportsTell(next, ops[1..], rollback);
        TellsLater(ReportsOf(next, ops[1..], rollback), s, ops, rollback, report);
      } else {
        TellsFirst([report], s, ops, rollback);
        TellsOnly([report], s, ops, rollback);
      }
    } else {
      assert TellsAll([], s, ops, rollback);
    }
  }

  /** The first n operations of the list lead to t. */
  ghost predicate LeadsTo(s: C.Cluster, ops: seq<Operation>, n: nat, t: C.Cluster) {
    n <= |ops| && t == Reached(s, ops[..n])
  }

  /** Without rollback the operations before the first failure stay done, and none after it is
      tried: the cluster is the one that the reported operations lead to. */
  lemma {:induction false} StopsAtFailure(s: C.Cluster, ops: seq<Operation>, rollback: bool)
    requires Shape(s) && Bounded(s)
    ensures LeadsTo(s, ops, |ReportsOf(s, ops, rollback)|, ExecuteAll(s, ops).0)
    ensures ExecuteAll(s, ops).1.Ok? ==> |ReportsOf(s, ops, rollback)| == |ops|
    decreases |ops|
  {
    hide *;
    if ops == [] {
      LeadsNowhere(s, rollback);
    } else {
      StopsOrGoesOn(s, ops, rollback);
      var (t, r) := Execute(s, ops[0]);
      if r.Ok? {
        ExecuteKeepsShape(s, ops[0]);
        StopsAtFailure(t, ops[1..], rollback);
        LeadsLater(s, ops, |ReportsOf(t, ops[1..], rollback)|, ExecuteAll(t, ops[1..]).0);
      } else {
        LeadsFirst(s, ops);
      }
    }
  }

  lemma LeadsNowhere(s: C.Cluster, rollback: bool)
    ensures LeadsTo(s, [], |ReportsOf(s, [], rollback)|, ExecuteAll(s, []).0) && |ReportsOf(s, [], rollback)| == 0
  {
  }

  lemma StopsOrGoesOn(s: C.Cluster, ops: seq<Operation>, rollback: bool)
    requires ops != []
    ensures var (t, r) := Execute(s, ops[0]);
            if r.Ok? then
              && ExecuteAll(s, ops) == ExecuteAll(t, ops[1..])
              && |ReportsOf(s, ops, rollback)| == 1 + |ReportsOf(t, ops[1..], rollback)|
            else ExecuteAll(s, ops).0 == t && ExecuteAll(s, ops).1.Err? && |ReportsOf(s, ops, rollback)| == 1
  {
    hide Execute, ReportOf;
    assert ReportsOf(s, ops, rollback)
           == [ReportOf(s, ops[0], rollback)]
              + if Execute(s, ops[0]).1.Err? then [] else ReportsOf(Execute(s, ops[0]).0, ops[1..], rollback);
  }

  lemma LeadsLater(s: C.Cluster, ops: seq<Operation>, n: nat, t: C.Cluster)
    requires ops != [] && LeadsTo(Execute(s, ops[0]).0, ops[1..], n, t)
    ensures LeadsTo(s, ops, n + 1, t)
  {
    assert ops[..n + 1][1..] == ops[1..][..n];
    hide Execute;
  }

  lemma LeadsFirst(s: C.Cluster, ops: seq<Operation>)
    requires ops != []
    ensures LeadsTo(s, ops, 1, Execute(s, ops[0]).0)
  {
    hide Execute;
    assert ops[..1][0] == ops[0] && ops[..1][1..] == [];
    assert Reached(Execute(s, ops[0]).0, []) == Execute(s, ops[0]).0;
  }

  /** Successes stay as they are, and a failure, which can only be the last, is marked. */
  ghost predicate MarksFailure(plain: seq<Report>, flagged: seq<Report>) {
    && |flagged| == |plain|
    && (forall i :: 0 <= i < |plain| && plain[i].success ==> flagged[i] == plain[i])
    && (forall i :: 0 <= i < |plain| && !plain[i].success ==> flagged[i] == plain[i].(rolledBack := true) && i == |plain| - 1)
  }

  lemma FlaggedMarks(rs: seq<Report>)
    requires forall i :: 0 <= i < |rs| - 1 ==> rs[i].success
    ensures MarksFailure(rs, Flagged(rs))
  {
  }

  /** With rollback the whole list is undone at a failure, and then the report of the failed
      operation is marked as rolled back, whether or not it passed validation. */
  lemma RollbackIsReported(s: C.Cluster, ops: seq<Operation>)
    requires Shape(s) && Bounded(s)
    ensures MarksFailure(ReportsOf(s, ops, true), Flagged(ReportsOf(s, ops, true)))
  {
    ReportsTell(s, ops, true);
    assert forall i :: 0 <= i < |ReportsOf(s, ops, true)| - 1 ==> ReportsOf(s, ops, true)[i].success;
    hide *;
    FlaggedMarks(ReportsOf(s, ops, true));
  }
}
