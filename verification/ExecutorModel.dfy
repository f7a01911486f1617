/** Membership operations on the cluster: validation, execution, rollback and reports. */
module ExecutorModel {
  import opened Types
  import opened Ordering
  import C = ClusterModel
  import Members = MembershipModel

  datatype Operation =
    | AddNode(peer: C.Peer)
    | AddVoter(peer: C.Peer)
    | AddLearner(peer: C.Peer)
    | AddWitness(peer: C.Peer)
    | Promote(id: NodeId)
    | Remove(id: NodeId)
    | TransferLeader(id: NodeId)

  datatype Report = Report(
    operation: Operation, before: Members.Membership, after: Members.Membership,
    leaderBefore: Option<NodeId>, leaderAfter: Option<NodeId>,
    success: bool, validationPassed: bool, rolledBack: bool, joint: Option<Members.JointMembership>)

  predicate Promotable(s: C.Cluster, id: NodeId)
    requires id in s.nodes
  {
    id in C.MembershipOf(s).learners && C.MatchIndex(s.nodes[id]) >= s.commitIndex
  }

  /** Whether validation finds a reason against the operation. */
  predicate Blocked(s: C.Cluster, op: Operation) {
    var m := C.MembershipOf(s);
    match op
    case AddNode(peer) => Members.IsMember(m, peer.nodeId)
    case AddVoter(peer) => Members.IsMember(m, peer.nodeId)
    case AddLearner(peer) => Members.IsMember(m, peer.nodeId)
    case AddWitness(peer) => Members.IsMember(m, peer.nodeId)
    case Promote(id) => id !in m.learners || (id in s.nodes && !Promotable(s, id))
    case Remove(id) =>
      || !Members.IsMember(m, id)
      || (id in m.voters && |m.voters| <= 1)
      || s.leaderId == Some(id)
    case TransferLeader(id) =>
      || id !in s.nodes
      || !s.nodes[id].replicaRole.CanBeLeader()
      || C.MatchIndex(s.nodes[id]) < s.commitIndex
  }

  /** What an operation that passed validation does. */
  function Perform(s: C.Cluster, op: Operation): (C.Cluster, Result<()>) {
    match op
    case AddNode(peer) => C.AddPeer(s, peer)
    case AddVoter(peer) => C.AddPeer(s, peer.(role := Voter))
    case AddLearner(peer) => C.AddPeer(s, peer.(role := Learner))
    case AddWitness(peer) => C.AddPeer(s, peer.(role := Witness))
    case Promote(id) =>
      if id !in s.nodes then (s, Err(NodeNotFound(id)))
      else if !Promotable(s, id) then (s, Err(InvalidRequest))
      else C.PromotePeer(s, id)
    case Remove(id) => C.RemovePeer(s, id)
    case TransferLeader(id) => C.TransferLeader(s, id)
  }

  function Execute(s: C.Cluster, op: Operation): (C.Cluster, Result<()>) {
    if Blocked(s, op) then (s, Err(InvalidRequest)) else Perform(s, op)
  }

  function JointIfVotersChanged(before: Members.Membership, after: Members.Membership): Option<Members.JointMembership> {
    if before.voters != after.voters then Some(Members.JointMembership(before.voters, after.voters)) else None
  }

  function MakeReport(op: Operation, before: C.Cluster, after: C.Cluster, success: bool, passed: bool, rolledBack: bool): Report {
    var was, now := C.MembershipOf(before), C.MembershipOf(after);
    Report(op, was, now, before.leaderId, after.leaderId, success, passed, rolledBack, JointIfVotersChanged(was, now))
  }

  /** The report of one operation; with rollback a failure after validation is rolled back. */
  function ReportOf(s: C.Cluster, op: Operation, rollback: bool): Report {
    var (t, r) := Execute(s, op);
    MakeReport(op, s, if rollback && r.Err? then s else t, r.Ok?, !Blocked(s, op), rollback && r.Err? && !Blocked(s, op))
  }

  /** Executes operations in turn, stopping at the first failure. */
  function ExecuteAll(s: C.Cluster, ops: seq<Operation>): (C.Cluster, Result<()>)
    decreases |ops|
  {
    if ops == [] then (s, Ok(()))
    else
      var (t, r) := Execute(s, ops[0]);
      if r.Err? then (t, r) else ExecuteAll(t, ops[1..])
  }

  function ExecuteAllWithRollback(s: C.Cluster, ops: seq<Operation>): (C.Cluster, Result<()>) {
    var (t, r) := ExecuteAll(s, ops);
    (if r.Ok? then t else s, r)
  }

  /** The reports of the operations that were tried, up to the first failure. */
  function ReportsOf(s: C.Cluster, ops: seq<Operation>, rollback: bool): seq<Report>
    decreases |ops|
  {
    if ops == [] then []
    else
      [ReportOf(s, ops[0], rollback)]
      + (if Execute(s, ops[0]).1.Err? then [] else ReportsOf(Execute(s, ops[0]).0, ops[1..], rollback))
  }

  /** Marks a final failed report as rolled back. */
  function Flagged(rs: seq<Report>): seq<Report> {
    if rs != [] && !rs[|rs| - 1].success then rs[|rs| - 1 := rs[|rs| - 1].(rolledBack := true)] else rs
  }

  /** Only the last report can be a failure, and it is one exactly when the list failed. */
  lemma {:induction false} LastReportTells(s: C.Cluster, ops: seq<Operation>, rollback: bool)
    ensures var rs := ReportsOf(s, ops, rollback);
            && (rs == [] ==> ExecuteAll(s, ops).1.Ok?)
            && (rs != [] ==> (rs[|rs| - 1].success <==> ExecuteAll(s, ops).1.Ok?))
    decreases |ops|
  {
    if ops != [] {
      hide C.MembershipOf, Blocked, Perform;
      LastReportTells(Execute(s, ops[0]).0, ops[1..], rollback);
    }
  }

  lemma FlagLast(earlier: seq<Report>, rs: seq<Report>)
    requires rs != []
    ensures Flagged(earlier + rs) == earlier + Flagged(rs)
  {
  }

  /** The reports and the cluster an executor is left with, and its answer. */
  datatype Outcome = Outcome(reports: seq<Report>, cluster: C.Cluster, result: Result<()>)

  function After(reports: seq<Report>, s: C.Cluster, op: Operation, rollback: bool): Outcome {
    var (t, r) := Execute(s, op);
    Outcome(reports + [ReportOf(s, op, rollback)], t, r)
  }

  function AfterAll(reports: seq<Report>, s: C.Cluster, ops: seq<Operation>, rollback: bool): Outcome {
    var (t, r) := ExecuteAll(s, ops);
    Outcome(reports + ReportsOf(s, ops, rollback), t, r)
  }

  function AfterAllWithRollback(reports: seq<Report>, s: C.Cluster, ops: seq<Operation>): Outcome {
    var (t, r) := ExecuteAllWithRollback(s, ops);
    Outcome(reports + Flagged(ReportsOf(s, ops, true)), t, r)
  }
}
