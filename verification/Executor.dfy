/** The membership executor object. */
module Executors {
  import opened Types
  import opened Clusters
  import opened ExecutorModel
  import opened ExecutorTheorems
  import C = ClusterModel
  import Members = MembershipModel

  class RaftMembershipExecutor {
    var reports: seq<Report>

    constructor ()
      ensures reports == []
    {
      reports := [];
    }

    /** Performs an operation that passed validation. */
    method Perform(cluster: RaftCluster, op: Operation) returns (r: Result<()>)
      requires cluster.Valid()
      modifies cluster, cluster.nodes.Values, cluster.pipelines.Values
      ensures fresh(cluster.nodes.Values - old(cluster.nodes.Values))
      ensures fresh(cluster.pipelines.Values - old(cluster.pipelines.Values))
      ensures cluster.Valid()
      ensures (cluster.State(), r) == ExecutorModel.Perform(old(cluster.State()), op)
    {
      hide C.AddPeer, C.RemovePeer, C.PromotePeer, C.TransferLeader, RaftCluster.State, RaftCluster.Valid, Promotable;
      match op {
        case AddNode(peer) => r := cluster.AddPeer(peer);
        case AddVoter(peer) => r := cluster.AddPeer(peer.(role := Voter));
        case AddLearner(peer) => r := cluster.AddPeer(peer.(role := Learner));
        case AddWitness(peer) => r := cluster.AddPeer(peer.(role := Witness));
        case Promote(id) =>
          if id !in cluster.State().nodes {
            return Err(NodeNotFound(id));
          }
          if !Promotable(cluster.State(), id) {
            return Err(InvalidRequest);
          }
          r := cluster.PromotePeer(id);
        case Remove(id) => r := cluster.RemovePeer(id);
        case TransferLeader(id) => r := cluster.TransferLeader(id);
      }
    }
 
    /** Validates and performs one operation; with rollback a failure after validation puts
        the cluster back. */
    method Attempt(cluster: RaftCluster, op: Operation, rollback: bool) returns (r: Result<()>, rolledBack: bool)
      requires cluster.Valid()
      modifies cluster, cluster.nodes.Values, cluster.pipelines.Values
      ensures fresh(cluster.nodes.Values - old(cluster.nodes.Values))
      ensures fresh(cluster.pipelines.Values - old(cluster.pipelines.Values))
      ensures cluster.Valid()
      ensures (cluster.State(), r) == ExecutorModel.Execute(old(cluster.State()), op)
      ensures rolledBack == (rollback && r.Err? && !Blocked(old(cluster.State()), op))
    {
      var before := cluster.State();
      assert before.groupId == cluster.groupId && before.config == cluster.config;
      hide RaftCluster.State, RaftCluster.Valid, ExecutorModel.Perform, Blocked;
      FailureChangesNothing(before, op);
      rolledBack := false;
      if Blocked(before, op) {
        r := Err(InvalidRequest);
      } else {
        r := Perform(cluster, op);
        if r.Err? && rollback {
          Restore(cluster, before);
          rolledBack := true;
        }
      }
    }

    /** Puts the cluster back to an earlier value. */
    method Restore(cluster: RaftCluster, s: C.Cluster)
      requires s.groupId == cluster.groupId && s.config == cluster.config
      modifies cluster
      ensures cluster.Valid() && cluster.State() == s && fresh(cluster.nodes.Values) && fresh(cluster.pipelines.Values)
    {
      cluster.Assign(s);
    }

    /** Executes one operation and records its report. */
    method ExecuteInner(cluster: RaftCluster, op: Operation, rollback: bool) returns (r: Result<()>)
      requires cluster.Valid()
      modifies this, cluster, cluster.nodes.Values, cluster.pipelines.Values
      ensures fresh(cluster.nodes.Values - old(cluster.nodes.Values))
      ensures fresh(cluster.pipelines.Values - old(cluster.pipelines.Values))
      ensures cluster.Valid()
      ensures Outcome(reports, cluster.State(), r) == After(old(reports), old(cluster.State()), op, rollback)
    {
      hide RaftCluster.State, RaftCluster.Valid, MakeReport, ExecutorModel.Execute, Blocked;
      var before := cluster.State();
      FailureChangesNothing(before, op);
      var rolledBack;
      r, rolledBack := Attempt(cluster, op, rollback);
      reports := reports + [MakeReport(op, before, cluster.State(), r.Ok?, !Blocked(before, op), rolledBack)];
    }

    /** Executes operations in turn up to the first failure. */
    method ExecuteEach(cluster: RaftCluster, ops: seq<Operation>, rollback: bool) returns (r: Result<()>)
      requires cluster.Valid()
      modifies this, cluster, cluster.nodes.Values, cluster.pipelines.Values
      ensures cluster.Valid()
      ensures Outcome(reports, cluster.State(), r) == AfterAll(old(reports), old(cluster.State()), ops, rollback)
    {
      hide RaftCluster.State, RaftCluster.Valid, ReportOf, ExecutorModel.Execute;
      r := Ok(());
      for i := 0 to |ops|
        invariant cluster.Valid() && r == Ok(())
        invariant fresh(cluster.nodes.Values - old(cluster.nodes.Values))
        invariant fresh(cluster.pipelines.Values - old(cluster.pipelines.Values))
        invariant ExecutorModel.ExecuteAll(cluster.State(), ops[i..]) == ExecutorModel.ExecuteAll(old(cluster.State()), ops)
        invariant reports + ReportsOf(cluster.State(), ops[i..], rollback)
                  == old(reports) + ReportsOf(old(cluster.State()), ops, rollback)
      {
        assert ops[i..][0] == ops[i] && ops[i..][1..] == ops[i + 1..];
        ghost var was, s := reports, cluster.State();
        var one := ExecuteInner(cluster, ops[i], rollback);
        ConcatAssociative(was, [ReportOf(s, ops[i], rollback)], ReportsOf(cluster.State(), ops[i + 1..], rollback));
        if one.Err? {
          r := one;
          return;
        }
      }
    }

    method ExecuteAll(cluster: RaftCluster, ops: seq<Operation>) returns (r: Result<()>)
      requires cluster.Valid()
      modifies this, cluster, cluster.nodes.Values, cluster.pipelines.Values
      ensures cluster.Valid()
      ensures Outcome(reports, cluster.State(), r) == AfterAll(old(reports), old(cluster.State()), ops, false)
    {
      r := ExecuteEach(cluster, ops, false);
    }

    method ExecuteAllWithRollback(cluster: RaftCluster, ops: seq<Operation>) returns (r: Result<()>)
      requires cluster.Valid()
      modifies this, cluster, cluster.nodes.Values, cluster.pipelines.Values
      ensures cluster.Valid()
      ensures Outcome(reports, cluster.State(), r) == AfterAllWithRollback(old(reports), old(cluster.State()), ops)
    {
      hide RaftCluster.Valid, AfterAll, AfterAllWithRollback;
      var before := cluster.State();
      RollbackOutcome(reports, before, ops);
      r := ExecuteEach(cluster, ops, true);
      if r.Err? {
        PutBack(cluster, before);
      }
    }

    /** Puts the cluster back and marks a final failed report as rolled back. */
    method PutBack(cluster: RaftCluster, s: C.Cluster)
      requires s.groupId == cluster.groupId && s.config == cluster.config
      modifies this, cluster
      ensures cluster.Valid() && cluster.State() == s && reports == Flagged(old(reports))
    {
      Restore(cluster, s);
      hide RaftCluster.State, RaftCluster.Valid;
      var n := |reports| - 1;
      if n >= 0 && !reports[n].success {
        reports := reports[n := reports[n].(rolledBack := true)];
      }
    }
  }

  /** What the list execution leaves behind, once flagged and put back, is what rollback promises. */
  lemma RollbackOutcome(reports: seq<Report>, s: C.Cluster, ops: seq<Operation>)
    ensures var tried := AfterAll(reports, s, ops, true);
            AfterAllWithRollback(reports, s, ops)
            == if tried.result.Ok? then tried else Outcome(Flagged(tried.reports), s, tried.result)
  {
    LastReportTells(s, ops, true);
    hide ExecutorModel.ExecuteAll, ReportsOf;
    if ReportsOf(s, ops, true) != [] {
      FlagLast(reports, ReportsOf(s, ops, true));
    }
  }
}
