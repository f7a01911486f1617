/** The node object of the cluster. */
module Nodes {
  import opened Types
  import Model = ClusterModel
  import W = WalModel

  class RaftNode {
    const id: NodeId
    var replicaRole: ReplicaRole
    var raftRole: RaftRole
    var hardState: HardState
    var log: seq<LogEntry>
    var installedSnapshot: Option<SnapshotMeta>
    var commitIndex: LogIndex
    var appliedIndex: LogIndex
    var healthy: bool

    function State(): Model.Node
      reads this
    {
      Model.Node(id, replicaRole, raftRole, hardState, log, installedSnapshot, commitIndex, appliedIndex, healthy)
    }

    constructor (id: NodeId, role: ReplicaRole)
      ensures State() == Model.NewNode(id, role)
    {
      this.id, replicaRole, raftRole := id, role, Model.RestingRole(role);
      hardState, log, installedSnapshot := HardState(0, None, None), [], None;
      commitIndex, appliedIndex, healthy := 0, 0, true;
    }

    /** A node holding a given value, as cloning one makes. */
    constructor Of(n: Model.Node)
      ensures State() == n
    {
      id, replicaRole, raftRole, hardState := n.id, n.replicaRole, n.raftRole, n.hardState;
      log, installedSnapshot := n.log, n.installedSnapshot;
      commitIndex, appliedIndex, healthy := n.commitIndex, n.appliedIndex, n.healthy;
    }

    function MatchIndex(): (index: LogIndex)
      reads this
      ensures index == Model.MatchIndex(State())
    {
      Max(W.LastEntryIndex(log), W.SnapshotIndex(installedSnapshot))
    }

    /** Cuts the log at the first entry with the same index, if there is one, and adds the
        entry. */
    method AppendEntry(e: LogEntry)
      modifies this`log
      ensures State() == Model.AppendEntry(old(State()), e)
    {
      var position := 0;
      while position < |log| && log[position].logId.index != e.logId.index
        invariant position <= |log|
        invariant forall i :: 0 <= i < position ==> log[i].logId.index != e.logId.index
      {
        position := position + 1;
      }
      assert position == Model.PositionOf(log, e.logId.index);
      log := log[..position] + [e];
    }

    method AppendEntries(es: seq<LogEntry>)
      modifies this`log
      ensures State() == Model.AppendEntries(old(State()), es)
    {
      for i := 0 to |es|
        invariant Model.AppendEntries(State(), es[i..]) == Model.AppendEntries(old(State()), es)
      {
        assert es[i..][0] == es[i] && es[i..][1..] == es[i + 1..];
        AppendEntry(es[i]);
      }
    }

    method AdvanceCommit(index: LogIndex)
      modifies this
      ensures State() == Model.AdvanceCommit(old(State()), index)
    {
      commitIndex := Max(commitIndex, Min(index, MatchIndex()));
      if replicaRole.CanServeData() {
        appliedIndex := Max(appliedIndex, commitIndex);
      }
      hardState := hardState.(committed := if commitIndex > 0 then Some(LogId(hardState.currentTerm, commitIndex)) else None);
    }

    /** Keeps the entries above an index, in order. */
    method RetainAbove(index: LogIndex)
      modifies this`log
      ensures log == Model.EntriesAbove(old(log), index)
    {
      var kept: seq<LogEntry> := [];
      for i := 0 to |log|
        invariant kept + Model.EntriesAbove(log[i..], index) == Model.EntriesAbove(log, index)
      {
        assert log[i..][0] == log[i] && log[i..][1..] == log[i + 1..];
        if log[i].logId.index > index {
          kept := kept + [log[i]];
        }
      }
      log := kept;
    }

    method InstallSnapshot(s: SnapshotMeta)
      modifies this
      ensures State() == Model.InstallSnapshot(old(State()), s)
    {
      var index := s.lastLogId.index;
      installedSnapshot := Some(s);
      RetainAbove(index);
      commitIndex := Max(commitIndex, index);
      if replicaRole.CanServeData() {
        appliedIndex := Max(appliedIndex, index);
      }
      hardState := hardState.(committed := Some(LogId(hardState.currentTerm, commitIndex)));
    }

    method CompactLogThrough(index: LogIndex) returns (removed: nat)
      modifies this`log
      ensures State() == Model.CompactLog(old(State()), index)
      ensures removed == SatSub(|old(log)|, |log|)
    {
      var before := |log|;
      RetainAbove(index);
      removed := SatSub(before, |log|);
    }

    /** Follows a remote leader: takes its term, its entries if it stores any, and its commit. */
    method AcceptAppend(r: Model.AppendRequest)
      modifies this
      ensures State() == Model.AcceptAppend(old(State()), r)
    {
      hide Model.AppendEntries, Model.AdvanceCommit;
      hardState := hardState.(currentTerm := r.term);
      raftRole := Model.RestingRole(replicaRole);
      if replicaRole.CanServeData() {
        AppendEntries(r.entries);
      }
      AdvanceCommit(r.leaderCommit);
    }

    /** Copies the snapshot of the leader, if that is ahead, and then the entries past what
        this node has matched. */
    method CopyFromLeader(leader: Model.Node, commit: LogIndex)
      modifies this
      ensures State() == Model.CopyFromLeader(old(State()), leader, commit)
    {
      hide Model.AppendEntries, Model.AdvanceCommit, Model.EntriesAbove, Model.MatchIndex;
      if leader.installedSnapshot.Some? && leader.installedSnapshot.value.lastLogId.index > MatchIndex() {
        installedSnapshot := leader.installedSnapshot;
      }
      AppendEntries(Model.EntriesAbove(leader.log, MatchIndex()));
      AdvanceCommit(Min(commit, MatchIndex()));
    }

    /** Takes over a recovered record. */
    method Restore(r: W.WalRecord)
      modifies this
      ensures State() == Model.RestoreNode(old(State()), r)
    {
      hardState, log, installedSnapshot := r.hardState, r.entries, r.installedSnapshot;
      commitIndex, appliedIndex := r.fence.commitIndex, r.fence.appliedIndex;
    }
  }
}
