/** Catching up a learner: what it copies and commits, what is reported, and when it can be
    promoted afterwards. */
module CatchUpTheorems {
  import opened Types
  import opened ClusterRuns
  import opened LogAgreement
  import opened CommitRule
  import opened Elections
  import ClusterSteps
  import C = ClusterModel
  import W = WalModel

  /** The learner took over a snapshot that is ahead of it and then appended exactly the entries
      of the leader past what it had matched, in order; it committed what the cluster has, as
      far as it matches, and applied it. */
  ghost predicate Copied(n: C.Node, leader: C.Node, m: C.Node, commit: LogIndex) {
    var behind := W.SnapshotIndex(leader.installedSnapshot) > C.MatchIndex(n);
    var floor := Max(C.MatchIndex(n), W.SnapshotIndex(leader.installedSnapshot));
    && m.installedSnapshot == (if behind then leader.installedSnapshot else n.installedSnapshot)
    && |m.log| >= |n.log| && m.log[..|n.log|] == n.log && AscendingLog(m.log)
    && (forall e :: e in m.log[|n.log|..] <==> e in leader.log && e.logId.index > floor)
    && m.commitIndex == Max(n.commitIndex, Min(commit, C.MatchIndex(m)))
    && m.appliedIndex == Max(n.appliedIndex, m.commitIndex)
    && m.hardState.currentTerm == n.hardState.currentTerm && m.hardState.votedFor == n.hardState.votedFor
    && m == n.(log := m.log, installedSnapshot := m.installedSnapshot, commitIndex := m.commitIndex,
               appliedIndex := m.appliedIndex, hardState := m.hardState)
  }

  /** The learner with the snapshot of the leader when that is ahead. */
  function Based(n: C.Node, leader: C.Node): C.Node {
    if W.SnapshotIndex(leader.installedSnapshot) > C.MatchIndex(n) then n.(installedSnapshot := leader.installedSnapshot)
    else n
  }

  lemma CopyAppendsMore(n: C.Node, leader: C.Node, commit: LogIndex)
    requires AscendingLog(n.log) && AscendingLog(leader.log)
    ensures var based := Based(n, leader);
            var more := C.EntriesAbove(leader.log, C.MatchIndex(based));
            var copied := based.(log := n.log + more);
            C.CopyFromLeader(n, leader, commit) == C.AdvanceCommit(copied, Min(commit, C.MatchIndex(copied)))
  {
    var based := Based(n, leader);
    CopyIsAppend(n, leader, commit);
    AppendEntriesOnlyLog(based, C.EntriesAbove(leader.log, C.MatchIndex(based)));
    hide C.AppendEntries, C.EntriesAbove, C.MatchIndex;
  }

  lemma AdvancedIsCopied(n: C.Node, leader: C.Node, commit: LogIndex, more: seq<LogEntry>)
    requires n.replicaRole.Learner? && AscendingLog(n.log + more)
    requires forall e :: e in more <==> e in leader.log && e.logId.index > C.MatchIndex(Based(n, leader))
    ensures var copied := Based(n, leader).(log := n.log + more);
            Copied(n, leader, C.AdvanceCommit(copied, Min(commit, C.MatchIndex(copied))), commit)
  {
    assert (n.log + more)[..|n.log|] == n.log && (n.log + more)[|n.log|..] == more;
    assert C.MatchIndex(Based(n, leader)) == Max(C.MatchIndex(n), W.SnapshotIndex(leader.installedSnapshot));
  }

  lemma CopyIsExact(n: C.Node, leader: C.Node, commit: LogIndex)
    requires n.replicaRole.Learner? && AscendingLog(n.log) && AscendingLog(leader.log)
    ensures Copied(n, leader, C.CopyFromLeader(n, leader, commit), commit)
  {
    var based := Based(n, leader);
    AboveKeepsAscending(leader.log, C.MatchIndex(based));
    CopyIsAppend(n, leader, commit);
    hide C.AppendEntries, C.EntriesAbove, C.MatchIndex, Copied;
    CopyAppendsMore(n, leader, commit);
    AdvancedIsCopied(n, leader, commit, C.EntriesAbove(leader.log, C.MatchIndex(based)));
  }

  lemma LastOfJoined(a: seq<LogEntry>, more: seq<LogEntry>, log: seq<LogEntry>, floor: LogIndex)
    requires AscendingLog(log) && AscendingLog(a + more)
    requires forall e :: e in more <==> e in log && e.logId.index > floor
    ensures W.LastEntryIndex(a + more) == if W.LastEntryIndex(log) > floor then W.LastEntryIndex(log) else W.LastEntryIndex(a)
  {
    if more == [] {
      assert a + more == a;
      assert forall e :: e in log ==> e.logId.index <= floor;
    } else {
      var e := more[|more| - 1];
      assert e in more && (a + more)[|a + more| - 1] == e;
      LastIsGreatest(log, e);
      assert log[|log| - 1] in more;
      LastIsGreatest(a + more, log[|log| - 1]);
    }
  }

  lemma MatchOf(n: C.Node)
    ensures C.MatchIndex(n) == Max(W.LastEntryIndex(n.log), W.SnapshotIndex(n.installedSnapshot))
  {
  }

  /** The log and the snapshot of the learner, out of what it copied. */
  lemma CopiedLog(n: C.Node, leader: C.Node, m: C.Node, commit: LogIndex)
    requires Copied(n, leader, m, commit) && AscendingLog(leader.log)
    ensures var floor := Max(C.MatchIndex(n), W.SnapshotIndex(leader.installedSnapshot));
            W.LastEntryIndex(m.log)
            == if W.LastEntryIndex(leader.log) > floor then W.LastEntryIndex(leader.log) else W.LastEntryIndex(n.log)
    ensures W.SnapshotIndex(m.installedSnapshot)
            == if W.SnapshotIndex(leader.installedSnapshot) > C.MatchIndex(n) then W.SnapshotIndex(leader.installedSnapshot)
               else W.SnapshotIndex(n.installedSnapshot)
  {
    var more := m.log[|n.log|..];
    assert m.log == n.log + more;
    hide AscendingLog, W.LastEntryIndex, C.MatchIndex;
    LastOfJoined(n.log, more, leader.log, Max(C.MatchIndex(n), W.SnapshotIndex(leader.installedSnapshot)));
  }

  /** It then matches as far as the leader or itself did. */
  lemma CopiedMatch(n: C.Node, leader: C.Node, m: C.Node, commit: LogIndex)
    requires Copied(n, leader, m, commit) && AscendingLog(leader.log)
    ensures C.MatchIndex(m) == Max(C.MatchIndex(n), C.MatchIndex(leader))
  {
    hide Copied, AscendingLog, W.LastEntryIndex, W.SnapshotIndex, C.MatchIndex;
    CopiedLog(n, leader, m, commit);
    MatchOf(n);
    MatchOf(leader);
    MatchOf(m);
  }

  lemma LastIsGreatest(log: seq<LogEntry>, e: LogEntry)
    requires AscendingLog(log) && e in log
    ensures e.logId.index <= W.LastEntryIndex(log)
  {
  }

  /** Main result: catching up succeeds exactly for a learner under a leader; then that node
      alone has copied from the leader, matches whatever either of them did, its pipeline is
      acknowledged up to there, and the report says so. */
  lemma CatchUpIsExact(s: C.Cluster, id: NodeId)
    requires Agrees(s)
    ensures var (t, r) := C.CatchUp(s, id);
            && (r.Ok? <==> s.leaderId.Some? && id in s.nodes && s.nodes[id].replicaRole.Learner?)
            && (r.Err? ==> t == s)
            && (r.Ok? ==> CaughtUpTo(s, t, id, r.value))
  {
    if C.CatchUp(s, id).1.Ok? {
      var leader := s.nodes[s.leaderId.value];
      assert NodeShape(s.nodes[id], id, s.leaderId, s.currentTerm);
      assert NodeShape(leader, s.leaderId.value, s.leaderId, s.currentTerm);
      var m := C.CopyFromLeader(s.nodes[id], leader, s.commitIndex);
      CopyIsExact(s.nodes[id], leader, s.commitIndex);
      CopiedMatch(s.nodes[id], leader, m, s.commitIndex);
      AcknowledgeReaches(s.pipelines[id], s.currentTerm, C.MatchIndex(m));
      RefreshKeepsNodes(C.CaughtUp(s, id));
      hide C.CopyFromLeader, C.Acknowledge, C.MatchIndex, Copied, Acknowledged, C.MaxCommit, C.MaxMatch, C.MinApplied, C.Keys;
    }
  }

  ghost predicate CaughtUpTo(s: C.Cluster, t: C.Cluster, id: NodeId, report: C.CatchUpReport)
    requires s.leaderId.Some? && s.leaderId.value in s.nodes && id in s.nodes
  {
    && id in t.nodes && id in s.pipelines && id in t.pipelines
    && t.nodes == s.nodes[id := t.nodes[id]] && t.pipelines == s.pipelines[id := t.pipelines[id]]
    && Copied(s.nodes[id], s.nodes[s.leaderId.value], t.nodes[id], s.commitIndex)
    && C.MatchIndex(t.nodes[id]) == Max(C.MatchIndex(s.nodes[id]), C.MatchIndex(s.nodes[s.leaderId.value]))
    && Acknowledged(s.pipelines[id], t.pipelines[id], C.MatchIndex(t.nodes[id]))
    && report == C.CatchUpReport(id, s.commitIndex, C.MatchIndex(s.nodes[id]), C.MatchIndex(t.nodes[id]),
                                 t.pipelines[id].status.matchIndex >= s.commitIndex)
  }

  lemma CatchUpKeepsCommit(s: C.Cluster, id: NodeId)
    requires Agrees(s) && CommitIsMax(s) && C.CatchUp(s, id).1.Ok?
    ensures C.CatchUp(s, id).0.commitIndex == s.commitIndex
  {
    CatchUpIsExact(s, id);
    CatchUpCommitsMore(s, id);
    var t := C.CatchUp(s, id).0;
    hide C.CatchUp, C.MatchIndex, Agrees, Acknowledged, AscendingLog;
    assert t.nodes[id].commitIndex <= s.commitIndex;
  }

  /** Main result: after catching up, a learner can be promoted exactly when it or the leader had
      matched the commit index. */
  lemma CaughtUpIsPromotable(s: C.Cluster, id: NodeId)
    requires Agrees(s) && CommitIsMax(s) && C.CatchUp(s, id).1.Ok?
    ensures C.PromotePeer(C.CatchUp(s, id).0, id).1.Ok?
            <==> Max(C.MatchIndex(s.nodes[id]), C.MatchIndex(s.nodes[s.leaderId.value])) >= s.commitIndex
  {
    hide C.CatchUp, C.MatchIndex, C.PromotePeer, Agrees, CommitIsMax, Copied, Acknowledged;
    CatchUpIsExact(s, id);
    CatchUpKeepsCommit(s, id);
    ClusterSteps.PromoteIsExact(C.CatchUp(s, id).0, id);
  }
}
