/** Appends from a remote leader: what an accepted request does to a contiguous log, when
    the node stays recoverable, and how a rejection repairs the next request. */
module AppendTheorems {
  import opened Types
  import opened ClusterRuns
  import opened CrashRecovery
  import CommitRule
  import C = ClusterModel
  import P = PipelineModel
  import W = WalModel

  function PrevIndex(r: C.AppendRequest): LogIndex {
    match r.prevLogId case Some(id) => id.index case None => 0
  }

  /** The request names positive ids and indices, and its entries follow each other and the
      previous entry. */
  predicate ValidRequest(r: C.AppendRequest) {
    && r.groupId > 0 && r.leaderId > 0
    && (r.prevLogId.Some? ==> r.prevLogId.value.index > 0)
    && forall i :: 0 <= i < |r.entries| ==> r.entries[i].logId.index == PrevIndex(r) + 1 + i
  }

  /** The loop that validates a request, keeping the index it expects next. */
  method ValidateRequest(r: C.AppendRequest) returns (passed: bool)
    ensures passed <==> ValidRequest(r)
  {
    passed := r.groupId > 0 && r.leaderId > 0;
    if r.prevLogId.Some? && r.prevLogId.value.index == 0 {
      passed := false;
    }
    var expected := if r.prevLogId.Some? then r.prevLogId.value.index + 1 else 1;
    ghost var headerOk := passed;
    for i := 0 to |r.entries|
      invariant passed ==> expected == PrevIndex(r) + 1 + i
      invariant passed <==> headerOk && forall j :: 0 <= j < i ==> r.entries[j].logId.index == PrevIndex(r) + 1 + j
    {
      var index := r.entries[i].logId.index;
      if index == 0 || index != expected {
        passed := false;
      }
      expected := index + 1;
    }
  }

  /** The log holds every index from the one after the snapshot. */
  ghost predicate Contiguous(n: C.Node) {
    forall i :: 0 <= i < |n.log| ==> n.log[i].logId.index == W.SnapshotIndex(n.installedSnapshot) + 1 + i
  }

  /** The entries up to an index, in order. */
  function UpTo(log: seq<LogEntry>, index: LogIndex): (r: seq<LogEntry>) {
    if log == [] then []
    else (if log[0].logId.index <= index then [log[0]] else []) + UpTo(log[1..], index)
  }

  lemma {:induction false} UpToIsPrefix(log: seq<LogEntry>, first: LogIndex, index: LogIndex)
    requires forall i :: 0 <= i < |log| ==> log[i].logId.index == first + i
    requires first <= index + 1 && index < first + |log|
    ensures UpTo(log, index) == log[..index + 1 - first]
  {
    if log != [] {
      forall i | 0 <= i < |log[1..]| ensures log[1..][i].logId.index == (first + 1) + i {
        assert log[1..][i] == log[i + 1];
      }
      if first <= index {
        UpToIsPrefix(log[1..], first + 1, index);
        assert [log[0]] + log[1..][..index - first] == log[..index + 1 - first];
      } else {
        NoneUpTo(log, index);
      }
    }
  }

  lemma {:induction false} NoneUpTo(log: seq<LogEntry>, index: LogIndex)
    requires forall i :: 0 <= i < |log| ==> log[i].logId.index > index
    ensures UpTo(log, index) == []
  {
    if log != [] {
      NoneUpTo(log[1..], index);
    }
  }

  lemma PositionInContiguous(log: seq<LogEntry>, first: LogIndex, index: LogIndex)
    requires forall i :: 0 <= i < |log| ==> log[i].logId.index == first + i
    requires first <= index <= first + |log|
    ensures C.PositionOf(log, index) == index - first
  {
    assert index - first < |log| ==> log[index - first].logId.index == index;
  }

  lemma AppendToContiguous(n: C.Node, prev: LogIndex, es: seq<LogEntry>)
    requires Contiguous(n) && es != []
    requires var floor := W.SnapshotIndex(n.installedSnapshot); floor <= prev <= floor + |n.log|
    requires forall i :: 0 <= i < |es| ==> es[i].logId.index == prev + 1 + i
    ensures C.AppendEntries(n, es) == n.(log := UpTo(n.log, prev) + es)
    ensures Contiguous(C.AppendEntries(n, es))
  {
    var floor := W.SnapshotIndex(n.installedSnapshot);
    UpToIsPrefix(n.log, floor + 1, prev);
    var kept := n.log[..prev - floor];
    PositionInContiguous(n.log, floor + 1, prev + 1);
    var m := C.AppendEntry(n, es[0]);
    assert m == n.(log := kept + [es[0]]);
    hide C.AppendEntry, UpTo, C.PositionOf;
    assert m.log + es[1..] == kept + es;
    ConsecutiveAscends(kept + es, floor + 1);
    AppendManyPastEnd(m, es[1..]);
  }

  lemma ConsecutiveAscends(log: seq<LogEntry>, first: LogIndex)
    requires forall i :: 0 <= i < |log| ==> log[i].logId.index == first + i
    ensures AscendingLog(log)
  {
  }

  /** Main result: a valid request with entries, accepted by a node that stores entries and
      whose log is contiguous down to at most the previous index, leaves the old entries up
      to that index followed by the new ones, again contiguous and matched exactly up to the
      last new entry. A recoverable node stays so exactly when it had not committed past
      that entry. */
  lemma AcceptedAppendIsExact(n: C.Node, r: C.AppendRequest)
    requires ValidRequest(r) && r.entries != [] && !C.RefusesAppend(n, r)
    requires n.replicaRole.CanServeData() && Contiguous(n)
    requires W.SnapshotIndex(n.installedSnapshot) <= PrevIndex(r)
    ensures var m := C.AcceptAppend(n, r);
            && m.log == UpTo(n.log, PrevIndex(r)) + r.entries
            && Contiguous(m)
            && C.MatchIndex(m) == PrevIndex(r) + |r.entries|
            && m.commitIndex == Max(n.commitIndex, Min(r.leaderCommit, C.MatchIndex(m)))
            && (NodeSafe(n) ==> (NodeSafe(m) <==> n.commitIndex <= PrevIndex(r) + |r.entries|))
  {
    var demoted := n.(hardState := n.hardState.(currentTerm := r.term), raftRole := C.RestingRole(n.replicaRole));
    ContiguousMatch(n);
    AppendToContiguous(demoted, PrevIndex(r), r.entries);
    var appended := C.AppendEntries(demoted, r.entries);
    hide UpTo, C.AppendEntries;
    assert C.MatchIndex(appended) == PrevIndex(r) + |r.entries|;
  }

  lemma ContiguousMatch(n: C.Node)
    requires Contiguous(n)
    ensures C.MatchIndex(n) == W.SnapshotIndex(n.installedSnapshot) + |n.log|
  {
  }

  /** What an accepted request makes of a node: the term is taken, the node follows and keeps
      its vote, the commit index is raised as far as the leader has committed and the node
      matches, and applied with it when the node stores data. Without entries, and on a
      witness, the log stays. */
  ghost predicate Followed(n: C.Node, m: C.Node, r: C.AppendRequest) {
    && m.hardState.currentTerm == r.term && m.hardState.votedFor == n.hardState.votedFor
    && m.raftRole == (if n.replicaRole.Learner? then LearnerRole else FollowerRole)
    && m.commitIndex == Max(n.commitIndex, Min(r.leaderCommit, C.MatchIndex(m)))
    && m.appliedIndex == (if n.replicaRole.Witness? then n.appliedIndex else Max(n.appliedIndex, m.commitIndex))
    && m.hardState.committed == (if m.commitIndex > 0 then Some(LogId(r.term, m.commitIndex)) else None)
    && (r.entries == [] || n.replicaRole.Witness? ==> m.log == n.log)
    && m == n.(hardState := m.hardState, raftRole := m.raftRole, commitIndex := m.commitIndex,
               appliedIndex := m.appliedIndex, log := m.log)
  }

  lemma AcceptFollows(n: C.Node, r: C.AppendRequest)
    ensures Followed(n, C.AcceptAppend(n, r), r)
  {
    var demoted := n.(hardState := n.hardState.(currentTerm := r.term), raftRole := C.RestingRole(n.replicaRole));
    CommitRule.AppendEntriesOnlyLog(demoted, r.entries);
    assert r.entries == [] ==> C.AppendEntries(demoted, r.entries) == demoted;
    hide C.AppendEntries, C.MatchIndex;
  }

  /** The answer to a request for a node of the group, and what is then left of the cluster. */
  ghost predicate Answered(s: C.Cluster, target: NodeId, r: C.AppendRequest, t: C.Cluster, a: AppendResponse)
    requires target in s.nodes
  {
    var n := s.nodes[target];
    && (a.success <==> r.term >= n.hardState.currentTerm && PrevIndex(r) <= C.MatchIndex(n))
    && (a.success ==>
          && t.nodes.Keys == s.nodes.Keys
          && Followed(n, t.nodes[target], r)
          && a == AppendResponse(r.term, true, C.MatchIndex(t.nodes[target]), None)
          && (forall k :: k in s.nodes && k != target ==> t.nodes[k] == s.nodes[k])
          && t == s.(nodes := t.nodes, commitIndex := t.commitIndex, appliedIndex := t.appliedIndex,
                     lastLogIndex := t.lastLogIndex))
    && (!a.success ==> t == s && a == AppendResponse(n.hardState.currentTerm, false, C.MatchIndex(n), Some(C.MatchIndex(n))))
  }

  /** Main result: a request to an unknown node or of another group is an error that changes
      nothing. Any other is answered with success exactly when its term is not stale and its
      previous index is matched, heartbeats and witnesses included; then that node alone has
      followed it and the answer carries its term and new match. */
  lemma AppendIsFollowedExactly(s: C.Cluster, target: NodeId, r: C.AppendRequest)
    ensures var (t, answer) := C.AppendEntriesTo(s, target, r);
            if target !in s.nodes then t == s && answer == Err(NodeNotFound(target))
            else if r.groupId != s.groupId then t == s && answer == Err(InvalidRequest)
            else answer.Ok? && Answered(s, target, r, t, answer.value)
  {
    if target in s.nodes && r.groupId == s.groupId {
      if C.RefusesAppend(s.nodes[target], r) {
        RefusedIsAnswered(s, target, r);
      } else {
        AcceptedIsAnswered(s, target, r);
      }
    }
    hide C.RefusesAppend, C.AcceptAppend, C.MatchIndex, C.RefreshIndexes, Answered;
  }

  lemma RefusedIsAnswered(s: C.Cluster, target: NodeId, r: C.AppendRequest)
    requires target in s.nodes && r.groupId == s.groupId && C.RefusesAppend(s.nodes[target], r)
    ensures var (t, answer) := C.AppendEntriesTo(s, target, r);
            answer.Ok? && Answered(s, target, r, t, answer.value)
  {
    hide C.AcceptAppend, C.MatchIndex, C.RefreshIndexes, Followed;
  }

  lemma AcceptedIsAnswered(s: C.Cluster, target: NodeId, r: C.AppendRequest)
    requires target in s.nodes && r.groupId == s.groupId && !C.RefusesAppend(s.nodes[target], r)
    ensures var (t, answer) := C.AppendEntriesTo(s, target, r);
            answer.Ok? && Answered(s, target, r, t, answer.value)
  {
    var n, m := s.nodes[target], C.AcceptAppend(s.nodes[target], r);
    var w := s.(nodes := s.nodes[target := m]);
    assert C.AppendEntriesTo(s, target, r)
           == (C.RefreshIndexes(w), Ok(AppendResponse(m.hardState.currentTerm, true, C.MatchIndex(m), None))) by {
      hide C.AcceptAppend, C.MatchIndex, C.RefreshIndexes;
    }
    assert r.term >= n.hardState.currentTerm && PrevIndex(r) <= C.MatchIndex(n);
    RefreshesOnly(w);
    AcceptFollows(n, r);
    FollowedMatch(n, m, r);
    hide *;
    AcceptedAnswers(s, target, r, m, C.RefreshIndexes(w));
  }

  lemma RefreshesOnly(s: C.Cluster)
    ensures var t := C.RefreshIndexes(s);
            t == s.(commitIndex := t.commitIndex, appliedIndex := t.appliedIndex, lastLogIndex := t.lastLogIndex)
  {
    hide C.MaxCommit, C.MaxMatch, C.MinApplied, C.Keys;
  }

  lemma AcceptedAnswers(s: C.Cluster, target: NodeId, r: C.AppendRequest, m: C.Node, t: C.Cluster)
    requires target in s.nodes && r.term >= s.nodes[target].hardState.currentTerm && PrevIndex(r) <= C.MatchIndex(s.nodes[target])
    requires Followed(s.nodes[target], m, r)
    requires var w := s.(nodes := s.nodes[target := m]);
             t == w.(commitIndex := t.commitIndex, appliedIndex := t.appliedIndex, lastLogIndex := t.lastLogIndex)
    ensures Answered(s, target, r, t, AppendResponse(r.term, true, C.MatchIndex(m), None))
  {
    hide Followed, C.MatchIndex, PrevIndex;
  }

  lemma FollowedMatch(n: C.Node, m: C.Node, r: C.AppendRequest)
    requires Followed(n, m, r)
    ensures m.hardState.currentTerm == r.term
  {
  }

  /** Delivering the same request again changes no entry. */
  lemma AppendIsIdempotent(n: C.Node, r: C.AppendRequest)
    requires ValidRequest(r) && !C.RefusesAppend(n, r)
    requires n.replicaRole.CanServeData() && Contiguous(n)
    requires W.SnapshotIndex(n.installedSnapshot) <= PrevIndex(r)
    ensures var m := C.AcceptAppend(n, r);
            !C.RefusesAppend(m, r) && C.AcceptAppend(m, r).log == m.log
  {
    var m := C.AcceptAppend(n, r);
    if r.entries != [] {
      AcceptedAppendIsExact(n, r);
      hide C.AcceptAppend, UpTo;
      assert m.replicaRole == n.replicaRole && m.installedSnapshot == n.installedSnapshot && m.hardState.currentTerm == r.term by {
        AcceptKeeps(n, r);
      }
      AcceptedAppendIsExact(m, r);
      UpToKept(n, m, r);
    }
  }

  lemma AcceptKeeps(n: C.Node, r: C.AppendRequest)
    ensures var m := C.AcceptAppend(n, r);
            m.replicaRole == n.replicaRole && m.installedSnapshot == n.installedSnapshot && m.hardState.currentTerm == r.term
  {
    CommitRule.AppendEntriesOnlyLog(n.(hardState := n.hardState.(currentTerm := r.term), raftRole := C.RestingRole(n.replicaRole)), r.entries);
    hide C.AppendEntries;
  }

  /** The entries up to the previous index of the new log are those of the old one. */
  lemma UpToKept(n: C.Node, m: C.Node, r: C.AppendRequest)
    requires Contiguous(n) && Contiguous(m) && m.installedSnapshot == n.installedSnapshot
    requires var floor := W.SnapshotIndex(n.installedSnapshot); floor <= PrevIndex(r) <= floor + |n.log|
    requires m.log == UpTo(n.log, PrevIndex(r)) + r.entries
    ensures UpTo(m.log, PrevIndex(r)) == UpTo(n.log, PrevIndex(r))
  {
    var floor := W.SnapshotIndex(n.installedSnapshot);
    UpToIsPrefix(n.log, floor + 1, PrevIndex(r));
    UpToIsPrefix(m.log, floor + 1, PrevIndex(r));
    hide UpTo;
    var kept := n.log[..PrevIndex(r) - floor];
    assert (kept + r.entries)[..|kept|] == kept;
  }

  /** Main result: when a node refuses a request, its answer makes the pipeline of the leader
      start the next request right after what the node has matched, and the node then refuses
      only a stale term. */
  lemma RejectionRepairsNext(n: C.Node, r: C.AppendRequest, p: P.Pipeline, next: C.AppendRequest)
    requires C.RefusesAppend(n, r)
    requires var response := AppendResponse(n.hardState.currentTerm, false, C.MatchIndex(n), Some(C.MatchIndex(n)));
             PrevIndex(next) == P.HandleAppendResponse(p, response).0.status.nextIndex - 1
    ensures C.RefusesAppend(n, next) <==> next.term < n.hardState.currentTerm
    ensures PrevIndex(next) == C.MatchIndex(n)
  {
  }

  /** The refusal itself is what the cluster answers, and it changes nothing. */
  lemma RefusalChangesNothing(s: C.Cluster, target: NodeId, r: C.AppendRequest)
    requires target in s.nodes && r.groupId == s.groupId
    ensures var n := s.nodes[target];
            var (t, answer) := C.AppendEntriesTo(s, target, r);
            answer.Ok?
            && (C.RefusesAppend(n, r) <==> !answer.value.success)
            && (C.RefusesAppend(n, r) ==>
                  t == s && answer.value == AppendResponse(n.hardState.currentTerm, false, C.MatchIndex(n), Some(C.MatchIndex(n))))
            && (!C.RefusesAppend(n, r) ==>
                  t.nodes == s.nodes[target := C.AcceptAppend(n, r)] && answer.value.matchIndex == C.MatchIndex(t.nodes[target])
                  && CommitRule.CommitIsMax(t))
  {
    hide C.AcceptAppend, C.MatchIndex, C.RefusesAppend, C.MaxCommit, C.MaxMatch, C.MinApplied;
    CommitRule.RefreshedCommitIsMax(s.(nodes := s.nodes[target := C.AcceptAppend(s.nodes[target], r)]));
  }

  /** Only the index of the previous entry is checked: its term may be anything. */
  lemma PreviousTermIsIgnored(s: C.Cluster, target: NodeId, r: C.AppendRequest, id: LogId, term: Term)
    requires r.prevLogId == Some(id)
    ensures C.AppendEntriesTo(s, target, r.(prevLogId := Some(LogId(term, id.index)))) == C.AppendEntriesTo(s, target, r)
  {
  }
}
