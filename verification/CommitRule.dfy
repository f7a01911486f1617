/** The commit rule: sorting and indexing the match indices of the live participants
    finds the greatest index that enough of them have, and the cluster commit index is
    the greatest of the nodes and never goes down, unless the only node at it is removed. */
module CommitRule {
  import opened Types
  import opened Ordering
  import opened ClusterRuns
  import C = ClusterModel
  import P = PipelineModel

  /** The live participants that have matched at least up to index k. */
  function LiveAt(s: C.Cluster, k: LogIndex): set<NodeId> {
    set id | id in s.nodes && C.Live(s.nodes[id]) && C.MatchIndex(s.nodes[id]) >= k
  }

  /** Enough live participants have index k: a quorum of them or, when fewer are live, all. */
  ghost predicate Backed(s: C.Cluster, k: LogIndex) {
    |LiveAt(s, k)| >= Min(C.QuorumSize(s), |C.LiveParticipants(s)|)
  }

  /** The greatest of the old commit index and the backed indices. */
  ghost predicate GreatestBacked(s: C.Cluster, commit: LogIndex) {
    && commit >= s.commitIndex
    && (commit == s.commitIndex || Backed(s, commit))
    && forall k: LogIndex :: Backed(s, k) ==> k <= commit
  }

  // ----- Counting -----

  function LiveAmong(nodes: map<NodeId, C.Node>, keys: seq<NodeId>, k: LogIndex): set<NodeId>
    requires forall id :: id in keys ==> id in nodes
  {
    set id | id in keys && C.Live(nodes[id]) && C.MatchIndex(nodes[id]) >= k
  }

  lemma {:induction false} MatchesCountNodes(nodes: map<NodeId, C.Node>, keys: seq<NodeId>, k: LogIndex)
    requires Ascending(keys) && forall id :: id in keys ==> id in nodes
    ensures CountAtLeast(C.LiveMatches(nodes, keys), k) == |LiveAmong(nodes, keys, k)|
    ensures |C.LiveMatches(nodes, keys)| == |LiveAmong(nodes, keys, 0)|
  {
    if keys == [] {
      assert LiveAmong(nodes, keys, k) == {} && LiveAmong(nodes, keys, 0) == {};
    } else {
      MatchesCountNodes(nodes, keys[1..], k);
      AddOneKey(nodes, keys, k);
      AddOneKey(nodes, keys, 0);
      var n := nodes[keys[0]];
      var rest := C.LiveMatches(nodes, keys[1..]);
      if C.Live(n) {
        assert ([C.MatchIndex(n)] + rest)[1..] == rest;
      } else {
        assert [] + rest == rest;
      }
      hide C.MatchIndex, C.Live, LiveAmong;
    }
  }

  lemma AddOneKey(nodes: map<NodeId, C.Node>, keys: seq<NodeId>, k: LogIndex)
    requires keys != [] && Ascending(keys) && forall id :: id in keys ==> id in nodes
    ensures |LiveAmong(nodes, keys, k)|
            == |LiveAmong(nodes, keys[1..], k)|
               + if C.Live(nodes[keys[0]]) && C.MatchIndex(nodes[keys[0]]) >= k then 1 else 0
  {
    var a, rest := LiveAmong(nodes, keys, k), LiveAmong(nodes, keys[1..], k);
    assert keys == [keys[0]] + keys[1..];
    assert keys[0] !in keys[1..];
    if C.Live(nodes[keys[0]]) && C.MatchIndex(nodes[keys[0]]) >= k {
      assert a == rest + {keys[0]};
    } else {
      assert a == rest;
    }
  }

  lemma LiveMatchesCount(s: C.Cluster, k: LogIndex)
    ensures CountAtLeast(C.LiveMatches(s.nodes, C.Keys(s)), k) == |LiveAt(s, k)|
    ensures |C.LiveMatches(s.nodes, C.Keys(s))| == |C.LiveParticipants(s)|
  {
    MatchesCountNodes(s.nodes, C.Keys(s), k);
    assert LiveAt(s, k) == LiveAmong(s.nodes, C.Keys(s), k);
    assert C.LiveParticipants(s) == LiveAmong(s.nodes, C.Keys(s), 0);
  }

  lemma SortPicks(matches: seq<nat>, quorum: nat, k: nat)
    requires matches != [] && quorum >= 1
    ensures CountAtLeast(matches, k) >= Min(quorum, |matches|) <==> k <= Sort(matches)[SatSub(|matches|, quorum)]
  {
    NthLargest(matches, Min(quorum, |matches|), k);
    hide Sort, CountAtLeast;
  }

  lemma QuorumIndexFound(s: C.Cluster)
    ensures C.QuorumIndex(s).None? <==> C.LiveParticipants(s) == {}
  {
    LiveMatchesCount(s, 0);
    var matches := C.LiveMatches(s.nodes, C.Keys(s));
    hide C.LiveMatches, C.Keys, C.QuorumSize, LiveAt, C.LiveParticipants, Sort;
    assert matches == [] <==> |C.LiveParticipants(s)| == 0;
  }

  /** The index found by sorting is the greatest backed one. */
  lemma QuorumIndexIsGreatestBacked(s: C.Cluster, k: LogIndex)
    ensures C.QuorumIndex(s).None? <==> C.LiveParticipants(s) == {}
    ensures C.QuorumIndex(s).Some? ==> (Backed(s, k) <==> k <= C.QuorumIndex(s).value)
  {
    QuorumIndexFound(s);
    var matches := C.LiveMatches(s.nodes, C.Keys(s));
    if matches != [] {
      LiveMatchesCount(s, k);
      assert C.QuorumSize(s) >= 1;
      SortPicks(matches, C.QuorumSize(s), k);
    }
    hide C.LiveMatches, C.Keys, C.QuorumSize, LiveAt, C.LiveParticipants, Sort, CountAtLeast;
  }

  // ----- The cluster commit index is the greatest of the nodes -----

  ghost predicate CommitIsMax(s: C.Cluster) {
    && (forall id :: id in s.nodes ==> s.nodes[id].commitIndex <= s.commitIndex)
    && (s.commitIndex == 0 || exists id :: id in s.nodes && s.nodes[id].commitIndex == s.commitIndex)
  }

  /** No node is gone and none committed less. */
  ghost predicate NodesCommitMore(s: C.Cluster, t: C.Cluster) {
    forall id :: id in s.nodes ==> id in t.nodes && t.nodes[id].commitIndex >= s.nodes[id].commitIndex
  }

  lemma RefreshedCommitIsMax(s: C.Cluster)
    ensures CommitIsMax(C.RefreshIndexes(s))
  {
    MaxCommitIsMax(s.nodes, C.Keys(s));
  }

  lemma CommitGrows(s: C.Cluster, t: C.Cluster)
    requires CommitIsMax(s) && CommitIsMax(t) && NodesCommitMore(s, t)
    ensures t.commitIndex >= s.commitIndex
  {
  }

  lemma AdvanceAllCommits(nodes: map<NodeId, C.Node>, index: LogIndex, id: NodeId)
    requires id in nodes
    ensures var n := nodes[id];
            C.AdvanceAll(nodes, index)[id].commitIndex
            == if n.healthy then Max(n.commitIndex, Min(index, C.MatchIndex(n))) else n.commitIndex
  {
  }

  /** Some node has reached the target and none is past it. */
  ghost predicate ReachesExactly(nodes: map<NodeId, C.Node>, to: LogIndex) {
    && (forall id :: id in nodes ==> nodes[id].commitIndex <= to)
    && (to == 0 || exists id :: id in nodes && nodes[id].commitIndex == to)
  }

  lemma AdvanceReaches(s: C.Cluster, index: LogIndex, to: LogIndex)
    requires CommitIsMax(s) && to == Max(s.commitIndex, index)
    requires exists id :: id in s.nodes && s.nodes[id].healthy && C.MatchIndex(s.nodes[id]) >= index
    ensures ReachesExactly(C.AdvanceAll(s.nodes, to), to)
    ensures NodesCommitMore(s, s.(nodes := C.AdvanceAll(s.nodes, to)))
  {
    var nodes := C.AdvanceAll(s.nodes, to);
    forall id | id in s.nodes
      ensures s.nodes[id].commitIndex <= nodes[id].commitIndex <= to
      ensures s.nodes[id].healthy && C.MatchIndex(s.nodes[id]) >= to ==> nodes[id].commitIndex == to
      ensures s.nodes[id].commitIndex == to ==> nodes[id].commitIndex == to
    {
      AdvanceAllCommits(s.nodes, to, id);
    }
    hide C.AdvanceAll, C.MatchIndex;
    if index >= s.commitIndex {
      var id :| id in s.nodes && s.nodes[id].healthy && C.MatchIndex(s.nodes[id]) >= index;
      assert nodes[id].commitIndex == to;
    } else {
      var id :| id in s.nodes && s.nodes[id].commitIndex == s.commitIndex;
      assert nodes[id].commitIndex == to;
    }
  }

  lemma RefreshedReachesExactly(s: C.Cluster, to: LogIndex)
    requires ReachesExactly(s.nodes, to)
    ensures C.RefreshIndexes(s).commitIndex == to && C.RefreshIndexes(s).nodes == s.nodes
  {
    MaxCommitIsMax(s.nodes, C.Keys(s));
    hide C.MaxCommit, C.MaxMatch, C.MinApplied, C.Keys;
  }

  lemma AdvancedTo(s: C.Cluster, index: LogIndex, to: LogIndex)
    requires CommitIsMax(s) && to == Max(s.commitIndex, index)
    requires exists id :: id in s.nodes && s.nodes[id].healthy && C.MatchIndex(s.nodes[id]) >= index
    ensures var t := C.RefreshIndexes(s.(nodes := C.AdvanceAll(s.nodes, to)));
            CommitIsMax(t) && NodesCommitMore(s, t) && t.commitIndex == to
  {
    var u := s.(nodes := C.AdvanceAll(s.nodes, to));
    AdvanceReaches(s, index, to);
    RefreshedReachesExactly(u, to);
    RefreshedCommitIsMax(u);
    hide C.RefreshIndexes, C.AdvanceAll, C.MatchIndex, ReachesExactly, CommitIsMax;
  }

  lemma RefreshCommitTo(s: C.Cluster)
    requires CommitIsMax(s) && C.QuorumIndex(s).Some?
    ensures var t := C.RefreshCommit(s);
            CommitIsMax(t) && NodesCommitMore(s, t) && t.commitIndex == Max(s.commitIndex, C.QuorumIndex(s).value)
  {
    var index := C.QuorumIndex(s).value;
    SomeLiveNodeHas(s, index);
    AdvancedTo(s, index, Max(s.commitIndex, index));
    hide C.QuorumIndex, C.RefreshIndexes, C.AdvanceAll;
    assert s.(commitIndex := s.commitIndex) == s;
  }

  /** Main result: with a live participant, refreshing sets the commit index to the greatest
      of the old one and the backed indices; with none it changes nothing. */
  lemma CommitRuleIsExact(s: C.Cluster)
    requires CommitIsMax(s)
    ensures var t := C.RefreshCommit(s);
            && CommitIsMax(t) && NodesCommitMore(s, t)
            && (C.LiveParticipants(s) == {} ==> t == s)
            && (C.LiveParticipants(s) != {} ==>
                  GreatestBacked(s, t.commitIndex))
  {
    QuorumIndexIsGreatestBacked(s, 0);
    if C.QuorumIndex(s).Some? {
      RefreshCommitTo(s);
      GreatestBackedIs(s);
    }
    hide C.QuorumIndex, GreatestBacked, C.LiveParticipants, CommitIsMax, NodesCommitMore, C.RefreshIndexes, C.AdvanceAll;
  }

  lemma GreatestBackedIs(s: C.Cluster)
    requires C.QuorumIndex(s).Some?
    ensures GreatestBacked(s, Max(s.commitIndex, C.QuorumIndex(s).value))
  {
    hide C.QuorumIndex, Backed;
    forall k: LogIndex ensures Backed(s, k) <==> k <= C.QuorumIndex(s).value {
      QuorumIndexIsGreatestBacked(s, k);
    }
  }

  lemma BackedBelow(s: C.Cluster, low: LogIndex, high: LogIndex)
    requires low <= high && Backed(s, high)
    ensures Backed(s, low)
  {
    assert LiveAt(s, high) <= LiveAt(s, low);
    SubsetSize(LiveAt(s, high), LiveAt(s, low));
  }

  /** Refreshing commits an index exactly when it was committed or is backed. */
  lemma RefreshedReaches(s: C.Cluster, index: LogIndex)
    requires CommitIsMax(s) && C.LiveParticipants(s) != {}
    ensures C.RefreshCommit(s).commitIndex >= index <==> s.commitIndex >= index || Backed(s, index)
  {
    CommitRuleIsExact(s);
    hide C.RefreshCommit, CommitIsMax, Backed, C.LiveParticipants;
    var commit := C.RefreshCommit(s).commitIndex;
    if commit >= index && Backed(s, commit) {
      BackedBelow(s, index, commit);
    }
  }

  /** Some live participant has matched the index that the sort finds. */
  lemma SomeLiveNodeHas(s: C.Cluster, index: LogIndex)
    requires C.QuorumIndex(s) == Some(index)
    ensures exists id :: id in s.nodes && s.nodes[id].healthy && C.MatchIndex(s.nodes[id]) >= index
  {
    QuorumIndexIsGreatestBacked(s, index);
    assert Backed(s, index) && |C.LiveParticipants(s)| > 0;
    assert LiveAt(s, index) != {};
    var id :| id in LiveAt(s, index);
    assert id in s.nodes && s.nodes[id].healthy;
  }

  // ----- Every step but a removal -----

  /** The commit indices of nodes and cluster are as before; new nodes start at zero. */
  ghost predicate SameCommits(s: C.Cluster, t: C.Cluster) {
    && t.commitIndex == s.commitIndex
    && (forall id :: id in s.nodes ==> id in t.nodes && t.nodes[id].commitIndex == s.nodes[id].commitIndex)
    && (forall id :: id in t.nodes && id !in s.nodes ==> t.nodes[id].commitIndex == 0)
  }

  lemma CampaignSameCommits(s: C.Cluster, id: NodeId, forced: bool)
    ensures SameCommits(s, C.Campaign(s, id, forced).0)
  {
    RefreshPipelinesKeeps(C.Elected(s, id));
    hide C.RefreshPipelines;
  }

  lemma StartSameCommits(s: C.Cluster)
    ensures SameCommits(s, C.Start(s).0)
  {
    hide C.Campaign;
    var running := s.(running := true);
    match C.FirstElectable(s.nodes, C.Keys(s)) {
      case None =>
      case Some(id) => CampaignSameCommits(running, id, true);
    }
  }

  lemma ReplicatedSameCommits(s: C.Cluster, payload: Payload)
    requires Shape(s) && Bounded(s) && C.CanPropose(s, payload)
    ensures SameCommits(s, C.Replicated(s, payload).0)
  {
    ReplicatedAddsEntry(s, payload);
    hide *;
    EntryAddedSameCommits(s, C.Replicated(s, payload).0, C.ProposedEntry(s, payload));
  }

  lemma EntryAddedSameCommits(s: C.Cluster, t: C.Cluster, e: LogEntry)
    requires EntryAdded(s, t, e)
    ensures SameCommits(s, t)
  {
  }

  lemma ControlSameCommits(s: C.Cluster, step: Step)
    requires step.Start? || step.Stop? || step.SetLease? || step.SetHealthy? || step.Campaign? || step.Transfer? || step.Promote?
    ensures SameCommits(s, Next(s, step))
  {
    hide C.Campaign, C.Start, C.MatchIndex;
    match step {
      case Start => StartSameCommits(s);
      case Campaign(id, forced) => CampaignSameCommits(s, id, forced);
      case Transfer(id) => CampaignSameCommits(s, id, true);
      case _ =>
    }
  }

  lemma AddPeerSameCommits(s: C.Cluster, peer: C.Peer)
    ensures SameCommits(s, C.AddPeer(s, peer).0)
  {
    RefreshPipelinesKeeps(C.WithPeer(s, peer));
    hide C.RefreshPipelines, P.New;
  }

  lemma CatchUpCommitsMore(s: C.Cluster, id: NodeId)
    requires Shape(s) && CommitIsMax(s)
    ensures var t := C.CatchUp(s, id).0; CommitIsMax(t) && NodesCommitMore(s, t)
  {
    if C.CatchUp(s, id).1.Ok? {
      var n := C.CopyFromLeader(s.nodes[id], s.nodes[s.leaderId.value], s.commitIndex);
      CopyCommitsMore(s.nodes[id], s.nodes[s.leaderId.value], s.commitIndex);
      RefreshedCommitIsMax(C.CaughtUp(s, id));
      hide C.CopyFromLeader, C.Acknowledge, C.MaxCommit, C.MaxMatch, C.MinApplied, C.Keys, C.MatchIndex, Shape, CommitIsMax;
      ReplacedCommits(s, C.CatchUp(s, id).0, id, n);
    }
  }

  lemma ReplacedCommits(s: C.Cluster, t: C.Cluster, id: NodeId, n: C.Node)
    requires id in s.nodes && t.nodes == s.nodes[id := n] && n.commitIndex >= s.nodes[id].commitIndex
    ensures NodesCommitMore(s, t)
  {
  }

  lemma CopyCommitsMore(learner: C.Node, leader: C.Node, commit: LogIndex)
    ensures C.CopyFromLeader(learner, leader, commit).commitIndex >= learner.commitIndex
  {
    var behind := leader.installedSnapshot.Some? && leader.installedSnapshot.value.lastLogId.index > C.MatchIndex(learner);
    var based := if behind then learner.(installedSnapshot := leader.installedSnapshot) else learner;
    AppendEntriesOnlyLog(based, C.EntriesAbove(leader.log, C.MatchIndex(based)));
    hide C.AppendEntries, C.EntriesAbove, C.MatchIndex;
  }

  lemma {:induction false} AppendEntriesOnlyLog(n: C.Node, es: seq<LogEntry>)
    ensures var m := C.AppendEntries(n, es); m == n.(log := m.log)
    decreases |es|
  {
    if es != [] {
      AppendEntriesOnlyLog(C.AppendEntry(n, es[0]), es[1..]);
    }
  }

  lemma InstallCommitsMore(s: C.Cluster, id: NodeId, snapshot: Snapshot, fence: ApplySnapshotFence)
    requires CommitIsMax(s)
    ensures var t := C.InstallSnapshotTo(s, id, snapshot, fence).0; CommitIsMax(t) && NodesCommitMore(s, t)
  {
    if C.InstallSnapshotTo(s, id, snapshot, fence).1.Ok? {
      RefreshedCommitIsMax(C.Installed(s, id, snapshot.meta));
      hide C.MaxCommit, C.MaxMatch, C.MinApplied, C.RecordInstall, C.EntriesAbove;
    }
  }

  /** The commit index is again the greatest, and no node's went down. */
  ghost predicate CommitsHold(s: C.Cluster, t: C.Cluster) {
    CommitIsMax(t) && NodesCommitMore(s, t)
  }

  lemma SameCommitsHold(s: C.Cluster, t: C.Cluster)
    requires CommitIsMax(s) && SameCommits(s, t)
    ensures CommitsHold(s, t)
  {
  }

  lemma RefreshHolds(s: C.Cluster, r: C.Cluster)
    requires CommitIsMax(s) && SameCommits(s, r)
    ensures CommitsHold(s, C.RefreshCommit(r))
  {
    SameCommitsHold(s, r);
    assert CommitIsMax(r);
    CommitRuleIsExact(r);
    hide C.RefreshCommit, C.LiveParticipants, GreatestBacked, CommitIsMax;
  }

  lemma ProposeCommits(s: C.Cluster, payload: Payload)
    requires Shape(s) && Bounded(s) && CommitIsMax(s)
    ensures CommitsHold(s, C.Propose(s, payload).0)
  {
    if C.CanPropose(s, payload) {
      ReplicatedSameCommits(s, payload);
      hide C.Replicated, C.RefreshCommit, C.CanPropose, Shape, Bounded, SameCommits, CommitIsMax, CommitsHold, C.ProposedEntry;
      SameCommitsHold(s, C.Replicated(s, payload).0);
      RefreshHolds(s, C.Replicated(s, payload).0);
    } else {
      hide C.Replicated, C.CanPropose, C.RefreshCommit, C.ProposedEntry, Shape, Bounded;
    }
  }

  lemma CompactCommits(s: C.Cluster, index: LogIndex)
    requires CommitIsMax(s)
    ensures CommitsHold(s, C.CompactLogs(s, index))
  {
    RefreshedCommitIsMax(C.Compacted(s, index));
    hide C.MaxCommit, C.MaxMatch, C.MinApplied, C.Keys, C.EntriesAbove;
  }

  lemma StepHolds(s: C.Cluster, step: Step)
    requires Shape(s) && Bounded(s) && CommitIsMax(s) && !step.Remove?
    ensures CommitsHold(s, Next(s, step))
  {
    hide C.CatchUp, C.InstallSnapshotTo, C.AddPeer, C.Propose, C.CompactLogs, Shape, Bounded, CommitIsMax, SameCommits;
    hide C.Campaign, C.Start, C.Stop, C.SetHealthy, C.PromotePeer, C.TransferLeader;
    match step {
      case Propose(payload) => ProposeCommits(s, payload);
      case AddPeer(peer) => AddPeerSameCommits(s, peer); SameCommitsHold(s, C.AddPeer(s, peer).0);
      case CatchUp(id) => CatchUpCommitsMore(s, id);
      case InstallSnapshot(id, snapshot, fence) => InstallCommitsMore(s, id, snapshot, fence);
      case Compact(index) => CompactCommits(s, index);
      case Remove(_) =>
      case _ => ControlSameCommits(s, step); SameCommitsHold(s, Next(s, step));
    }
  }

  // ----- Removals -----

  /** Nothing is committed, or a node other than the one removed is at the commit index. */
  predicate RemovalKeepsCommit(s: C.Cluster, id: NodeId) {
    id in s.nodes ==> s.commitIndex == 0 || exists k :: k in s.nodes && k != id && s.nodes[k].commitIndex == s.commitIndex
  }

  /** A removal changes the commit index of no node and of the cluster, and the latter stays
      the greatest of the nodes exactly when another node is there at it: otherwise the next
      refresh takes it back. */
  lemma RemovalKeepsCommitExactly(s: C.Cluster, id: NodeId)
    requires CommitIsMax(s)
    ensures var t := C.RemovePeer(s, id).0;
            && t.commitIndex == s.commitIndex
            && (forall k :: k in t.nodes <==> k in s.nodes && k != id)
            && (forall k :: k in t.nodes ==> t.nodes[k] == s.nodes[k])
            && (CommitIsMax(t) <==> RemovalKeepsCommit(s, id))
  {
    if id in s.nodes {
      RefreshPipelinesKeeps(C.WithoutPeer(s, id));
    }
    hide C.RefreshPipelines;
  }

  /** What a caller must check for a commit index that never goes down: a removal must leave a
      node that is at it. */
  predicate KeepsCommit(s: C.Cluster, step: Step) {
    step.Remove? ==> RemovalKeepsCommit(s, step.id)
  }

  /** Every node of s but a removed one is in t, and committed no less. */
  ghost predicate OthersCommitMore(s: C.Cluster, step: Step, t: C.Cluster) {
    forall id :: id in s.nodes && step != Remove(id) ==> id in t.nodes && t.nodes[id].commitIndex >= s.nodes[id].commitIndex
  }

  /** A step keeps the commit index the greatest of the nodes exactly when it is not a removal
      of the only node at it; then it lowers neither it nor that of any node. */
  lemma StepCommits(s: C.Cluster, step: Step)
    requires Shape(s) && Bounded(s) && CommitIsMax(s)
    ensures CommitIsMax(Next(s, step)) <==> KeepsCommit(s, step)
    ensures Next(s, step).commitIndex >= s.commitIndex && OthersCommitMore(s, step, Next(s, step))
  {
    hide C.RemovePeer, CommitIsMax, RemovalKeepsCommit, Shape, Bounded;
    if step.Remove? {
      RemovalKeepsCommitExactly(s, step.id);
    } else {
      StepHolds(s, step);
      hide Next;
      CommitGrows(s, Next(s, step));
    }
  }

  // ----- No node is ever ahead of the cluster -----

  ghost predicate NoneAhead(s: C.Cluster) {
    forall id :: id in s.nodes ==> s.nodes[id].commitIndex <= s.commitIndex
  }

  lemma SameCommitsNoneAhead(s: C.Cluster, t: C.Cluster)
    requires NoneAhead(s) && SameCommits(s, t)
    ensures NoneAhead(t)
  {
  }

  lemma RefreshedNoneAhead(s: C.Cluster)
    ensures NoneAhead(C.RefreshIndexes(s)) && (NoneAhead(s) ==> NoneAhead(C.RefreshCommit(s)))
  {
    RefreshedCommitIsMax(s);
    if C.QuorumIndex(s).Some? {
      RefreshedCommitIsMax(s.(nodes := C.AdvanceAll(s.nodes, Max(s.commitIndex, C.QuorumIndex(s).value))));
    }
    hide C.QuorumIndex, C.AdvanceAll, C.RefreshIndexes;
  }

  lemma ProposeNoneAhead(s: C.Cluster, payload: Payload)
    requires Shape(s) && Bounded(s) && NoneAhead(s)
    ensures NoneAhead(C.Propose(s, payload).0)
  {
    hide C.Replicated, C.RefreshCommit, C.CanPropose, Shape, Bounded, SameCommits, C.ProposedEntry, NoneAhead;
    if C.CanPropose(s, payload) {
      ReplicatedSameCommits(s, payload);
      SameCommitsNoneAhead(s, C.Replicated(s, payload).0);
      RefreshedNoneAhead(C.Replicated(s, payload).0);
    }
  }

  lemma IndexStepsNoneAhead(s: C.Cluster, step: Step)
    requires NoneAhead(s) && (step.CatchUp? || step.InstallSnapshot? || step.Compact?)
    ensures NoneAhead(Next(s, step))
  {
    hide C.RefreshIndexes, NoneAhead, C.CaughtUp, C.Installed, C.Compacted, C.SnapshotAcceptable;
    match step {
      case CatchUp(id) => if C.CatchUp(s, id).1.Ok? { RefreshedNoneAhead(C.CaughtUp(s, id)); }
      case InstallSnapshot(id, snapshot, fence) =>
        if C.InstallSnapshotTo(s, id, snapshot, fence).1.Ok? { RefreshedNoneAhead(C.Installed(s, id, snapshot.meta)); }
      case Compact(index) => RefreshedNoneAhead(C.Compacted(s, index));
      case _ =>
    }
  }

  lemma RemoveNoneAhead(s: C.Cluster, id: NodeId)
    requires NoneAhead(s)
    ensures NoneAhead(C.RemovePeer(s, id).0)
  {
    if id in s.nodes {
      RefreshPipelinesKeeps(C.WithoutPeer(s, id));
    }
    hide C.RefreshPipelines;
  }

  /** Whatever the step, removals included, no node commits past the cluster. */
  lemma StepKeepsNoneAhead(s: C.Cluster, step: Step)
    requires Shape(s) && Bounded(s) && NoneAhead(s)
    ensures NoneAhead(Next(s, step))
  {
    hide C.CatchUp, C.InstallSnapshotTo, C.AddPeer, C.RemovePeer, C.Propose, C.CompactLogs, Shape, Bounded, NoneAhead, SameCommits;
    hide C.Campaign, C.Start, C.Stop, C.SetHealthy, C.PromotePeer, C.TransferLeader;
    match step {
      case Propose(payload) => ProposeNoneAhead(s, payload);
      case AddPeer(peer) => AddPeerSameCommits(s, peer); SameCommitsNoneAhead(s, C.AddPeer(s, peer).0);
      case Remove(id) => RemoveNoneAhead(s, id);
      case CatchUp(_) => IndexStepsNoneAhead(s, step);
      case InstallSnapshot(_, _, _) => IndexStepsNoneAhead(s, step);
      case Compact(_) => IndexStepsNoneAhead(s, step);
      case _ => ControlSameCommits(s, step); SameCommitsNoneAhead(s, Next(s, step));
    }
  }

  /** After a refresh with a live participant every healthy node has advanced to the new
      commit index, as far as it matched. */
  lemma RefreshAdvancesAll(s: C.Cluster)
    requires CommitIsMax(s) && C.LiveParticipants(s) != {}
    ensures var t := C.RefreshCommit(s); t.nodes == C.AdvanceAll(s.nodes, t.commitIndex)
  {
    QuorumIndexIsGreatestBacked(s, 0);
    RefreshCommitTo(s);
    RefreshKeepsNodes(s.(nodes := C.AdvanceAll(s.nodes, C.RefreshCommit(s).commitIndex)));
    hide C.QuorumIndex, C.AdvanceAll, C.RefreshIndexes, CommitIsMax, C.LiveParticipants;
  }

  lemma RefreshKeepsNodes(s: C.Cluster)
    ensures C.RefreshIndexes(s).nodes == s.nodes
  {
    hide C.MaxCommit, C.MaxMatch, C.MinApplied, C.Keys;
  }
}
