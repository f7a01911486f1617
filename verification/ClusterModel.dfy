/** The in-process Raft cluster as a value: what every operation does to it. The objects
    in Cluster.dfy are verified against these functions. */
module ClusterModel {
  import opened Types
  import opened Ordering
  import Members = MembershipModel
  import P = PipelineModel
  import W = WalModel

  datatype Node = Node(
    id: NodeId, replicaRole: ReplicaRole, raftRole: RaftRole, hardState: HardState,
    log: seq<LogEntry>, installedSnapshot: Option<SnapshotMeta>,
    commitIndex: LogIndex, appliedIndex: LogIndex, healthy: bool)

  datatype Config = Config(maxPayloadBytes: nat, enableLeaseRead: bool)

  datatype Peer = Peer(nodeId: NodeId, role: ReplicaRole)

  datatype Cluster = Cluster(
    groupId: GroupId, config: Config,
    nodes: map<NodeId, Node>, pipelines: map<NodeId, P.Pipeline>,
    leaderId: Option<NodeId>, currentTerm: Term,
    commitIndex: LogIndex, appliedIndex: LogIndex, lastLogIndex: LogIndex,
    running: bool, leaseValid: bool)

  // ----- Nodes -----

  function RestingRole(role: ReplicaRole): RaftRole {
    if role.Learner? then LearnerRole else FollowerRole
  }

  function NewNode(id: NodeId, role: ReplicaRole): Node {
    Node(id, role, RestingRole(role), HardState(0, None, None), [], None, 0, 0, true)
  }

  function MatchIndex(n: Node): LogIndex {
    Max(W.LastEntryIndex(n.log), W.SnapshotIndex(n.installedSnapshot))
  }

  /** The position of the first entry with an index, or the length. */
  function PositionOf(log: seq<LogEntry>, index: LogIndex): (p: nat)
    ensures p <= |log|
    ensures forall i :: 0 <= i < p ==> log[i].logId.index != index
    ensures p < |log| ==> log[p].logId.index == index
  {
    if log == [] || log[0].logId.index == index then 0
    else
      var p := 1 + PositionOf(log[1..], index);
      assert forall i :: 1 <= i < p ==> log[i] == log[1..][i - 1];
      p
  }

  /** Replaces the log from the first entry with the same index, or extends it. */
  function AppendEntry(n: Node, e: LogEntry): Node {
    n.(log := n.log[..PositionOf(n.log, e.logId.index)] + [e])
  }

  function AppendEntries(n: Node, es: seq<LogEntry>): Node
    decreases |es|
  {
    if es == [] then n else AppendEntries(AppendEntry(n, es[0]), es[1..])
  }

  function AdvanceCommit(n: Node, index: LogIndex): Node {
    var commit := Max(n.commitIndex, Min(index, MatchIndex(n)));
    n.(commitIndex := commit,
       appliedIndex := if n.replicaRole.CanServeData() then Max(n.appliedIndex, commit) else n.appliedIndex,
       hardState := n.hardState.(committed := if commit > 0 then Some(LogId(n.hardState.currentTerm, commit)) else None))
  }

  function EntriesAbove(log: seq<LogEntry>, index: LogIndex): seq<LogEntry> {
    if log == [] then []
    else (if log[0].logId.index > index then [log[0]] else []) + EntriesAbove(log[1..], index)
  }

  function InstallSnapshot(n: Node, s: SnapshotMeta): Node {
    var index := s.lastLogId.index;
    var commit := Max(n.commitIndex, index);
    n.(installedSnapshot := Some(s), log := EntriesAbove(n.log, index), commitIndex := commit,
       appliedIndex := if n.replicaRole.CanServeData() then Max(n.appliedIndex, index) else n.appliedIndex,
       hardState := n.hardState.(committed := Some(LogId(n.hardState.currentTerm, commit))))
  }

  function CompactLog(n: Node, index: LogIndex): Node {
    n.(log := EntriesAbove(n.log, index))
  }

  /** The node after an election won by leader. */
  function Elect(n: Node, term: Term, leader: NodeId): Node {
    n.(hardState := n.hardState.(currentTerm := term, votedFor := Some(leader)),
       raftRole := if n.id == leader then LeaderRole else RestingRole(n.replicaRole))
  }

  // ----- Aggregates over the nodes -----

  predicate Live(n: Node) {
    n.healthy && n.replicaRole.ParticipatesInQuorum()
  }

  function MaxCommit(nodes: map<NodeId, Node>, keys: seq<NodeId>): LogIndex
    requires forall k :: k in keys ==> k in nodes
  {
    if keys == [] then 0 else Max(nodes[keys[0]].commitIndex, MaxCommit(nodes, keys[1..]))
  }

  function MaxMatch(nodes: map<NodeId, Node>, keys: seq<NodeId>): LogIndex
    requires forall k :: k in keys ==> k in nodes
  {
    if keys == [] then 0 else Max(MatchIndex(nodes[keys[0]]), MaxMatch(nodes, keys[1..]))
  }

  function MinApplied(nodes: map<NodeId, Node>, keys: seq<NodeId>): Option<LogIndex>
    requires forall k :: k in keys ==> k in nodes
  {
    if keys == [] then None
    else
      var n, rest := nodes[keys[0]], MinApplied(nodes, keys[1..]);
      if !n.replicaRole.CanServeData() then rest
      else Some(if rest.Some? then Min(n.appliedIndex, rest.value) else n.appliedIndex)
  }

  /** The match indices of the live participants, in key order. */
  function LiveMatches(nodes: map<NodeId, Node>, keys: seq<NodeId>): seq<nat>
    requires forall k :: k in keys ==> k in nodes
  {
    if keys == [] then []
    else (if Live(nodes[keys[0]]) then [MatchIndex(nodes[keys[0]])] else []) + LiveMatches(nodes, keys[1..])
  }

  /** The nodes with a given role, in key order. */
  function WithRole(nodes: map<NodeId, Node>, keys: seq<NodeId>, role: ReplicaRole): seq<NodeId>
    requires forall k :: k in keys ==> k in nodes
  {
    if keys == [] then []
    else (if nodes[keys[0]].replicaRole == role then [keys[0]] else []) + WithRole(nodes, keys[1..], role)
  }

  function Keys(s: Cluster): (keys: seq<NodeId>)
    ensures forall k :: k in keys <==> k in s.nodes
    ensures Ascending(keys)
  {
    SortedKeys(s.nodes.Keys)
  }

  function QuorumSize(s: Cluster): nat {
    |(set id | id in s.nodes && s.nodes[id].replicaRole.ParticipatesInQuorum())| / 2 + 1
  }

  function LiveParticipants(s: Cluster): set<NodeId> {
    set id | id in s.nodes && Live(s.nodes[id])
  }

  predicate HasLiveQuorum(s: Cluster) {
    |LiveParticipants(s)| >= QuorumSize(s)
  }

  function MembershipOf(s: Cluster): Members.Membership {
    Members.Membership(s.groupId, WithRole(s.nodes, Keys(s), Voter), WithRole(s.nodes, Keys(s), Learner),
                       WithRole(s.nodes, Keys(s), Witness), s.currentTerm)
  }

  function RefreshIndexes(s: Cluster): Cluster {
    s.(commitIndex := MaxCommit(s.nodes, Keys(s)),
       appliedIndex := MinApplied(s.nodes, Keys(s)).UnwrapOr(0),
       lastLogIndex := MaxMatch(s.nodes, Keys(s)))
  }

  /** The commit index that the live match indices allow, or None with no live participant.
      With fewer live participants than a quorum the subtraction stops at zero. */
  function QuorumIndex(s: Cluster): Option<LogIndex> {
    var matches := LiveMatches(s.nodes, Keys(s));
    if matches == [] then None else Some(Sort(matches)[SatSub(|matches|, QuorumSize(s))])
  }

  function Advanced(n: Node, index: LogIndex): Node {
    if n.healthy then AdvanceCommit(n, index) else n
  }

  function AdvanceAll(nodes: map<NodeId, Node>, index: LogIndex): map<NodeId, Node> {
    map id | id in nodes :: Advanced(nodes[id], index)
  }

  function RefreshCommit(s: Cluster): Cluster {
    match QuorumIndex(s)
    case None => s
    case Some(index) => RefreshIndexes(s.(nodes := AdvanceAll(s.nodes, Max(s.commitIndex, index))))
  }

  function Acknowledge(p: P.Pipeline, term: Term, index: LogIndex): P.Pipeline {
    P.HandleAppendResponse(p, AppendResponse(term, true, index, None)).0
  }

  /** The pipelines with a fresh one for every node that had none. */
  function Filled(nodes: map<NodeId, Node>, pipelines: map<NodeId, P.Pipeline>): (filled: map<NodeId, P.Pipeline>)
    ensures filled.Keys == nodes.Keys + pipelines.Keys
  {
    map id | id in nodes.Keys + pipelines.Keys ::
      if id in pipelines then pipelines[id] else P.New(MatchIndex(nodes[id]) + 1, P.DEFAULT_LIMITS)
  }

  function RefreshPipelines(s: Cluster): Cluster {
    var filled := Filled(s.nodes, s.pipelines);
    s.(pipelines :=
         if s.leaderId.Some? && s.leaderId.value in filled then
           filled[s.leaderId.value := Acknowledge(filled[s.leaderId.value], s.currentTerm, s.lastLogIndex)]
         else filled)
  }

  // ----- Lifecycle, elections and health -----

  function NewNodes(peers: seq<Peer>): map<NodeId, Node> {
    if peers == [] then map[]
    else
      var p := peers[|peers| - 1];
      NewNodes(peers[..|peers| - 1])[p.nodeId := NewNode(p.nodeId, p.role)]
  }

  function New(groupId: GroupId, config: Config, peers: seq<Peer>): Result<Cluster> {
    if peers == [] then Err(InvalidRequest)
    else if exists i, j :: 0 <= i < j < |peers| && peers[i].nodeId == peers[j].nodeId then Err(InvalidRequest)
    else
      var nodes := NewNodes(peers);
      if !exists id :: id in nodes && nodes[id].replicaRole.CanBeLeader() then Err(InvalidRequest)
      else
        Ok(Cluster(groupId, config, nodes, map id | id in nodes :: P.New(1, P.DEFAULT_LIMITS),
                   None, 0, 0, 0, 0, false, false))
  }

  /** The cluster after node id won an election. */
  function Elected(s: Cluster, id: NodeId): Cluster {
    var term := s.currentTerm + 1;
    s.(currentTerm := term, leaderId := Some(id), leaseValid := true,
       nodes := map k | k in s.nodes :: Elect(s.nodes[k], term, id))
  }

  function Campaign(s: Cluster, id: NodeId, forced: bool): (Cluster, Result<()>) {
    if !s.running && !forced then (s, Err(InvalidRequest))
    else if id !in s.nodes then (s, Err(NodeNotFound(id)))
    else if !s.nodes[id].replicaRole.CanBeLeader() || !s.nodes[id].healthy then (s, Err(InvalidRequest))
    else (RefreshPipelines(Elected(s, id)), Ok(()))
  }

  /** The first healthy node that can lead, in key order. */
  function FirstElectable(nodes: map<NodeId, Node>, keys: seq<NodeId>): Option<NodeId>
    requires forall k :: k in keys ==> k in nodes
  {
    if keys == [] then None
    else if nodes[keys[0]].replicaRole.CanBeLeader() && nodes[keys[0]].healthy then Some(keys[0])
    else FirstElectable(nodes, keys[1..])
  }

  function Start(s: Cluster): (Cluster, Result<()>) {
    var running := s.(running := true);
    if s.leaderId.Some? then (running, Ok(()))
    else
      match FirstElectable(s.nodes, Keys(s))
      case None => (running, Err(InvalidRequest))
      case Some(id) => Campaign(running, id, true)
  }

  function Stop(s: Cluster): Cluster {
    s.(running := false, leaseValid := false)
  }

  function SetHealthy(s: Cluster, id: NodeId, healthy: bool): (Cluster, Result<()>) {
    if id !in s.nodes then (s, Err(NodeNotFound(id)))
    else
      (s.(nodes := s.nodes[id := s.nodes[id].(healthy := healthy)],
          leaseValid := s.leaseValid && !(s.leaderId == Some(id) && !healthy)),
       Ok(()))
  }

  function TransferLeader(s: Cluster, id: NodeId): (Cluster, Result<()>) {
    if id !in s.nodes then (s, Err(NodeNotFound(id)))
    else if !s.nodes[id].replicaRole.CanBeLeader() || !s.nodes[id].healthy then (s, Err(InvalidRequest))
    else if MatchIndex(s.nodes[id]) < s.commitIndex then (s, Err(InvalidRequest))
    else Campaign(s, id, true)
  }

  // ----- Proposals -----

  /** The nodes and pipelines that replication works on. */
  datatype Replicas = Replicas(nodes: map<NodeId, Node>, pipelines: map<NodeId, P.Pipeline>)

  const FLUSH_ENTRIES := 64

  /** Replicates an entry to one node; false when its pipeline refuses the entry. */
  function ReplicateOne(r: Replicas, id: NodeId, leader: NodeId, e: LogEntry, maxBytes: nat): (Replicas, bool)
    requires id in r.nodes
  {
    var n := r.nodes[id];
    if id == leader then (r.(nodes := r.nodes[id := AppendEntry(n, e)]), true)
    else if !n.replicaRole.CanServeData() || id !in r.pipelines then (r, true)
    else
      var (queued, ok) := P.QueueAppend(r.pipelines[id], e);
      if !ok then (r.(pipelines := r.pipelines[id := queued]), false)
      else
        var flushed := P.FlushAppendBatch(queued, FLUSH_ENTRIES, maxBytes).0;
        if !n.healthy then (r.(pipelines := r.pipelines[id := flushed]), true)
        else
          var appended := AppendEntry(n, e);
          (Replicas(r.nodes[id := appended],
                    r.pipelines[id := Acknowledge(flushed, n.hardState.currentTerm, MatchIndex(appended))]),
           true)
  }

  /** Replicates an entry to the nodes in turn, stopping at the first refusal. */
  function ReplicateAll(r: Replicas, keys: seq<NodeId>, leader: NodeId, e: LogEntry, maxBytes: nat): (out: (Replicas, bool))
    requires forall k :: k in keys ==> k in r.nodes
    ensures out.0.nodes.Keys == r.nodes.Keys && out.0.pipelines.Keys == r.pipelines.Keys
    decreases |keys|
  {
    if keys == [] then (r, true)
    else
      var (next, ok) := ReplicateOne(r, keys[0], leader, e, maxBytes);
      assert next.nodes.Keys == r.nodes.Keys && next.pipelines.Keys == r.pipelines.Keys;
      if ok then ReplicateAll(next, keys[1..], leader, e, maxBytes) else (next, false)
  }

  predicate CanPropose(s: Cluster, payload: Payload) {
    && s.leaderId.Some? && s.running && |payload| <= s.config.maxPayloadBytes
    && s.leaderId.value in s.nodes && s.nodes[s.leaderId.value].healthy
  }

  function ProposalError(s: Cluster, payload: Payload): Error
    requires !CanPropose(s, payload)
  {
    if s.leaderId.None? then NoLeader
    else if !s.running || |payload| > s.config.maxPayloadBytes then InvalidRequest
    else if s.leaderId.value !in s.nodes then NodeNotFound(s.leaderId.value)
    else NotLeader(s.leaderId.value)
  }

  function ProposedEntry(s: Cluster, payload: Payload): LogEntry {
    LogEntry(LogId(s.currentTerm, s.lastLogIndex + 1), payload)
  }

  /** The cluster after an entry was offered to every node, and whether none refused. */
  function Offered(s: Cluster, leader: NodeId, e: LogEntry): (Cluster, bool) {
    var (r, ok) := ReplicateAll(Replicas(s.nodes, s.pipelines), Keys(s), leader, e, Max(s.config.maxPayloadBytes, 1));
    (s.(nodes := r.nodes, pipelines := r.pipelines, lastLogIndex := e.logId.index), ok)
  }

  function Replicated(s: Cluster, payload: Payload): (Cluster, bool)
    requires CanPropose(s, payload)
  {
    Offered(s, s.leaderId.value, ProposedEntry(s, payload))
  }

  function Propose(s: Cluster, payload: Payload): (Cluster, Result<LogId>) {
    if !CanPropose(s, payload) then (s, Err(ProposalError(s, payload)))
    else
      var (t, ok) := Replicated(s, payload);
      if ok then (RefreshCommit(t), Ok(ProposedEntry(s, payload).logId)) else (t, Err(InvalidRequest))
  }

  // ----- Appends from a remote leader -----

  datatype AppendRequest = AppendRequest(
    groupId: GroupId, term: Term, leaderId: NodeId, prevLogId: Option<LogId>,
    entries: seq<LogEntry>, leaderCommit: LogIndex)

  /** The node after it accepted a request. */
  function AcceptAppend(n: Node, r: AppendRequest): Node {
    var m := n.(hardState := n.hardState.(currentTerm := r.term), raftRole := RestingRole(n.replicaRole));
    AdvanceCommit(if n.replicaRole.CanServeData() then AppendEntries(m, r.entries) else m, r.leaderCommit)
  }

  predicate RefusesAppend(n: Node, r: AppendRequest) {
    r.term < n.hardState.currentTerm
    || (r.prevLogId.Some? && r.prevLogId.value.index > 0 && MatchIndex(n) < r.prevLogId.value.index)
  }

  function AppendEntriesTo(s: Cluster, target: NodeId, r: AppendRequest): (Cluster, Result<AppendResponse>) {
    if target !in s.nodes then (s, Err(NodeNotFound(target)))
    else if r.groupId != s.groupId then (s, Err(InvalidRequest))
    else
      var n := s.nodes[target];
      if RefusesAppend(n, r) then
        (s, Ok(AppendResponse(n.hardState.currentTerm, false, MatchIndex(n), Some(MatchIndex(n)))))
      else
        var m := AcceptAppend(n, r);
        (RefreshIndexes(s.(nodes := s.nodes[target := m])),
         Ok(AppendResponse(m.hardState.currentTerm, true, MatchIndex(m), None)))
  }

  // ----- Membership -----

  function WithPeer(s: Cluster, p: Peer): Cluster {
    s.(nodes := s.nodes[p.nodeId := NewNode(p.nodeId, p.role)],
       pipelines := s.pipelines[p.nodeId := P.New(s.lastLogIndex + 1, P.DEFAULT_LIMITS)])
  }

  function AddPeer(s: Cluster, p: Peer): (Cluster, Result<()>) {
    if p.nodeId in s.nodes then (s, Err(InvalidRequest))
    else (RefreshPipelines(WithPeer(s, p)), Ok(()))
  }

  function PromotePeer(s: Cluster, id: NodeId): (Cluster, Result<()>) {
    if id !in s.nodes then (s, Err(NodeNotFound(id)))
    else if MatchIndex(s.nodes[id]) < s.commitIndex then (s, Err(InvalidRequest))
    else (s.(nodes := s.nodes[id := s.nodes[id].(replicaRole := Voter, raftRole := FollowerRole)]), Ok(()))
  }

  function WithoutPeer(s: Cluster, id: NodeId): Cluster {
    var leads := s.leaderId == Some(id);
    s.(nodes := s.nodes - {id}, pipelines := s.pipelines - {id},
       leaderId := if leads then None else s.leaderId, leaseValid := s.leaseValid && !leads)
  }

  function RemovePeer(s: Cluster, id: NodeId): (Cluster, Result<()>) {
    if id !in s.nodes then (s, Err(NodeNotFound(id)))
    else (RefreshPipelines(WithoutPeer(s, id)), Ok(()))
  }

  // ----- Catching up, snapshots and compaction -----

  /** The learner after it copied the snapshot and the newer entries of the leader. */
  function CopyFromLeader(learner: Node, leader: Node, commit: LogIndex): Node {
    var behind := leader.installedSnapshot.Some? && leader.installedSnapshot.value.lastLogId.index > MatchIndex(learner);
    var based := if behind then learner.(installedSnapshot := leader.installedSnapshot) else learner;
    var copied := AppendEntries(based, EntriesAbove(leader.log, MatchIndex(based)));
    AdvanceCommit(copied, Min(commit, MatchIndex(copied)))
  }

  /** The cluster after learner id copied from the leader, before its indices are refreshed. */
  function CaughtUp(s: Cluster, id: NodeId): Cluster
    requires s.leaderId.Some? && s.leaderId.value in s.nodes && id in s.nodes
  {
    var n := CopyFromLeader(s.nodes[id], s.nodes[s.leaderId.value], s.commitIndex);
    s.(nodes := s.nodes[id := n],
       pipelines := if id in s.pipelines then
                      s.pipelines[id := Acknowledge(s.pipelines[id], s.currentTerm, MatchIndex(n))]
                    else s.pipelines)
  }

  /** What catching up reports; caughtUp is what the pipeline has matched, or the node itself
      when it has none. */
  datatype CatchUpReport = CatchUpReport(
    learnerId: NodeId, leaderCommit: LogIndex, matchBefore: LogIndex, matchAfter: LogIndex, caughtUp: bool)

  function ReportCatchUp(s: Cluster, id: NodeId): CatchUpReport
    requires s.leaderId.Some? && s.leaderId.value in s.nodes && id in s.nodes
  {
    var t := CaughtUp(s, id);
    var after := MatchIndex(t.nodes[id]);
    CatchUpReport(id, s.commitIndex, MatchIndex(s.nodes[id]), after,
                  (if id in t.pipelines then t.pipelines[id].status.matchIndex else after) >= s.commitIndex)
  }

  function CatchUp(s: Cluster, id: NodeId): (Cluster, Result<CatchUpReport>) {
    if s.leaderId.None? then (s, Err(NoLeader))
    else if s.leaderId.value !in s.nodes then (s, Err(NodeNotFound(s.leaderId.value)))
    else if id !in s.nodes then (s, Err(NodeNotFound(id)))
    else if s.nodes[id].replicaRole != Learner then (s, Err(InvalidRequest))
    else (RefreshIndexes(CaughtUp(s, id)), Ok(ReportCatchUp(s, id)))
  }

  predicate SnapshotAcceptable(s: Cluster, snapshot: Snapshot, fence: ApplySnapshotFence) {
    var index := snapshot.meta.lastLogId.index;
    && snapshot.groupId == s.groupId && fence.installedSnapshotIndex == index
    && (fence.firstRetainedLogIndex > 0 ==> fence.firstRetainedLogIndex > index)
  }

  /** Marks a snapshot of one chunk as installed through a pipeline. */
  function RecordInstall(p: P.Pipeline, index: LogIndex): P.Pipeline {
    P.ReceiveChunk(P.BeginTransfer(p, false, index, 1).0, true).0
  }

  /** The cluster after a snapshot was installed on a node, before its indices are refreshed. */
  function Installed(s: Cluster, target: NodeId, meta: SnapshotMeta): Cluster
    requires target in s.nodes
  {
    s.(nodes := s.nodes[target := InstallSnapshot(s.nodes[target], meta)],
       pipelines := if target in s.pipelines then
                      s.pipelines[target := RecordInstall(s.pipelines[target], meta.lastLogId.index)]
                    else s.pipelines)
  }

  function InstallSnapshotTo(s: Cluster, target: NodeId, snapshot: Snapshot, fence: ApplySnapshotFence)
    : (Cluster, Result<()>)
  {
    if snapshot.groupId != s.groupId then (s, Err(InvalidRequest))
    else if !SnapshotAcceptable(s, snapshot, fence) then (s, Err(Storage))
    else if target !in s.nodes then (s, Err(NodeNotFound(target)))
    else (RefreshIndexes(Installed(s, target, snapshot.meta)), Ok(()))
  }

  function Compacted(s: Cluster, index: LogIndex): Cluster {
    s.(nodes := map id | id in s.nodes :: CompactLog(s.nodes[id], index))
  }

  /** How many entries compaction removes from the listed nodes. */
  function Removed(nodes: map<NodeId, Node>, keys: seq<NodeId>, index: LogIndex): nat
    requires forall k :: k in keys ==> k in nodes
  {
    if keys == [] then 0
    else
      var n := |keys| - 1;
      Removed(nodes, keys[..n], index)
      + SatSub(|nodes[keys[n]].log|, |CompactLog(nodes[keys[n]], index).log|)
  }

  function CompactLogs(s: Cluster, index: LogIndex): Cluster {
    RefreshIndexes(Compacted(s, index))
  }

  // ----- Write-ahead log records -----

  function WalRecordFor(s: Cluster, h: W.Hash, id: NodeId): Result<W.WalRecord> {
    if id !in s.nodes then Err(NodeNotFound(id))
    else
      var n := s.nodes[id];
      var floor := W.SnapshotIndex(n.installedSnapshot);
      var first := if floor > 0 then floor + 1 else if n.log == [] then 0 else n.log[0].logId.index;
      Ok(W.Sealed(h, W.WalRecord(s.groupId, id, n.hardState, MembershipOf(s), n.log, n.installedSnapshot,
                                 ApplySnapshotFence(n.appliedIndex, n.commitIndex, floor, first), "")))
  }

  function RestoreNode(n: Node, r: W.WalRecord): Node {
    n.(hardState := r.hardState, log := r.entries, installedSnapshot := r.installedSnapshot,
       commitIndex := r.fence.commitIndex, appliedIndex := r.fence.appliedIndex)
  }

  /** The cluster after a node took over a record, before anything is refreshed. */
  function Recovered(s: Cluster, r: W.WalRecord): Cluster
    requires r.nodeId in s.nodes
  {
    var n := RestoreNode(s.nodes[r.nodeId], r);
    s.(nodes := s.nodes[r.nodeId := n], currentTerm := Max(s.currentTerm, n.hardState.currentTerm),
       lastLogIndex := Max(s.lastLogIndex, MatchIndex(n)))
  }

  function RestoreWalRecord(s: Cluster, r: W.WalRecord): (Cluster, Result<()>) {
    if r.groupId != s.groupId then (s, Err(InvalidRequest))
    else if r.nodeId !in s.nodes then (s, Err(NodeNotFound(r.nodeId)))
    else (RefreshPipelines(RefreshIndexes(Recovered(s, r))), Ok(()))
  }

  // ----- Reads -----

  datatype ReadRequest = ReadRequest(groupId: GroupId, requesterId: NodeId, minCommitIndex: LogIndex, allowLease: bool)

  datatype ReadResponse = ReadResponse(safe: bool, readIndex: LogIndex, leaseRead: bool)

  function ReadIndex(s: Cluster, r: ReadRequest): Result<ReadResponse> {
    if r.groupId != s.groupId then Err(InvalidRequest)
    else if r.requesterId !in s.nodes then Err(NodeNotFound(r.requesterId))
    else
      var n := s.nodes[r.requesterId];
      if !n.healthy || !HasLiveQuorum(s) || r.minCommitIndex > n.appliedIndex then
        Ok(ReadResponse(false, n.commitIndex, false))
      else
        Ok(ReadResponse(true, n.commitIndex,
                        r.allowLease && s.config.enableLeaseRead && s.leaderId == Some(r.requesterId) && s.leaseValid))
  }

  /** The listed nodes that are healthy. */
  function HealthyAmong(nodes: map<NodeId, Node>, ids: seq<NodeId>): seq<NodeId> {
    if ids == [] then []
    else (if ids[0] in nodes && nodes[ids[0]].healthy then [ids[0]] else []) + HealthyAmong(nodes, ids[1..])
  }

  predicate ReadQuorumReached(s: Cluster) {
    var m := MembershipOf(s);
    |HealthyAmong(s.nodes, m.voters)| + |HealthyAmong(s.nodes, m.witnesses)| >= Members.QuorumSize(m)
  }

  /** The read path report: a read index is safe when the requester is healthy, a quorum is
      live, the applied index has reached the requested one and, under a leader, the
      requester lags the cluster commit by at most maxLag. */
  function ReadPathReport(s: Cluster, r: ReadRequest, maxLag: LogIndex): Result<ReadResponse> {
    match ReadIndex(s, r)
    case Err(e) => Err(e)
    case Ok(response) =>
      var n := s.nodes[r.requesterId];
      var applied := n.appliedIndex >= r.minCommitIndex && n.appliedIndex <= n.commitIndex;
      var bounded := s.leaderId.None? || SatSub(s.commitIndex, n.commitIndex) <= maxLag;
      var safe := response.safe && ReadQuorumReached(s) && applied && bounded;
      Ok(ReadResponse(safe, response.readIndex, response.leaseRead && safe))
  }
}
