/** The plain values that every component exchanges: log ids and entries, hard
    state, roles, snapshots and errors. Indices and terms are unbounded naturals. */
module Types {

  datatype Option<+T> = None | Some(value: T) {
    function UnwrapOr(default: T): T {
      if Some? then value else default
    }
  }

  /** The error classes of the engine; message text is not modelled. */
  datatype Error =
    | NodeNotFound(id: NodeId)
    | NoLeader
    | NotLeader(id: NodeId)
    | InvalidRequest
    | Transport
    | Storage

  datatype Result<+T> = Ok(value: T) | Err(error: Error)

  newtype Byte = b: int | 0 <= b < 256

  type NodeId = nat
  type GroupId = nat
  type Term = nat
  type LogIndex = nat
  type Payload = seq<Byte>

  datatype LogId = LogId(term: Term, index: LogIndex)

  datatype LogEntry = LogEntry(logId: LogId, payload: Payload)

  datatype HardState = HardState(currentTerm: Term, votedFor: Option<NodeId>, committed: Option<LogId>)

  datatype ReplicaRole = Voter | Learner | Witness {
    predicate ParticipatesInQuorum() { Voter? || Witness? }
    predicate CanServeData() { Voter? || Learner? }
    predicate CanBeLeader() { Voter? }
  }

  datatype RaftRole = LeaderRole | FollowerRole | LearnerRole

  datatype SnapshotMeta = SnapshotMeta(snapshotId: string, lastLogId: LogId, membership: seq<NodeId>)

  datatype Snapshot = Snapshot(groupId: GroupId, meta: SnapshotMeta, payload: seq<Byte>)

  datatype ApplySnapshotFence = ApplySnapshotFence(
    appliedIndex: LogIndex, commitIndex: LogIndex,
    installedSnapshotIndex: LogIndex, firstRetainedLogIndex: LogIndex)

  datatype AppendResponse = AppendResponse(
    term: Term, success: bool, matchIndex: LogIndex, rejectionHint: Option<LogIndex>)

  function Max(a: nat, b: nat): nat { if a < b then b else a }

  function Min(a: nat, b: nat): nat { if a < b then a else b }

  /** Subtraction on unsigned integers that stops at zero. */
  function SatSub(a: nat, b: nat): nat { if a < b then 0 else a - b }

  lemma ConcatAssociative<T>(a: seq<T>, b: seq<T>, c: seq<T>)
    ensures (a + b) + c == a + (b + c)
  {
  }

  function PayloadBytes(es: seq<LogEntry>): nat {
    if es == [] then 0 else |es[0].payload| + PayloadBytes(es[1..])
  }

  lemma {:induction false} PayloadBytesAppend(a: seq<LogEntry>, b: seq<LogEntry>)
    ensures PayloadBytes(a + b) == PayloadBytes(a) + PayloadBytes(b)
  {
    if a == [] {
      assert a + b == b;
    } else {
      assert (a + b)[1..] == a[1..] + b;
      PayloadBytesAppend(a[1..], b);
    }
  }

  lemma SubsetSize<T>(a: set<T>, b: set<T>)
    requires a <= b
    ensures |a| <= |b|
  {
    assert b == a + (b - a);
  }
}
