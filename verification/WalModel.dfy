/** Write-ahead log records: their checksum, the recovery validators, and the choice of
    the record to recover. */
module WalModel {
  import opened Types
  import opened MembershipModel

  datatype WalRecord = WalRecord(
    groupId: GroupId, nodeId: NodeId, hardState: HardState, membership: Membership,
    entries: seq<LogEntry>, installedSnapshot: Option<SnapshotMeta>,
    fence: ApplySnapshotFence, checksum: string)

  /** The digest of a list of words; nothing is assumed about it. */
  type Hash = seq<nat> -> string

  function EntryWords(es: seq<LogEntry>): seq<nat> {
    if es == [] then []
    else [es[0].logId.term, es[0].logId.index, |es[0].payload|] + EntryWords(es[1..])
  }

  /** The words the checksum covers; payload bytes and membership are not among them. */
  function CoveredWords(r: WalRecord): seq<nat> {
    [r.groupId, r.nodeId, r.hardState.currentTerm, r.hardState.votedFor.UnwrapOr(0)]
    + (match r.hardState.committed case Some(id) => [id.term, id.index] case None => [])
    + EntryWords(r.entries)
    + (match r.installedSnapshot case Some(s) => [s.lastLogId.term, s.lastLogId.index] case None => [])
    + [r.fence.appliedIndex, r.fence.commitIndex, r.fence.installedSnapshotIndex, r.fence.firstRetainedLogIndex]
  }

  function Checksum(h: Hash, r: WalRecord): string {
    h(CoveredWords(r))
  }

  predicate ChecksumValid(h: Hash, r: WalRecord) {
    r.checksum == Checksum(h, r)
  }

  function Sealed(h: Hash, r: WalRecord): (s: WalRecord)
    ensures ChecksumValid(h, s) && s == r.(checksum := s.checksum)
    ensures ChecksumValid(h, r) ==> s == r
  {
    r.(checksum := Checksum(h, r))
  }

  function CommittedIndex(r: WalRecord): LogIndex {
    match r.hardState.committed case Some(id) => id.index case None => 0
  }

  function LastEntryIndex(es: seq<LogEntry>): LogIndex {
    if es == [] then 0 else es[|es| - 1].logId.index
  }

  function SnapshotIndex(s: Option<SnapshotMeta>): LogIndex {
    match s case Some(meta) => meta.lastLogId.index case None => 0
  }

  /** The index a record is filed under. */
  function RecordIndex(r: WalRecord): LogIndex {
    match r.hardState.committed case Some(id) => id.index case None => LastEntryIndex(r.entries)
  }

  predicate HardStateOk(r: WalRecord) {
    match r.hardState.committed
    case None => true
    case Some(id) =>
      id.term <= r.hardState.currentTerm
      && id.index <= Max(LastEntryIndex(r.entries), SnapshotIndex(r.installedSnapshot))
  }

  predicate FenceOk(r: WalRecord) {
    && r.fence.appliedIndex <= CommittedIndex(r)
    && r.fence.commitIndex == CommittedIndex(r)
    && (match r.installedSnapshot
        case None => true
        case Some(meta) =>
          && r.fence.installedSnapshotIndex == meta.lastLogId.index
          && (r.fence.firstRetainedLogIndex > 0 ==> r.fence.firstRetainedLogIndex > meta.lastLogId.index))
  }

  predicate Usable(r: WalRecord) {
    HardStateOk(r) && FenceOk(r)
  }

  function ValidPrefix(h: Hash, rs: seq<WalRecord>): seq<WalRecord> {
    if rs == [] || !ChecksumValid(h, rs[0]) then [] else [rs[0]] + ValidPrefix(h, rs[1..])
  }

  function UsableOnly(rs: seq<WalRecord>): seq<WalRecord> {
    if rs == [] then []
    else (if Usable(rs[0]) then [rs[0]] else []) + UsableOnly(rs[1..])
  }

  /** The record with the greatest committed index, the last one on a tie. */
  function BestOf(rs: seq<WalRecord>): Option<WalRecord> {
    if rs == [] then None
    else
      match BestOf(rs[1..])
      case None => Some(rs[0])
      case Some(b) => if CommittedIndex(b) >= CommittedIndex(rs[0]) then Some(b) else Some(rs[0])
  }

  function RecoverLatest(h: Hash, rs: seq<WalRecord>): Option<WalRecord> {
    BestOf(UsableOnly(ValidPrefix(h, rs)))
  }

  // ----- What recovery chooses -----

  /** Position k of rs is reachable by recovery: it and everything before it has a valid
      checksum, and it passes the validators. */
  ghost predicate Candidate(h: Hash, rs: seq<WalRecord>, k: nat) {
    && k < |rs| && Usable(rs[k])
    && forall j :: 0 <= j <= k ==> ChecksumValid(h, rs[j])
  }

  /** Position k is the candidate with the greatest committed index, the last on a tie. */
  ghost predicate IsBest(h: Hash, rs: seq<WalRecord>, k: nat) {
    && Candidate(h, rs, k)
    && (forall j: nat :: Candidate(h, rs, j) && j <= k ==> CommittedIndex(rs[j]) <= CommittedIndex(rs[k]))
    && (forall j: nat :: Candidate(h, rs, j) && j > k ==> CommittedIndex(rs[j]) < CommittedIndex(rs[k]))
  }

  lemma CandidateShift(h: Hash, rs: seq<WalRecord>, k: nat)
    requires rs != [] && ChecksumValid(h, rs[0])
    ensures Candidate(h, rs[1..], k) <==> Candidate(h, rs, k + 1)
  {
  }

  /** Main result about the choice: recovery fails exactly when there is no candidate, and
      otherwise returns the last candidate of greatest committed index. */
  lemma {:induction false} RecoverLatestIsLastBest(h: Hash, rs: seq<WalRecord>)
    ensures RecoverLatest(h, rs).None? <==> forall k: nat :: !Candidate(h, rs, k)
    ensures RecoverLatest(h, rs).Some? ==> exists k: nat :: IsBest(h, rs, k) && RecoverLatest(h, rs) == Some(rs[k])
    decreases |rs|
  {
    if rs != [] && ChecksumValid(h, rs[0]) {
      var rest := rs[1..];
      RecoverLatestIsLastBest(h, rest);
      forall k: nat ensures Candidate(h, rest, k) <==> Candidate(h, rs, k + 1) {
        CandidateShift(h, rs, k);
      }
      assert UsableOnly(ValidPrefix(h, rs))
             == (if Usable(rs[0]) then [rs[0]] else []) + UsableOnly(ValidPrefix(h, rest)) by {
        assert ValidPrefix(h, rs)[1..] == ValidPrefix(h, rest);
      }
      BestOfCons(rs[0], UsableOnly(ValidPrefix(h, rest)));
      assert Candidate(h, rs, 0) <==> Usable(rs[0]);
      CombineBest(h, rs);
    } else {
      assert forall k: nat :: Candidate(h, rs, k) ==> ChecksumValid(h, rs[0]);
    }
  }

  lemma BestOfCons(r: WalRecord, rest: seq<WalRecord>)
    ensures BestOf([r] + rest)
            == match BestOf(rest)
               case None => Some(r)
               case Some(b) => if CommittedIndex(b) >= CommittedIndex(r) then Some(b) else Some(r)
    ensures BestOf([] + rest) == BestOf(rest)
  {
    assert ([r] + rest)[1..] == rest;
    assert [] + rest == rest;
  }

  lemma CombineBest(h: Hash, rs: seq<WalRecord>)
    requires rs != [] && ChecksumValid(h, rs[0])
    requires forall k: nat :: Candidate(h, rs[1..], k) <==> Candidate(h, rs, k + 1)
    requires Candidate(h, rs, 0) <==> Usable(rs[0])
    requires RecoverLatest(h, rs[1..]).None? <==> forall k: nat :: !Candidate(h, rs[1..], k)
    requires RecoverLatest(h, rs[1..]).Some? ==>
               exists k: nat :: IsBest(h, rs[1..], k) && RecoverLatest(h, rs[1..]) == Some(rs[1..][k])
    requires RecoverLatest(h, rs)
             == match RecoverLatest(h, rs[1..])
                case None => if Usable(rs[0]) then Some(rs[0]) else None
                case Some(b) => if Usable(rs[0]) && CommittedIndex(b) < CommittedIndex(rs[0]) then Some(rs[0]) else Some(b)
    ensures RecoverLatest(h, rs).None? <==> forall k: nat :: !Candidate(h, rs, k)
    ensures RecoverLatest(h, rs).Some? ==> exists k: nat :: IsBest(h, rs, k) && RecoverLatest(h, rs) == Some(rs[k])
  {
    var rest := rs[1..];
    forall j: nat | Candidate(h, rs, j) && j > 0 ensures Candidate(h, rest, j - 1) && rest[j - 1] == rs[j] {
      assert Candidate(h, rest, j - 1) <==> Candidate(h, rs, (j - 1) + 1);
    }
    if RecoverLatest(h, rest).Some? {
      var k: nat :| IsBest(h, rest, k) && RecoverLatest(h, rest) == Some(rest[k]);
      assert Candidate(h, rs, k + 1);
      if Usable(rs[0]) && CommittedIndex(rest[k]) < CommittedIndex(rs[0]) {
        assert IsBest(h, rs, 0);
      } else {
        assert IsBest(h, rs, k + 1) && rs[k + 1] == rest[k];
      }
    } else if Usable(rs[0]) {
      assert IsBest(h, rs, 0);
    }
  }

  /** When every record is valid and usable and commits never go down, recovery returns the
      newest record. */
  lemma NewestIsRecovered(h: Hash, rs: seq<WalRecord>)
    requires rs != []
    requires forall k :: 0 <= k < |rs| ==> ChecksumValid(h, rs[k]) && Usable(rs[k])
    requires forall j, k :: 0 <= j <= k < |rs| ==> CommittedIndex(rs[j]) <= CommittedIndex(rs[k])
    ensures RecoverLatest(h, rs) == Some(rs[|rs| - 1])
  {
    RecoverLatestIsLastBest(h, rs);
    assert Candidate(h, rs, |rs| - 1);
    var k: nat :| IsBest(h, rs, k) && RecoverLatest(h, rs) == Some(rs[k]);
    assert k == |rs| - 1;
  }
}
