/** The sequential core of the node runtime: recovery when it opens, and a record in the
    write-ahead log after every successful proposal. */
module Runtimes {
  import opened Types
  import opened Clusters
  import opened PersistentWals
  import C = ClusterModel
  import L = LocalWalModel
  import W = WalModel
  import Disk = PersistentWalModel
  import Files = WalFileModel

  class RaftNodeRuntime {
    const nodeId: NodeId
    const cluster: RaftCluster
    const wal: PersistentRaftWal

    ghost predicate Valid()
      reads this, cluster, wal
    {
      cluster.Valid() && wal.Valid()
    }

    constructor (nodeId: NodeId, cluster: RaftCluster, wal: PersistentRaftWal)
      requires cluster.Valid() && wal.Valid()
      ensures Valid() && this.nodeId == nodeId && this.cluster == cluster && this.wal == wal
    {
      this.nodeId, this.cluster, this.wal := nodeId, cluster, wal;
    }

    /** Rereads the log and restores the recovered record, if there is one. */
    method Recover()
      requires Valid()
      modifies cluster, cluster.nodes.Values, cluster.pipelines.Values, wal
      ensures Valid()
      ensures wal.segments == Disk.SegmentsIn(wal.codec, wal.hash, old(wal.files))
      ensures cluster.State() == Recovered(old(cluster.State()), W.RecoverLatest(wal.hash, L.Records(wal.segments)))
    {
      hide RaftCluster.State, Disk.SegmentsIn, W.RecoverLatest, L.Records, C.RestoreWalRecord;
      var found := wal.Recover();
      if found.Some? {
        var _ := cluster.RestoreWalRecord(found.value);
      }
    }

    /** Appends the record of this node to the log. */
    method Record() returns (r: Result<()>)
      requires Valid()
      modifies wal
      ensures Valid()
      ensures (wal.State(), r) == WithRecord(wal.codec, wal.hash, old(wal.State()), cluster.State(), nodeId)
    {
      hide RaftCluster.State, Disk.AppendRecord, C.MembershipOf, W.Sealed;
      var record := C.WalRecordFor(cluster.State(), wal.hash, nodeId);
      if record.Err? {
        return Err(record.error);
      }
      var _ := wal.Append(record.value);
      return Ok(());
    }

    /** Proposes and, if that succeeds, appends the record of this node. */
    method Propose(payload: Payload) returns (r: Result<LogId>)
      requires Valid()
      modifies cluster, cluster.nodes.Values, cluster.pipelines.Values, wal
      ensures Valid()
      ensures Outcome(cluster.State(), wal.State(), r)
              == ProposeAndRecord(wal.codec, wal.hash, old(cluster.State()), old(wal.State()), nodeId, payload)
    {
      hide RaftCluster.State, C.Propose, WithRecord;
      r := cluster.Propose(payload);
      if r.Ok? {
        var recorded := Record();
        if recorded.Err? {
          r := Err(recorded.error);
        }
      }
    }
  }

  datatype Outcome = Outcome(cluster: C.Cluster, wal: Disk.PersistentWal, result: Result<LogId>)

  /** The log after the record of a node was appended to it, if there is such a node. */
  function WithRecord(c: Files.Codec, h: W.Hash, w: Disk.PersistentWal, s: C.Cluster, id: NodeId): (Disk.PersistentWal, Result<()>)
    requires w.segments != [] && Disk.ActiveId(w) in w.files
  {
    match C.WalRecordFor(s, h, id)
    case Err(e) => (w, Err(e))
    case Ok(record) => (Disk.AppendRecord(c, h, w, record), Ok(()))
  }

  /** A successful proposal is followed by the record of this node in the log. */
  function ProposeAndRecord(c: Files.Codec, h: W.Hash, s: C.Cluster, w: Disk.PersistentWal, id: NodeId, payload: Payload): Outcome
    requires w.segments != [] && Disk.ActiveId(w) in w.files
  {
    var (t, r) := C.Propose(s, payload);
    if r.Err? then Outcome(t, w, r)
    else
      var (v, recorded) := WithRecord(c, h, w, t, id);
      Outcome(t, v, if recorded.Err? then Err(recorded.error) else r)
  }

  function Recovered(s: C.Cluster, found: Option<W.WalRecord>): C.Cluster {
    if found.Some? then C.RestoreWalRecord(s, found.value).0 else s
  }
}
