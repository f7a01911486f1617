/** The objects of a snapshot transfer. */
module Snapshots {
  import opened Types
  import Model = SnapshotModel

  /** Splits a snapshot into chunks. */
  method Checkpoint(s: Snapshot, chunkSize: nat) returns (r: Result<seq<Model.Chunk>>)
    ensures chunkSize == 0 ==> r == Err(InvalidRequest)
    ensures chunkSize > 0 ==> r == Ok(Model.Checkpoint(s, chunkSize))
  {
    if chunkSize == 0 {
      return Err(InvalidRequest);
    }
    var chunks: seq<Model.Chunk> := [];
    var offset := 0;
    while offset < |s.payload|
      invariant offset <= |s.payload|
      invariant chunks + Model.ChunksFrom(s, chunkSize, offset) == Model.ChunksFrom(s, chunkSize, 0)
      invariant offset > 0 ==> chunks != []
      decreases |s.payload| - offset
    {
      var end := Min(offset + chunkSize, |s.payload|);
      chunks := chunks + [Model.Chunk(s.meta, offset, s.payload[offset..end], end == |s.payload|)];
      offset := end;
    }
    assert chunks + [] == chunks;
    if chunks == [] {
      chunks := [Model.Chunk(s.meta, 0, [], true)];
    }
    return Ok(chunks);
  }

  class SnapshotInstallState {
    const meta: SnapshotMeta
    var bytes: seq<Byte>
    var nextOffset: nat
    var complete: bool

    function State(): Model.Installer
      reads this
    {
      Model.Installer(meta, bytes, nextOffset, complete)
    }

    constructor (meta: SnapshotMeta)
      ensures State() == Model.Installer(meta, [], 0, false)
    {
      this.meta := meta;
      bytes, nextOffset, complete := [], 0, false;
    }

    method InstallChunk(c: Model.Chunk) returns (ok: bool)
      modifies this
      ensures (State(), ok) == Model.InstallChunk(old(State()), c)
    {
      if c.meta != meta {
        return false;
      }
      if c.offset != nextOffset {
        return false;
      }
      nextOffset := nextOffset + |c.data|;
      bytes := bytes + c.data;
      complete := c.done;
      return true;
    }

    method Finish(groupId: GroupId) returns (r: Result<Snapshot>)
      ensures r == if complete then Ok(Snapshot(groupId, meta, bytes)) else Err(InvalidRequest)
    {
      if !complete {
        return Err(InvalidRequest);
      }
      return Ok(Snapshot(groupId, meta, bytes));
    }
  }

  class SnapshotLifecycle {
    const config: Model.Config
    var sender: Option<Model.Sender>
    var installer: SnapshotInstallState?
    var status: Model.Status

    function State(): Model.Lifecycle
      reads this, installer
    {
      Model.Lifecycle(config, sender, if installer == null then None else Some(installer.State()), status)
    }

    ghost predicate Valid()
      reads this, installer
    {
      config.Valid() && Model.CursorInRange(State())
    }

    constructor (config: Model.Config)
      requires config.Valid()
      ensures Valid() && State() == Model.Lifecycle(config, None, None, Model.INITIAL_STATUS)
    {
      this.config := config;
      sender, installer, status := None, null, Model.INITIAL_STATUS;
    }

    method BeginSend(s: Snapshot, term: Term, leaderId: NodeId) returns (ok: bool)
      requires Valid()
      modifies this
      ensures Valid() && (State(), ok) == Model.BeginSend(old(State()), s, term, leaderId)
    {
      if sender.Some? || installer != null {
        return false;
      }
      var r := Checkpoint(s, config.chunkSize);
      var chunks := r.value;
      status := Model.Status(Some(s.meta.snapshotId), true, false, |chunks|, 0, 0, 0, status.rolledBack, false, 0);
      sender := Some(Model.Sender(s.groupId, term, leaderId, chunks, 0, 0, 0));
      return true;
    }

    method PollSendRequests() returns (r: Result<seq<Model.Request>>)
      requires Valid()
      modifies this
      ensures Valid() && (State(), r) == Model.Poll(old(State()))
    {
      if sender.None? {
        return Err(InvalidRequest);
      }
      var s := sender.value;
      var first := s.nextChunk;
      var requests: seq<Model.Request> := [];
      var bytes: nat := 0;
      var next := first;
      while next < |s.chunks| && |requests| < config.maxChunksPerTick
        invariant first <= next <= |s.chunks|
        invariant requests == Model.Requests(s, s.chunks[first..next])
        invariant Model.PollUpTo(config, s.chunks, next, |requests|, bytes)
                  == Model.PollUpTo(config, s.chunks, first, 0, 0)
        decreases |s.chunks| - next
      {
        var chunk := s.chunks[next];
        if requests != [] && bytes + |chunk.data| > config.maxBytesPerTick {
          break;
        }
        bytes := bytes + |chunk.data|;
        next := next + 1;
        requests := requests + [Model.Request(s.groupId, s.term, s.leaderId, chunk)];
      }
      sender := Some(s.(nextChunk := next));
      status := status.(sentChunks := status.sentChunks + (next - first));
      return Ok(requests);
    }

    method RecordSendResponse(r: Model.Response) returns (ok: bool)
      requires Valid()
      modifies this
      ensures Valid() && (State(), ok) == Model.RecordResponse(old(State()), r)
    {
      if sender.None? {
        return r.accepted;
      }
      if r.accepted {
        sender := Some(sender.value.(acceptedChunks := sender.value.acceptedChunks + 1));
        if sender.value.acceptedChunks >= |sender.value.chunks| {
          status := status.(sending := false, completed := true);
          sender := None;
        }
        return true;
      }
      ok := RecordSendTimeout();
      if ok {
        var s := sender.value;
        sender := Some(s.(nextChunk := Model.FirstAtOrAfter(s.chunks, r.nextOffset)));
      }
    }

    method RecordSendTimeout() returns (ok: bool)
      requires Valid()
      modifies this
      ensures Valid() && (State(), ok) == Model.RecordTimeout(old(State()))
    {
      if sender.None? {
        return false;
      }
      var s := sender.value.(retryCount := sender.value.retryCount + 1);
      sender := Some(s);
      status := status.(retryCount := status.retryCount + 1);
      if s.retryCount > config.maxRetryAttempts {
        sender := None;
        status := status.(sending := false);
        return false;
      }
      return true;
    }

    method InstallRequest(r: Model.Request) returns (result: Result<Option<Snapshot>>)
      requires Valid()
      modifies this, installer
      ensures Valid() && (State(), result) == Model.Install(old(State()), r)
      ensures installer != null && installer != old(installer) ==> fresh(installer)
    {
      if installer == null {
        status := status.(snapshotId := Some(r.chunk.meta.snapshotId), installing := true,
                          sending := false, completed := false, receivedChunks := 0, totalChunks := 0);
        installer := new SnapshotInstallState(r.chunk.meta);
      }
      var ok := installer.InstallChunk(r.chunk);
      if !ok {
        return Err(InvalidRequest);
      }
      var received := status.receivedChunks + 1;
      status := status.(receivedChunks := received, totalChunks := Max(status.totalChunks, received));
      if installer.complete {
        var finished := installer.Finish(r.groupId);
        installer := null;
        status := status.(installing := false, completed := true,
                          installedIndex := finished.value.meta.lastLogId.index);
        return Ok(Some(finished.value));
      }
      return Ok(None);
    }

    method RollbackInstall()
      requires Valid()
      modifies this
      ensures Valid() && State() == Model.RollbackInstall(old(State()))
    {
      installer := null;
      status := status.(installing := false, rolledBack := status.rolledBack + 1);
    }
  }
}
