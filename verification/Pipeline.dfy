/** The replication pipeline object of one peer. */
module Pipelines {
  import opened Types
  import Model = PipelineModel

  class ReplicationPipeline {
    const peerId: NodeId
    var limits: Model.Limits
    var status: Model.Status
    var queue: seq<LogEntry>
    var inflight: seq<Model.Inflight>
    var reorder: map<LogIndex, LogEntry>
    var transfer: Option<Model.Transfer>

    function State(): Model.Pipeline
      reads this
    {
      Model.Pipeline(limits, status, queue, inflight, reorder, transfer)
    }

    constructor (peerId: NodeId, nextIndex: LogIndex, limits: Model.Limits)
      ensures State() == Model.New(nextIndex, limits) && this.peerId == peerId
    {
      this.peerId := peerId;
      this.limits := limits;
      status := Model.InitialStatus(nextIndex, limits);
      queue, inflight, reorder, transfer := [], [], map[], None;
    }

    /** An object holding a given pipeline value, as cloning one makes. */
    constructor Of(peerId: NodeId, p: Model.Pipeline)
      ensures State() == p && this.peerId == peerId
    {
      this.peerId := peerId;
      limits, status, queue := p.limits, p.status, p.queue;
      inflight, reorder, transfer := p.inflight, p.reorder, p.transfer;
    }

    method QueuedBytes() returns (bytes: nat)
      ensures bytes == PayloadBytes(queue)
    {
      bytes := 0;
      for i := 0 to |queue|
        invariant bytes == PayloadBytes(queue[..i])
      {
        assert queue[..i + 1] == queue[..i] + [queue[i]];
        PayloadBytesAppend(queue[..i], [queue[i]]);
        bytes := bytes + |queue[i].payload|;
      }
      assert queue[..|queue|] == queue;
    }

    method QueueAppend(e: LogEntry) returns (ok: bool)
      modifies this
      ensures (State(), ok) == Model.QueueAppend(old(State()), e)
    {
      var bytes := |e.payload|;
      if bytes > limits.maxApplyBatchBytes {
        status := status.(oversizedRejections := status.oversizedRejections + 1);
        return false;
      }
      if |queue| >= status.queueLimit {
        status := status.(queueRejections := status.queueRejections + 1);
        return false;
      }
      var queued := QueuedBytes();
      if status.inflightBytes + queued + bytes > limits.maxMemoryBytes {
        status := status.(memoryRejections := status.memoryRejections + 1);
        return false;
      }
      queue := queue + [e];
      status := status.(queueDepth := |queue|);
      return true;
    }

    /** Pops the entries of one batch off the queue. */
    method PopBatch(maxEntries: nat, maxBytes: nat) returns (batch: seq<LogEntry>, bytes: nat)
      modifies this`queue
      ensures batch + queue == old(queue) && bytes == PayloadBytes(batch)
      ensures |batch| == Model.TakeBatch(old(State()), 0, 0, maxEntries, maxBytes)
    {
      batch, bytes := [], 0;
      ghost var before := State();
      while |batch| < maxEntries && queue != []
        invariant batch + queue == before.queue
        invariant bytes == PayloadBytes(batch)
        invariant Model.TakeBatch(before, |batch|, bytes, maxEntries, maxBytes)
                  == Model.TakeBatch(before, 0, 0, maxEntries, maxBytes)
        decreases |queue|
      {
        assert before.queue[|batch|] == queue[0];
        var more := |queue[0].payload|;
        if batch != [] && bytes + more > maxBytes {
          break;
        }
        if status.inflightBytes + bytes + more > limits.maxMemoryBytes {
          break;
        }
        PayloadBytesAppend(batch, [queue[0]]);
        bytes := bytes + more;
        batch := batch + [queue[0]];
        queue := queue[1..];
      }
    }

    /** Sends one batch, or counts a rejection when not even one entry fits in memory. */
    method FlushOne(maxEntries: nat, maxBytes: nat) returns (sent: Option<Model.Inflight>)
      modifies this
      ensures var n := Model.TakeBatch(old(State()), 0, 0, maxEntries, maxBytes);
              if n == 0 then
                && sent == None
                && State() == old(State()).(status := old(status).(memoryRejections := old(status).memoryRejections + 1))
              else
                && sent == Some(Model.Describe(old(queue)[..n]))
                && State() == Model.SendBatch(old(State()), n)
    {
      hide Model.TakeBatch;
      ghost var before := queue;
      var batch, bytes := PopBatch(maxEntries, maxBytes);
      assert before[..|batch|] == batch && before[|batch|..] == queue;
      if batch == [] {
        status := status.(memoryRejections := status.memoryRejections + 1);
        return None;
      }
      var inflightBatch := Model.Inflight(batch[0].logId, batch[|batch| - 1].logId, |batch|, bytes);
      status := status.(inflightEntries := status.inflightEntries + inflightBatch.entryCount,
                        inflightBytes := status.inflightBytes + inflightBatch.bytes);
      inflight := inflight + [inflightBatch];
      return Some(inflightBatch);
    }

    method FlushAppendBatch(requestedEntries: nat, requestedBytes: nat) returns (flushed: seq<Model.Inflight>)
      modifies this
      ensures (State(), flushed) == Model.FlushAppendBatch(old(State()), requestedEntries, requestedBytes)
    {
      hide Model.TakeBatch, Model.Describe;
      flushed := [];
      var maxEntries := Max(requestedEntries, 1);
      var maxBytes := Max(requestedBytes, 1);
      ghost var target := Model.FlushLoop(State(), maxEntries, maxBytes);
      while status.inflightEntries < limits.maxInflights && queue != []
        invariant Model.FlushLoop(State(), maxEntries, maxBytes).0 == target.0
        invariant flushed + Model.FlushLoop(State(), maxEntries, maxBytes).1 == target.1
        decreases |queue|
      {
        var sent := FlushOne(maxEntries, maxBytes);
        if sent.None? {
          assert flushed + [] == flushed;
          break;
        }
        flushed := flushed + [sent.value];
      }
      assert flushed + [] == flushed;
      status := status.(queueDepth := |queue|);
    }

    method ReleaseInflightThrough(index: LogIndex)
      modifies this
      ensures State() == Model.ReleaseThrough(old(State()), index)
    {
      ghost var target := Model.ReleaseThrough(State(), index);
      while inflight != [] && inflight[0].last.index <= index
        invariant Model.ReleaseThrough(State(), index) == target
        decreases |inflight|
      {
        var done := inflight[0];
        inflight := inflight[1..];
        status := status.(inflightEntries := SatSub(status.inflightEntries, done.entryCount),
                          inflightBytes := SatSub(status.inflightBytes, done.bytes));
      }
    }

    method DrainReorderQueue()
      modifies this
      ensures State() == Model.Drain(old(State()))
    {
      ghost var target := Model.DrainLoop(State());
      while status.nextIndex in reorder
        invariant Model.DrainLoop(State()) == target
        decreases |reorder|
      {
        ghost var before := State();
        Model.RemoveKeyShrinks(reorder, status.nextIndex);
        var at := reorder[status.nextIndex].logId.index;
        reorder := reorder - {status.nextIndex};
        status := status.(matchIndex := at, nextIndex := at + 1);
        assert State() == Model.Deliver(before);
      }
      status := status.(reorderDepth := |reorder|);
    }

    method HandleAppendResponse(r: AppendResponse) returns (ok: bool)
      modifies this
      ensures (State(), ok) == Model.HandleAppendResponse(old(State()), r)
    {
      hide Model.ReleaseThrough, Model.DrainLoop, Model.Drain;
      if r.success {
        var m := Max(status.matchIndex, r.matchIndex);
        status := status.(matchIndex := m, nextIndex := m + 1);
        ReleaseInflightThrough(r.matchIndex);
        DrainReorderQueue();
        status := status.(retryAttempts := 0, backoffMs := 0, nextRetryAfterMs := 0);
        return true;
      }
      var attempts := status.retryAttempts + 1;
      status := status.(retryAttempts := attempts, backoffMs := Model.NextBackoffMs(attempts),
                        nextRetryAfterMs := Model.NextBackoffMs(attempts),
                        nextIndex := r.rejectionHint.UnwrapOr(status.matchIndex) + 1);
      return false;
    }

    method ReceiveOutOfOrder(e: LogEntry) returns (ok: bool)
      modifies this
      ensures (State(), ok) == Model.ReceiveOutOfOrder(old(State()), e)
    {
      var i := e.logId.index;
      if i < status.nextIndex {
        status := status.(outOfOrderRejections := status.outOfOrderRejections + 1);
        return false;
      }
      if i == status.nextIndex {
        status := status.(matchIndex := i, nextIndex := i + 1);
        DrainReorderQueue();
        return true;
      }
      if !limits.enableReorder {
        status := status.(outOfOrderRejections := status.outOfOrderRejections + 1);
        return false;
      }
      if |reorder| >= limits.reorderWindow {
        status := status.(reorderRejected := status.reorderRejected + 1);
        return false;
      }
      reorder := reorder[i := e];
      status := status.(reorderDepth := |reorder|);
      return true;
    }

    method ExpireReorderQueue() returns (dropped: nat)
      modifies this
      ensures (State(), dropped) == Model.ExpireReorder(old(State()))
    {
      dropped := |reorder|;
      if dropped > 0 {
        reorder := map[];
        status := status.(reorderDepth := 0, reorderTimeouts := status.reorderTimeouts + dropped);
      }
    }

    method BeginTransfer(send: bool, index: LogIndex, total: nat) returns (ok: bool)
      modifies this
      ensures (State(), ok) == Model.BeginTransfer(old(State()), send, index, total)
    {
      if status.sending || status.installing {
        return false;
      }
      if send {
        status := status.(sending := true);
      } else {
        status := status.(installing := true);
      }
      transfer := Some(Model.Transfer(index, total, 0));
      return true;
    }

    method FinishInstall() returns (ok: bool)
      modifies this
      ensures (State(), ok) == Model.FinishInstall(old(State()))
    {
      if transfer.None? {
        return false;
      }
      var index := transfer.value.snapshotIndex;
      transfer := None;
      var m := Max(status.matchIndex, index);
      status := status.(sending := false, installing := false,
                        installedIndex := Max(status.installedIndex, index),
                        matchIndex := m, nextIndex := m + 1);
      return true;
    }

    method AcknowledgeChunk() returns (ok: bool)
      modifies this
      ensures (State(), ok) == Model.AcknowledgeChunk(old(State()))
    {
      if transfer.None? {
        return false;
      }
      transfer := Some(transfer.value.(acknowledged := transfer.value.acknowledged + 1));
      ok := true;
      if transfer.value.acknowledged >= transfer.value.totalChunks {
        ok := FinishInstall();
      }
    }

    method ReceiveChunk(done: bool) returns (ok: bool)
      modifies this
      ensures (State(), ok) == Model.ReceiveChunk(old(State()), done)
    {
      if transfer.None? {
        return false;
      }
      transfer := Some(transfer.value.(acknowledged := transfer.value.acknowledged + 1));
      ok := true;
      if done {
        ok := FinishInstall();
      }
    }

    method RollbackInstall()
      modifies this
      ensures State() == Model.RollbackInstall(old(State()))
    {
      transfer := None;
      status := status.(sending := false, installing := false);
    }
  }
}
