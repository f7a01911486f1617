/** The per-peer replication pipeline as a value, and what each of its operations
    does to that value. The class in Pipeline.dfy is verified against these
    functions; the theorems in PipelineTheorems.dfy are about them. */
module PipelineModel {
  import opened Types

  datatype Limits = Limits(
    maxInflights: nat, maxMemoryBytes: nat, maxApplyBatchBytes: nat,
    enableReorder: bool, reorderWindow: nat)

  const DEFAULT_LIMITS := Limits(256, 64 * 1024 * 1024, 8 * 1024 * 1024, true, 1024)

  datatype Inflight = Inflight(first: LogId, last: LogId, entryCount: nat, bytes: nat)

  datatype Transfer = Transfer(snapshotIndex: LogIndex, totalChunks: nat, acknowledged: nat)

  /** The counters and cursors of the status record that the queues depend on. */
  datatype Status = Status(
    matchIndex: LogIndex, nextIndex: LogIndex,
    inflightEntries: nat, inflightBytes: nat,
    queueDepth: nat, queueLimit: nat,
    oversizedRejections: nat, queueRejections: nat, memoryRejections: nat,
    retryAttempts: nat, backoffMs: nat, nextRetryAfterMs: nat,
    reorderDepth: nat, reorderRejected: nat, outOfOrderRejections: nat, reorderTimeouts: nat,
    sending: bool, installing: bool, installedIndex: LogIndex)

  datatype Pipeline = Pipeline(
    limits: Limits, status: Status,
    queue: seq<LogEntry>, inflight: seq<Inflight>,
    reorder: map<LogIndex, LogEntry>, transfer: Option<Transfer>)

  function InitialStatus(nextIndex: LogIndex, limits: Limits): Status {
    Status(SatSub(nextIndex, 1), nextIndex, 0, 0, 0, limits.maxInflights,
           0, 0, 0, 0, 0, 0, 0, 0, 0, 0, false, false, 0)
  }

  function New(nextIndex: LogIndex, limits: Limits): Pipeline {
    Pipeline(limits, InitialStatus(nextIndex, limits), [], [], map[], None)
  }

  // ----- Queueing and flushing -----

  function QueueAppend(p: Pipeline, e: LogEntry): (Pipeline, bool) {
    var bytes := |e.payload|;
    if bytes > p.limits.maxApplyBatchBytes then
      (p.(status := p.status.(oversizedRejections := p.status.oversizedRejections + 1)), false)
    else if |p.queue| >= p.status.queueLimit then
      (p.(status := p.status.(queueRejections := p.status.queueRejections + 1)), false)
    else if p.status.inflightBytes + PayloadBytes(p.queue) + bytes > p.limits.maxMemoryBytes then
      (p.(status := p.status.(memoryRejections := p.status.memoryRejections + 1)), false)
    else
      (p.(queue := p.queue + [e], status := p.status.(queueDepth := |p.queue| + 1)), true)
  }

  /** How many entries at the front of queue go into one batch that already holds
      taken entries of bytes bytes. */
  function TakeBatch(p: Pipeline, taken: nat, bytes: nat, maxEntries: nat, maxBytes: nat): (n: nat)
    requires taken <= |p.queue|
    ensures taken <= n <= |p.queue|
    decreases |p.queue| - taken
  {
    if taken >= maxEntries || taken == |p.queue| then taken
    else
      var more := |p.queue[taken].payload|;
      if taken > 0 && bytes + more > maxBytes then taken
      else if p.status.inflightBytes + bytes + more > p.limits.maxMemoryBytes then taken
      else TakeBatch(p, taken + 1, bytes + more, maxEntries, maxBytes)
  }

  function Describe(batch: seq<LogEntry>): Inflight
    requires batch != []
  {
    Inflight(batch[0].logId, batch[|batch| - 1].logId, |batch|, PayloadBytes(batch))
  }

  /** Moves the first n queued entries in flight as one batch. */
  function SendBatch(p: Pipeline, n: nat): Pipeline
    requires 0 < n <= |p.queue|
  {
    var sent := Describe(p.queue[..n]);
    p.(queue := p.queue[n..], inflight := p.inflight + [sent],
       status := p.status.(inflightEntries := p.status.inflightEntries + sent.entryCount,
                           inflightBytes := p.status.inflightBytes + sent.bytes))
  }

  function FlushLoop(p: Pipeline, maxEntries: nat, maxBytes: nat): (Pipeline, seq<Inflight>)
    decreases |p.queue|
  {
    if p.status.inflightEntries >= p.limits.maxInflights || p.queue == [] then (p, [])
    else
      var n := TakeBatch(p, 0, 0, maxEntries, maxBytes);
      if n == 0 then
        (p.(status := p.status.(memoryRejections := p.status.memoryRejections + 1)), [])
      else
        var (q, sent) := FlushLoop(SendBatch(p, n), maxEntries, maxBytes);
        (q, [Describe(p.queue[..n])] + sent)
  }

  function FlushAppendBatch(p: Pipeline, maxEntries: nat, maxBytes: nat): (Pipeline, seq<Inflight>) {
    var (q, flushed) := FlushLoop(p, Max(maxEntries, 1), Max(maxBytes, 1));
    (q.(status := q.status.(queueDepth := |q.queue|)), flushed)
  }

  // ----- Responses -----

  function NextBackoffMs(attempts: nat): nat {
    Min(10 * Pow2(Min(SatSub(attempts, 1), 10)), 5000)
  }

  function Pow2(n: nat): nat {
    if n == 0 then 1 else 2 * Pow2(n - 1)
  }

  function ReleaseThrough(p: Pipeline, index: LogIndex): Pipeline
    decreases |p.inflight|
  {
    if p.inflight == [] || p.inflight[0].last.index > index then p
    else
      var done := p.inflight[0];
      ReleaseThrough(
        p.(inflight := p.inflight[1..],
           status := p.status.(inflightEntries := SatSub(p.status.inflightEntries, done.entryCount),
                               inflightBytes := SatSub(p.status.inflightBytes, done.bytes))),
        index)
  }

  lemma RemoveKeyShrinks<K, V>(m: map<K, V>, k: K)
    requires k in m
    ensures |m - {k}| == |m| - 1
  {
  }

  /** Delivers the buffered entry the cursor is waiting for. */
  function Deliver(p: Pipeline): Pipeline
    requires p.status.nextIndex in p.reorder
    ensures |Deliver(p).reorder| < |p.reorder|
  {
    RemoveKeyShrinks(p.reorder, p.status.nextIndex);
    var at := p.reorder[p.status.nextIndex].logId.index;
    p.(reorder := p.reorder - {p.status.nextIndex}, status := p.status.(matchIndex := at, nextIndex := at + 1))
  }

  function DrainLoop(p: Pipeline): Pipeline
    decreases |p.reorder|
  {
    if p.status.nextIndex !in p.reorder then p else DrainLoop(Deliver(p))
  }

  function Drain(p: Pipeline): Pipeline {
    var q := DrainLoop(p);
    q.(status := q.status.(reorderDepth := |q.reorder|))
  }

  function HandleAppendResponse(p: Pipeline, r: AppendResponse): (Pipeline, bool) {
    if r.success then
      var m := Max(p.status.matchIndex, r.matchIndex);
      var q := p.(status := p.status.(matchIndex := m, nextIndex := m + 1));
      var d := Drain(ReleaseThrough(q, r.matchIndex));
      (d.(status := d.status.(retryAttempts := 0, backoffMs := 0, nextRetryAfterMs := 0)), true)
    else
      var attempts := p.status.retryAttempts + 1;
      (p.(status := p.status.(retryAttempts := attempts, backoffMs := NextBackoffMs(attempts),
                              nextRetryAfterMs := NextBackoffMs(attempts),
                              nextIndex := r.rejectionHint.UnwrapOr(p.status.matchIndex) + 1)),
       false)
  }

  // ----- Reorder buffer -----

  function ReceiveOutOfOrder(p: Pipeline, e: LogEntry): (Pipeline, bool) {
    var i := e.logId.index;
    if i < p.status.nextIndex then
      (p.(status := p.status.(outOfOrderRejections := p.status.outOfOrderRejections + 1)), false)
    else if i == p.status.nextIndex then
      (Drain(p.(status := p.status.(matchIndex := i, nextIndex := i + 1))), true)
    else if !p.limits.enableReorder then
      (p.(status := p.status.(outOfOrderRejections := p.status.outOfOrderRejections + 1)), false)
    else if |p.reorder| >= p.limits.reorderWindow then
      (p.(status := p.status.(reorderRejected := p.status.reorderRejected + 1)), false)
    else
      var buffered := p.reorder[i := e];
      (p.(reorder := buffered, status := p.status.(reorderDepth := |buffered|)), true)
  }

  function ExpireReorder(p: Pipeline): (Pipeline, nat) {
    if |p.reorder| == 0 then (p, 0)
    else
      (p.(reorder := map[],
          status := p.status.(reorderDepth := 0,
                              reorderTimeouts := p.status.reorderTimeouts + |p.reorder|)),
       |p.reorder|)
  }

  // ----- Snapshot transfer -----

  function BeginTransfer(p: Pipeline, send: bool, index: LogIndex, total: nat): (Pipeline, bool) {
    if p.status.sending || p.status.installing then (p, false)
    else
      (p.(transfer := Some(Transfer(index, total, 0)),
          status := if send then p.status.(sending := true) else p.status.(installing := true)), true)
  }

  function FinishInstall(p: Pipeline): (Pipeline, bool) {
    if p.transfer.None? then (p, false)
    else
      var index := p.transfer.value.snapshotIndex;
      var m := Max(p.status.matchIndex, index);
      (p.(transfer := None,
          status := p.status.(sending := false, installing := false,
                              installedIndex := Max(p.status.installedIndex, index),
                              matchIndex := m, nextIndex := m + 1)), true)
  }

  function CountChunk(p: Pipeline): Pipeline
    requires p.transfer.Some?
  {
    var t := p.transfer.value;
    p.(transfer := Some(t.(acknowledged := t.acknowledged + 1)))
  }

  function AcknowledgeChunk(p: Pipeline): (Pipeline, bool) {
    if p.transfer.None? then (p, false)
    else
      var q := CountChunk(p);
      if q.transfer.value.acknowledged >= q.transfer.value.totalChunks then FinishInstall(q) else (q, true)
  }

  function ReceiveChunk(p: Pipeline, done: bool): (Pipeline, bool) {
    if p.transfer.None? then (p, false)
    else if done then FinishInstall(CountChunk(p)) else (CountChunk(p), true)
  }

  function RollbackInstall(p: Pipeline): Pipeline {
    p.(transfer := None, status := p.status.(sending := false, installing := false))
  }
}
