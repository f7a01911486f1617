/** What the replication pipeline keeps over whole runs: its counters agree with
    its queues, flushing partitions the queue in order, the queue-then-flush loop
    has an exact capacity, and the reorder buffer computes the longest prefix. */
module PipelineTheorems {
  import opened Types
  import opened PipelineModel

  // ----- Conservation -----

  function SumEntries(s: seq<Inflight>): nat {
    if s == [] then 0 else s[0].entryCount + SumEntries(s[1..])
  }

  function SumBytes(s: seq<Inflight>): nat {
    if s == [] then 0 else s[0].bytes + SumBytes(s[1..])
  }

  lemma {:induction false} SumsAppend(a: seq<Inflight>, b: seq<Inflight>)
    ensures SumEntries(a + b) == SumEntries(a) + SumEntries(b)
    ensures SumBytes(a + b) == SumBytes(a) + SumBytes(b)
  {
    if a == [] {
      assert a + b == b;
    } else {
      assert (a + b)[1..] == a[1..] + b;
      SumsAppend(a[1..], b);
    }
  }

  ghost predicate Conserved(p: Pipeline) {
    && p.status.inflightEntries == SumEntries(p.inflight)
    && p.status.inflightBytes == SumBytes(p.inflight)
    && p.status.inflightBytes + PayloadBytes(p.queue) <= p.limits.maxMemoryBytes
    && p.status.queueDepth == |p.queue|
    && p.status.reorderDepth == |p.reorder|
  }

  /** Conserved while a flush is running: the depth is only refreshed at its end. */
  ghost predicate Flushing(p: Pipeline) {
    Conserved(p.(status := p.status.(queueDepth := |p.queue|)))
  }

  lemma SplitBytes(es: seq<LogEntry>, n: nat)
    requires n <= |es|
    ensures PayloadBytes(es) == PayloadBytes(es[..n]) + PayloadBytes(es[n..])
  {
    PayloadBytesAppend(es[..n], es[n..]);
    assert es[..n] + es[n..] == es;
  }

  lemma SendKeepsFlushing(p: Pipeline, n: nat)
    requires Flushing(p) && 0 < n <= |p.queue|
    ensures Flushing(SendBatch(p, n))
  {
    var sent := Describe(p.queue[..n]);
    SumsAppend(p.inflight, [sent]);
    SplitBytes(p.queue, n);
  }

  /** With the counters conserved the first queued entry always fits in memory. */
  lemma FirstEntryFits(p: Pipeline, maxEntries: nat, maxBytes: nat)
    requires Flushing(p) && p.queue != [] && maxEntries > 0
    ensures TakeBatch(p, 0, 0, maxEntries, maxBytes) > 0
  {
  }

  lemma {:induction false} FlushLoopConserves(p: Pipeline, maxEntries: nat, maxBytes: nat)
    requires Flushing(p) && maxEntries > 0
    ensures var q := FlushLoop(p, maxEntries, maxBytes).0;
            && Flushing(q)
            && q.status.memoryRejections == p.status.memoryRejections
            && (q.status.inflightEntries >= q.limits.maxInflights || q.queue == [])
    decreases |p.queue|
  {
    if p.status.inflightEntries < p.limits.maxInflights && p.queue != [] {
      FirstEntryFits(p, maxEntries, maxBytes);
      var n := TakeBatch(p, 0, 0, maxEntries, maxBytes);
      SendKeepsFlushing(p, n);
      FlushLoopConserves(SendBatch(p, n), maxEntries, maxBytes);
    }
  }

  /** A flush never trips its own memory guard, and it only stops when the window is
      full or nothing is queued. */
  lemma FlushNeverHitsMemoryGuard(p: Pipeline, maxEntries: nat, maxBytes: nat)
    requires Conserved(p)
    ensures var q := FlushAppendBatch(p, maxEntries, maxBytes).0;
            && Conserved(q)
            && q.status.memoryRejections == p.status.memoryRejections
            && (q.status.inflightEntries >= q.limits.maxInflights || q.queue == [])
  {
    FlushLoopConserves(p, Max(maxEntries, 1), Max(maxBytes, 1));
  }

  /** Releasing drops a prefix of the batches and subtracts exactly its sums, so no
      subtraction is cut off at zero. */
  lemma {:induction false} ReleaseIsExact(p: Pipeline, index: LogIndex)
    requires p.status.inflightEntries == SumEntries(p.inflight)
    requires p.status.inflightBytes == SumBytes(p.inflight)
    ensures var q := ReleaseThrough(p, index);
            && q == p.(inflight := q.inflight, status := q.status)
            && q.status == p.status.(inflightEntries := SumEntries(q.inflight), inflightBytes := SumBytes(q.inflight))
            && SumBytes(q.inflight) <= SumBytes(p.inflight) && SumEntries(q.inflight) <= SumEntries(p.inflight)
            && |q.inflight| <= |p.inflight| && q.inflight == p.inflight[|p.inflight| - |q.inflight|..]
            && (forall i :: 0 <= i < |p.inflight| - |q.inflight| ==> p.inflight[i].last.index <= index)
            && (q.inflight != [] ==> q.inflight[0].last.index > index)
    decreases |p.inflight|
  {
    if p.inflight != [] && p.inflight[0].last.index <= index {
      var done := p.inflight[0];
      var next := p.(inflight := p.inflight[1..],
                     status := p.status.(inflightEntries := SatSub(p.status.inflightEntries, done.entryCount),
                                         inflightBytes := SatSub(p.status.inflightBytes, done.bytes)));
      ReleaseIsExact(next, index);
      var q := ReleaseThrough(p, index);
      assert q == ReleaseThrough(next, index);
      forall i | 0 <= i < |p.inflight| - |q.inflight| ensures p.inflight[i].last.index <= index {
        if i > 0 {
          assert next.inflight[i - 1] == p.inflight[i];
        }
      }
    }
  }

  lemma {:induction false} DrainTouchesOnlyReorder(p: Pipeline)
    ensures var q := DrainLoop(p);
            q == p.(reorder := q.reorder,
                    status := p.status.(matchIndex := q.status.matchIndex, nextIndex := q.status.nextIndex))
    decreases |p.reorder|
  {
    if p.status.nextIndex in p.reorder {
      DrainTouchesOnlyReorder(Deliver(p));
    }
  }

  datatype Op =
    | Queue(entry: LogEntry)
    | Flush(maxEntries: nat, maxBytes: nat)
    | Response(response: AppendResponse)
    | Receive(entry: LogEntry)
    | Expire
    | BeginSnapshot(send: bool, index: LogIndex, total: nat)
    | Acknowledge
    | Chunk(done: bool)
    | Rollback

  function Apply(p: Pipeline, op: Op): Pipeline {
    match op
    case Queue(e) => QueueAppend(p, e).0
    case Flush(m, b) => FlushAppendBatch(p, m, b).0
    case Response(r) => HandleAppendResponse(p, r).0
    case Receive(e) => ReceiveOutOfOrder(p, e).0
    case Expire => ExpireReorder(p).0
    case BeginSnapshot(send, index, total) => BeginTransfer(p, send, index, total).0
    case Acknowledge => AcknowledgeChunk(p).0
    case Chunk(done) => ReceiveChunk(p, done).0
    case Rollback => RollbackInstall(p)
  }

  function Run(p: Pipeline, ops: seq<Op>): Pipeline
    decreases |ops|
  {
    if ops == [] then p else Run(Apply(p, ops[0]), ops[1..])
  }

  lemma ResponseConserves(p: Pipeline, r: AppendResponse)
    requires Conserved(p)
    ensures Conserved(HandleAppendResponse(p, r).0)
  {
    if r.success {
      var m := Max(p.status.matchIndex, r.matchIndex);
      var q := p.(status := p.status.(matchIndex := m, nextIndex := m + 1));
      hide ReleaseThrough, DrainLoop, SumEntries, SumBytes, PayloadBytes;
      ReleaseIsExact(q, r.matchIndex);
      DrainTouchesOnlyReorder(ReleaseThrough(q, r.matchIndex));
    }
  }

  lemma PayloadBytesPush(es: seq<LogEntry>, e: LogEntry)
    ensures PayloadBytes(es + [e]) == PayloadBytes(es) + |e.payload|
  {
    PayloadBytesAppend(es, [e]);
  }

  lemma QueueConserves(p: Pipeline, e: LogEntry)
    requires Conserved(p)
    ensures Conserved(QueueAppend(p, e).0)
  {
    hide PayloadBytes, SumEntries, SumBytes;
    PayloadBytesPush(p.queue, e);
  }

  lemma ReceiveConserves(p: Pipeline, e: LogEntry)
    requires Conserved(p)
    ensures Conserved(ReceiveOutOfOrder(p, e).0)
  {
    hide DrainLoop, SumEntries, SumBytes, PayloadBytes;
    DrainTouchesOnlyReorder(p.(status := p.status.(matchIndex := e.logId.index, nextIndex := e.logId.index + 1)));
  }

  lemma ApplyConserves(p: Pipeline, op: Op)
    requires Conserved(p)
    ensures Conserved(Apply(p, op))
  {
    match op
    case Queue(e) => QueueConserves(p, e);
    case Flush(m, b) => FlushNeverHitsMemoryGuard(p, m, b);
    case Response(r) => ResponseConserves(p, r);
    case Receive(e) => ReceiveConserves(p, e);
    case _ =>
  }

  lemma {:induction false} RunConserves(p: Pipeline, ops: seq<Op>)
    requires Conserved(p)
    ensures Conserved(Run(p, ops))
    decreases |ops|
  {
    if ops != [] {
      ApplyConserves(p, ops[0]);
      RunConserves(Apply(p, ops[0]), ops[1..]);
    }
  }

  /** Main result: every run of pipeline operations from a new pipeline keeps the
      inflight counters equal to the sums over the inflight queue, and the bytes held
      in memory within the limit. */
  lemma Conservation(nextIndex: LogIndex, limits: Limits, ops: seq<Op>)
    ensures Conserved(Run(New(nextIndex, limits), ops))
  {
    RunConserves(New(nextIndex, limits), ops);
  }

  // ----- Flush is a first-in-first-out partition of the queue -----

  function Flatten(batches: seq<seq<LogEntry>>): seq<LogEntry> {
    if batches == [] then [] else batches[0] + Flatten(batches[1..])
  }

  /** A batch within both bounds; a single entry may exceed the byte bound. */
  ghost predicate WithinBounds(batch: seq<LogEntry>, maxEntries: nat, maxBytes: nat) {
    && 0 < |batch| <= maxEntries
    && (|batch| == 1 || PayloadBytes(batch) <= maxBytes)
  }

  ghost predicate Batched(sent: seq<Inflight>, batches: seq<seq<LogEntry>>, maxEntries: nat, maxBytes: nat) {
    && |sent| == |batches|
    && forall i :: 0 <= i < |batches| ==>
      WithinBounds(batches[i], maxEntries, maxBytes) && sent[i] == Describe(batches[i])
  }

  lemma {:induction false} TakeBatchWithinBounds(p: Pipeline, taken: nat, bytes: nat, maxEntries: nat, maxBytes: nat)
    requires taken <= |p.queue| && taken <= maxEntries && bytes == PayloadBytes(p.queue[..taken])
    requires taken <= 1 || bytes <= maxBytes
    ensures var n := TakeBatch(p, taken, bytes, maxEntries, maxBytes);
            && n <= maxEntries && (n <= 1 || PayloadBytes(p.queue[..n]) <= maxBytes)
    decreases |p.queue| - taken
  {
    if taken < maxEntries && taken < |p.queue| {
      var more := |p.queue[taken].payload|;
      if !(taken > 0 && bytes + more > maxBytes)
         && p.status.inflightBytes + bytes + more <= p.limits.maxMemoryBytes {
        assert p.queue[..taken + 1] == p.queue[..taken] + [p.queue[taken]];
        PayloadBytesAppend(p.queue[..taken], [p.queue[taken]]);
        TakeBatchWithinBounds(p, taken + 1, bytes + more, maxEntries, maxBytes);
      }
    }
  }

  /** The queue of p is the sent batches followed by the queue of q. */
  ghost predicate Partitions(p: Pipeline, q: Pipeline, sent: seq<Inflight>, batches: seq<seq<LogEntry>>,
                             maxEntries: nat, maxBytes: nat) {
    && Batched(sent, batches, maxEntries, maxBytes)
    && Flatten(batches) + q.queue == p.queue
    && q.inflight == p.inflight + sent
  }

  lemma PrependBatch(p: Pipeline, n: nat, q: Pipeline, sent: seq<Inflight>, rest: seq<seq<LogEntry>>,
                     maxEntries: nat, maxBytes: nat)
    requires 0 < n <= |p.queue| && WithinBounds(p.queue[..n], maxEntries, maxBytes)
    requires Partitions(SendBatch(p, n), q, sent, rest, maxEntries, maxBytes)
    ensures Partitions(p, q, [Describe(p.queue[..n])] + sent, [p.queue[..n]] + rest, maxEntries, maxBytes)
  {
    var batches := [p.queue[..n]] + rest;
    assert batches[1..] == rest;
    assert p.queue[..n] + (Flatten(rest) + q.queue) == p.queue;
  }

  lemma {:induction false} FlushLoopPartitions(p: Pipeline, maxEntries: nat, maxBytes: nat)
    returns (batches: seq<seq<LogEntry>>)
    ensures var (q, sent) := FlushLoop(p, maxEntries, maxBytes);
            Partitions(p, q, sent, batches, maxEntries, maxBytes)
    decreases |p.queue|
  {
    batches := [];
    if p.status.inflightEntries < p.limits.maxInflights && p.queue != [] {
      var n := TakeBatch(p, 0, 0, maxEntries, maxBytes);
      if n > 0 {
        TakeBatchWithinBounds(p, 0, 0, maxEntries, maxBytes);
        var rest := FlushLoopPartitions(SendBatch(p, n), maxEntries, maxBytes);
        var (q, sent) := FlushLoop(SendBatch(p, n), maxEntries, maxBytes);
        PrependBatch(p, n, q, sent, rest, maxEntries, maxBytes);
        batches := [p.queue[..n]] + rest;
      }
    }
  }

  lemma {:induction false} FlushOvershoot(p: Pipeline, maxEntries: nat, maxBytes: nat)
    ensures var q := FlushLoop(p, maxEntries, maxBytes).0;
            || q.status.inflightEntries == p.status.inflightEntries
            || q.status.inflightEntries < p.limits.maxInflights + maxEntries
    decreases |p.queue|
  {
    if p.status.inflightEntries < p.limits.maxInflights && p.queue != [] {
      var n := TakeBatch(p, 0, 0, maxEntries, maxBytes);
      if n > 0 {
        TakeBatchWithinBounds(p, 0, 0, maxEntries, maxBytes);
        FlushOvershoot(SendBatch(p, n), maxEntries, maxBytes);
      }
    }
  }

  /** Main result: the batches of a flush followed by what is still queued are the old
      queue, every batch respects the entry and byte bounds, the batches are appended
      to the inflight queue, and the window is overshot by less than one batch. */
  lemma FlushIsFifoPartition(p: Pipeline, maxEntries: nat, maxBytes: nat)
    ensures var (q, sent) := FlushAppendBatch(p, maxEntries, maxBytes);
            && (exists batches :: Partitions(p, q, sent, batches, Max(maxEntries, 1), Max(maxBytes, 1)))
            && (q.status.inflightEntries == p.status.inflightEntries
                || q.status.inflightEntries < p.limits.maxInflights + Max(maxEntries, 1))
  {
    var batches := FlushLoopPartitions(p, Max(maxEntries, 1), Max(maxBytes, 1));
    FlushOvershoot(p, Max(maxEntries, 1), Max(maxBytes, 1));
    var (q, sent) := FlushAppendBatch(p, maxEntries, maxBytes);
    assert Partitions(p, q, sent, batches, Max(maxEntries, 1), Max(maxBytes, 1));
  }

  /** The operation flushes no batches of more entries. */
  predicate BatchesWithin(op: Op, maxEntries: nat) {
    op.Flush? ==> op.maxEntries <= maxEntries
  }

  /** Less than a batch over the window. */
  ghost predicate InWindow(p: Pipeline, maxEntries: nat) {
    p.status.inflightEntries < p.limits.maxInflights + Max(maxEntries, 1)
  }

  lemma ResponseKeepsWindow(p: Pipeline, r: AppendResponse)
    requires Conserved(p)
    ensures var q := HandleAppendResponse(p, r).0;
            q.status.inflightEntries <= p.status.inflightEntries && q.limits == p.limits
  {
    if r.success {
      var m := Max(p.status.matchIndex, r.matchIndex);
      var q := p.(status := p.status.(matchIndex := m, nextIndex := m + 1));
      hide ReleaseThrough, DrainLoop, SumEntries, SumBytes, PayloadBytes, NextBackoffMs;
      ReleaseIsExact(q, r.matchIndex);
      DrainTouchesOnlyReorder(ReleaseThrough(q, r.matchIndex));
    }
  }

  lemma FlushKeepsWindow(p: Pipeline, maxEntries: nat, maxBytes: nat, bound: nat)
    requires InWindow(p, bound) && maxEntries <= bound
    ensures InWindow(FlushAppendBatch(p, maxEntries, maxBytes).0, bound)
    ensures FlushAppendBatch(p, maxEntries, maxBytes).0.limits == p.limits
  {
    FlushOvershoot(p, Max(maxEntries, 1), Max(maxBytes, 1));
    FlushKeepsLimits(p, Max(maxEntries, 1), Max(maxBytes, 1));
    hide FlushLoop;
  }

  lemma {:induction false} FlushKeepsLimits(p: Pipeline, maxEntries: nat, maxBytes: nat)
    ensures FlushLoop(p, maxEntries, maxBytes).0.limits == p.limits
    decreases |p.queue|
  {
    if p.status.inflightEntries < p.limits.maxInflights && p.queue != [] {
      var n := TakeBatch(p, 0, 0, maxEntries, maxBytes);
      if n > 0 {
        FlushKeepsLimits(SendBatch(p, n), maxEntries, maxBytes);
      }
    }
  }

  lemma ApplyKeepsWindow(p: Pipeline, op: Op, maxEntries: nat)
    requires Conserved(p) && InWindow(p, maxEntries) && BatchesWithin(op, maxEntries)
    ensures InWindow(Apply(p, op), maxEntries) && Apply(p, op).limits == p.limits
  {
    hide FlushAppendBatch, HandleAppendResponse, DrainLoop;
    match op
    case Flush(m, b) => FlushKeepsWindow(p, m, b, maxEntries);
    case Response(r) => ResponseKeepsWindow(p, r);
    case Receive(e) =>
      DrainTouchesOnlyReorder(p.(status := p.status.(matchIndex := e.logId.index, nextIndex := e.logId.index + 1)));
    case _ =>
  }

  lemma {:induction false} RunKeepsWindow(p: Pipeline, ops: seq<Op>, maxEntries: nat)
    requires Conserved(p) && InWindow(p, maxEntries) && forall i :: 0 <= i < |ops| ==> BatchesWithin(ops[i], maxEntries)
    ensures InWindow(Run(p, ops), maxEntries) && Run(p, ops).limits == p.limits
    decreases |ops|
  {
    if ops != [] {
      ApplyConserves(p, ops[0]);
      ApplyKeepsWindow(p, ops[0], maxEntries);
      hide Apply, Conserved, InWindow;
      RunKeepsWindow(Apply(p, ops[0]), ops[1..], maxEntries);
    }
  }

  /** Main result: over every run of operations whose flushes take batches of at most m entries,
      the entries in flight stay below the inflight limit plus m, or plus one for m zero. */
  lemma WindowOvershoot(nextIndex: LogIndex, limits: Limits, ops: seq<Op>, m: nat)
    requires forall i :: 0 <= i < |ops| ==> BatchesWithin(ops[i], m)
    ensures Run(New(nextIndex, limits), ops).status.inflightEntries < limits.maxInflights + Max(m, 1)
  {
    RunKeepsWindow(New(nextIndex, limits), ops, m);
  }

  // ----- Exact capacity without acknowledgements -----

  /** One replication attempt: queue an entry and, if it was queued, flush. */
  function Offer(p: Pipeline, e: LogEntry, maxEntries: nat, maxBytes: nat): (Pipeline, bool) {
    var (q, ok) := QueueAppend(p, e);
    if ok then (FlushAppendBatch(q, maxEntries, maxBytes).0, true) else (q, false)
  }

  function OfferAll(p: Pipeline, es: seq<LogEntry>, maxEntries: nat, maxBytes: nat): (Pipeline, nat)
    decreases |es|
  {
    if es == [] then (p, 0)
    else
      var (q, ok) := Offer(p, es[0], maxEntries, maxBytes);
      var (r, accepted) := OfferAll(q, es[1..], maxEntries, maxBytes);
      (r, accepted + if ok then 1 else 0)
  }

  /** The pipeline after accepted entries were taken in and none acknowledged. */
  ghost predicate Loaded(p: Pipeline, accepted: nat) {
    && p.status.queueLimit == p.limits.maxInflights
    && p.status.inflightEntries == Min(accepted, p.limits.maxInflights)
    && |p.queue| == SatSub(accepted, p.limits.maxInflights)
    && accepted <= 2 * p.limits.maxInflights
  }

  function HeldBytes(p: Pipeline): nat {
    p.status.inflightBytes + PayloadBytes(p.queue)
  }

  lemma OfferWhenLoaded(p: Pipeline, accepted: nat, e: LogEntry, maxEntries: nat, maxBytes: nat)
    requires Loaded(p, accepted)
    requires |e.payload| <= p.limits.maxApplyBatchBytes
    requires HeldBytes(p) + |e.payload| <= p.limits.maxMemoryBytes
    ensures var (q, ok) := Offer(p, e, maxEntries, maxBytes);
            && q.limits == p.limits
            && (ok <==> accepted < 2 * p.limits.maxInflights)
            && Loaded(q, accepted + if ok then 1 else 0)
            && HeldBytes(q) <= HeldBytes(p) + |e.payload|
  {
    if accepted < 2 * p.limits.maxInflights {
      PayloadBytesPush(p.queue, e);
      var q := QueueAppend(p, e).0;
      var m, b := Max(maxEntries, 1), Max(maxBytes, 1);
      if accepted < p.limits.maxInflights {
        assert p.queue == [] && q.queue == [e];
        assert TakeBatch(q, 1, |e.payload|, m, b) == 1;
        assert TakeBatch(q, 0, 0, m, b) == 1;
        assert q.queue[..1] == [e] && q.queue[1..] == [];
        assert FlushLoop(q, m, b).0 == SendBatch(q, 1);
      } else {
        assert FlushLoop(q, m, b).0 == q;
      }
    }
  }

  lemma {:induction false} OfferAllWhenLoaded(p: Pipeline, accepted: nat, es: seq<LogEntry>, maxEntries: nat, maxBytes: nat)
    requires Loaded(p, accepted)
    requires forall e :: e in es ==> |e.payload| <= p.limits.maxApplyBatchBytes
    requires HeldBytes(p) + PayloadBytes(es) <= p.limits.maxMemoryBytes
    ensures accepted + OfferAll(p, es, maxEntries, maxBytes).1 == Min(accepted + |es|, 2 * p.limits.maxInflights)
    decreases |es|
  {
    if es != [] {
      OfferWhenLoaded(p, accepted, es[0], maxEntries, maxBytes);
      var (q, ok) := Offer(p, es[0], maxEntries, maxBytes);
      OfferAllWhenLoaded(q, accepted + if ok then 1 else 0, es[1..], maxEntries, maxBytes);
    }
  }

  /** Main result: with enough memory and no acknowledgement, a new pipeline takes in
      exactly twice its inflight limit, whatever the batch sizes of the flushes. */
  lemma UnacknowledgedCapacity(nextIndex: LogIndex, limits: Limits, es: seq<LogEntry>, maxEntries: nat, maxBytes: nat)
    requires forall e :: e in es ==> |e.payload| <= limits.maxApplyBatchBytes
    requires PayloadBytes(es) <= limits.maxMemoryBytes
    ensures OfferAll(New(nextIndex, limits), es, maxEntries, maxBytes).1 == Min(|es|, 2 * limits.maxInflights)
  {
    OfferAllWhenLoaded(New(nextIndex, limits), 0, es, maxEntries, maxBytes);
  }
}
