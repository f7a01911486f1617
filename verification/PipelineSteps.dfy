/** What the pipeline counts, how it backs off, how full it sends its batches and when a
    snapshot transfer ends, over whole runs. */
module PipelineSteps {
  import opened Types
  import opened PipelineModel
  import opened PipelineTheorems
  import Reorder = ReorderTheorems

  // ----- Every refusal is counted once, under its cause -----

  /** How often each cause of a refusal, and each expiry, came up. */
  datatype Tally = Tally(oversized: nat, full: nat, memory: nat, stale: nat, window: nat, expired: nat)

  const NOTHING := Tally(0, 0, 0, 0, 0, 0)

  function Plus(a: Tally, b: Tally): Tally {
    Tally(a.oversized + b.oversized, a.full + b.full, a.memory + b.memory,
          a.stale + b.stale, a.window + b.window, a.expired + b.expired)
  }

  function Counted(p: Pipeline): Tally {
    Tally(p.status.oversizedRejections, p.status.queueRejections, p.status.memoryRejections,
          p.status.outOfOrderRejections, p.status.reorderRejected, p.status.reorderTimeouts)
  }

  /** The first limit that queueing an entry would break, by what the pipeline holds. */
  function QueueCause(p: Pipeline, e: LogEntry): Tally {
    if |e.payload| > p.limits.maxApplyBatchBytes then NOTHING.(oversized := 1)
    else if |p.queue| >= p.status.queueLimit then NOTHING.(full := 1)
    else if SumBytes(p.inflight) + PayloadBytes(p.queue + [e]) > p.limits.maxMemoryBytes then NOTHING.(memory := 1)
    else NOTHING
  }

  /** Why an arriving entry is refused: already passed, early with reordering off, or early
      with the window full. */
  function ArrivalCause(p: Pipeline, i: LogIndex): Tally {
    if i < p.status.nextIndex || (i > p.status.nextIndex && !p.limits.enableReorder) then NOTHING.(stale := 1)
    else if i > p.status.nextIndex && |p.reorder| >= p.limits.reorderWindow then NOTHING.(window := 1)
    else NOTHING
  }

  function CauseOf(p: Pipeline, op: Op): Tally {
    match op
    case Queue(e) => QueueCause(p, e)
    case Receive(e) => ArrivalCause(p, e.logId.index)
    case Expire => NOTHING.(expired := |p.reorder|)
    case _ => NOTHING
  }

  function Causes(p: Pipeline, ops: seq<Op>): Tally
    decreases |ops|
  {
    if ops == [] then NOTHING else Plus(CauseOf(p, ops[0]), Causes(Apply(p, ops[0]), ops[1..]))
  }

  /** An entry is queued at the end exactly when no limit would break, and otherwise nothing but
      a counter changes. */
  lemma QueueIsExact(p: Pipeline, e: LogEntry)
    requires Conserved(p)
    ensures var (q, ok) := QueueAppend(p, e);
            && (ok <==> QueueCause(p, e) == NOTHING)
            && Counted(q) == Plus(Counted(p), QueueCause(p, e))
            && q.queue == (if ok then p.queue + [e] else p.queue)
            && q.inflight == p.inflight && q.reorder == p.reorder && q.transfer == p.transfer && q.limits == p.limits
            && q.status.matchIndex == p.status.matchIndex && q.status.nextIndex == p.status.nextIndex
  {
    PayloadBytesPush(p.queue, e);
  }

  lemma ArrivalIsCounted(p: Pipeline, e: LogEntry)
    ensures var (q, ok) := ReceiveOutOfOrder(p, e);
            && (ok <==> ArrivalCause(p, e.logId.index) == NOTHING)
            && Counted(q) == Plus(Counted(p), ArrivalCause(p, e.logId.index))
  {
    DrainTouchesOnlyReorder(p.(status := p.status.(matchIndex := e.logId.index, nextIndex := e.logId.index + 1)));
    hide DrainLoop;
  }

  lemma ResponseCountsNothing(p: Pipeline, r: AppendResponse)
    requires Conserved(p)
    ensures Counted(HandleAppendResponse(p, r).0) == Counted(p)
  {
    var m := Max(p.status.matchIndex, r.matchIndex);
    var q := p.(status := p.status.(matchIndex := m, nextIndex := m + 1));
    ReleaseIsExact(q, r.matchIndex);
    DrainTouchesOnlyReorder(ReleaseThrough(q, r.matchIndex));
    hide ReleaseThrough, DrainLoop, SumEntries, SumBytes, PayloadBytes, NextBackoffMs;
  }

  lemma {:induction false} FlushCountsMemoryOnly(p: Pipeline, maxEntries: nat, maxBytes: nat)
    ensures var q := FlushLoop(p, maxEntries, maxBytes).0;
            && Counted(q) == Counted(p).(memory := q.status.memoryRejections)
            && q.status.retryAttempts == p.status.retryAttempts
            && q.status.backoffMs == p.status.backoffMs && q.status.nextRetryAfterMs == p.status.nextRetryAfterMs
    decreases |p.queue|
  {
    if !(p.status.inflightEntries >= p.limits.maxInflights || p.queue == []) {
      var n := TakeBatch(p, 0, 0, maxEntries, maxBytes);
      if n != 0 {
        FlushCountsMemoryOnly(SendBatch(p, n), maxEntries, maxBytes);
      }
    }
  }

  lemma OpIsCounted(p: Pipeline, op: Op)
    requires Conserved(p)
    ensures Counted(Apply(p, op)) == Plus(Counted(p), CauseOf(p, op))
  {
    match op {
      case Queue(e) => QueueIsExact(p, e);
      case Flush(maxEntries, maxBytes) =>
        FlushNeverHitsMemoryGuard(p, maxEntries, maxBytes);
        FlushCountsMemoryOnly(p, Max(maxEntries, 1), Max(maxBytes, 1));
      case Response(r) => ResponseCountsNothing(p, r);
      case Receive(e) => ArrivalIsCounted(p, e);
      case _ =>
    }
    hide QueueAppend, FlushLoop, HandleAppendResponse, ReceiveOutOfOrder;
  }

  lemma {:induction false} RunCounts(p: Pipeline, ops: seq<Op>)
    requires Conserved(p)
    ensures Counted(Run(p, ops)) == Plus(Counted(p), Causes(p, ops))
    decreases |ops|
  {
    if ops != [] {
      var next := Apply(p, ops[0]);
      assert Run(p, ops) == Run(next, ops[1..]);
      assert Causes(p, ops) == Plus(CauseOf(p, ops[0]), Causes(next, ops[1..]));
      hide *;
      OpIsCounted(p, ops[0]);
      ApplyConserves(p, ops[0]);
      RunCounts(next, ops[1..]);
      PlusAssociates(Counted(p), CauseOf(p, ops[0]), Causes(next, ops[1..]));
    } else {
      PlusNothing(Counted(p));
    }
  }

  lemma PlusAssociates(a: Tally, b: Tally, c: Tally)
    ensures Plus(Plus(a, b), c) == Plus(a, Plus(b, c))
  {
  }

  lemma PlusNothing(a: Tally)
    ensures Plus(a, NOTHING) == a
  {
  }

  lemma NothingPlus(a: Tally)
    ensures Plus(NOTHING, a) == a
  {
  }

  /** Main result: after any run from a new pipeline each counter is the number of operations
      that its cause refused, or of entries that expired. */
  lemma CountersAreExact(nextIndex: LogIndex, limits: Limits, ops: seq<Op>)
    ensures Counted(Run(New(nextIndex, limits), ops)) == Causes(New(nextIndex, limits), ops)
  {
    var p := New(nextIndex, limits);
    assert Conserved(p) && Counted(p) == NOTHING;
    hide *;
    RunCounts(p, ops);
    NothingPlus(Causes(p, ops));
  }

  // ----- Back-off -----

  /** The delay after a number of rejections in a row: 10 ms, doubled each time, up to 5 s. */
  function Delay(rejections: nat): nat {
    if rejections == 0 then 0
    else if rejections == 1 then 10
    else Min(2 * Delay(rejections - 1), 5000)
  }

  /** How many responses in a row, the last ones, were rejections; start of them before the run. */
  function Streak(start: nat, ops: seq<Op>): nat
    decreases |ops|
  {
    if ops == [] then start
    else match ops[0]
      case Response(r) => Streak(if r.success then 0 else start + 1, ops[1..])
      case _ => Streak(start, ops[1..])
  }

  lemma {:induction false} DelayIsBackoff(rejections: nat)
    requires rejections > 0
    ensures NextBackoffMs(rejections) == Delay(rejections)
  {
    if rejections > 1 {
      DelayIsBackoff(rejections - 1);
      assert Pow2(9) == 512 && Pow2(10) == 1024;
      if rejections <= 11 {
        assert Pow2(rejections - 1) == 2 * Pow2(rejections - 2);
      }
    }
  }

  ghost predicate BacksOff(p: Pipeline, rejections: nat) {
    && p.status.retryAttempts == rejections
    && p.status.backoffMs == Delay(rejections) && p.status.nextRetryAfterMs == Delay(rejections)
  }

  lemma ResponseBacksOff(p: Pipeline, r: AppendResponse, rejections: nat)
    requires BacksOff(p, rejections)
    ensures BacksOff(HandleAppendResponse(p, r).0, if r.success then 0 else rejections + 1)
  {
    DelayIsBackoff(rejections + 1);
    hide NextBackoffMs, ReleaseThrough, DrainLoop;
  }

  lemma FlushKeepsBackoff(p: Pipeline, maxEntries: nat, maxBytes: nat, rejections: nat)
    requires BacksOff(p, rejections)
    ensures BacksOff(FlushAppendBatch(p, maxEntries, maxBytes).0, rejections)
  {
    FlushCountsMemoryOnly(p, Max(maxEntries, 1), Max(maxBytes, 1));
    hide FlushLoop, Delay;
  }

  /** An arrival changes no more than the reorder buffer, the cursor and their counters. */
  ghost predicate OnlyReorder(p: Pipeline, q: Pipeline) {
    q == p.(reorder := q.reorder,
            status := p.status.(matchIndex := q.status.matchIndex, nextIndex := q.status.nextIndex,
                                reorderDepth := q.status.reorderDepth, reorderRejected := q.status.reorderRejected,
                                outOfOrderRejections := q.status.outOfOrderRejections))
  }

  lemma DrainOnlyReorders(p: Pipeline, at: LogIndex)
    ensures OnlyReorder(p, Drain(p.(status := p.status.(matchIndex := at, nextIndex := at + 1))))
  {
    DrainTouchesOnlyReorder(p.(status := p.status.(matchIndex := at, nextIndex := at + 1)));
    hide DrainLoop;
  }

  lemma ArrivalOnlyReorders(p: Pipeline, e: LogEntry)
    ensures OnlyReorder(p, ReceiveOutOfOrder(p, e).0)
  {
    DrainOnlyReorders(p, e.logId.index);
    hide Drain;
  }

  lemma ReorderKeepsBackoff(p: Pipeline, q: Pipeline, rejections: nat)
    requires BacksOff(p, rejections) && OnlyReorder(p, q)
    ensures BacksOff(q, rejections)
  {
    hide Delay;
  }

  lemma OtherKeepsBackoff(p: Pipeline, op: Op, rejections: nat)
    requires BacksOff(p, rejections) && !op.Response?
    ensures BacksOff(Apply(p, op), rejections)
  {
    match op {
      case Flush(maxEntries, maxBytes) => FlushKeepsBackoff(p, maxEntries, maxBytes, rejections);
      case Receive(e) =>
        ArrivalOnlyReorders(p, e);
        ReorderKeepsBackoff(p, Apply(p, op), rejections);
      case _ =>
    }
    hide FlushAppendBatch, ReceiveOutOfOrder, Delay;
  }

  lemma {:induction false} RunBacksOff(p: Pipeline, ops: seq<Op>, rejections: nat)
    requires BacksOff(p, rejections)
    ensures BacksOff(Run(p, ops), Streak(rejections, ops))
    decreases |ops|
  {
    if ops != [] {
      if ops[0].Response? {
        ResponseBacksOff(p, ops[0].response, rejections);
        var next := if ops[0].response.success then 0 else rejections + 1;
        assert BacksOff(Apply(p, ops[0]), next);
        hide Apply, BacksOff;
        RunBacksOff(Apply(p, ops[0]), ops[1..], next);
      } else {
        OtherKeepsBackoff(p, ops[0], rejections);
        hide Apply, BacksOff;
        RunBacksOff(Apply(p, ops[0]), ops[1..], rejections);
      }
    }
  }

  /** Main result: after any run from a new pipeline the delay is that of the rejections since
      the last success. */
  lemma BackoffFollowsRejections(nextIndex: LogIndex, limits: Limits, ops: seq<Op>)
    ensures BacksOff(Run(New(nextIndex, limits), ops), Streak(0, ops))
  {
    RunBacksOff(New(nextIndex, limits), ops, 0);
  }

  // ----- Responses -----

  /** Buffered entries are kept under their own index, and the next index follows the match. */
  ghost predicate Keyed(p: Pipeline) {
    forall i :: i in p.reorder ==> p.reorder[i].logId.index == i
  }

  /** The buffer has lost exactly the indices from the first to the last given. */
  ghost predicate Without(before: map<LogIndex, LogEntry>, after: map<LogIndex, LogEntry>, first: LogIndex, last: LogIndex) {
    && (forall i :: i in after <==> i in before && !(first <= i <= last))
    && forall i :: i in after ==> after[i] == before[i]
  }

  lemma DeliverWithout(p: Pipeline)
    requires Keyed(p) && p.status.nextIndex in p.reorder
    ensures var q := Deliver(p);
            && Keyed(q) && q.status.matchIndex == p.status.nextIndex && q.status.nextIndex == p.status.nextIndex + 1
            && Without(p.reorder, q.reorder, p.status.nextIndex, p.status.nextIndex)
  {
  }

  /** Draining delivers the buffered entries that follow the cursor without a gap, and no more. */
  lemma {:induction false} DrainDelivers(p: Pipeline)
    requires Keyed(p) && p.status.nextIndex == p.status.matchIndex + 1
    ensures var q := DrainLoop(p);
            && Keyed(q) && q.status.nextIndex == q.status.matchIndex + 1
            && Reorder.IsPrefixEnd(p.status.nextIndex, p.reorder.Keys, q.status.matchIndex)
            && Without(p.reorder, q.reorder, p.status.nextIndex, q.status.matchIndex)
    decreases |p.reorder|
  {
    if p.status.nextIndex in p.reorder {
      DeliverWithout(p);
      var next := Deliver(p);
      assert DrainLoop(p) == DrainLoop(next);
      hide *;
      DrainDelivers(next);
      PrefixGrows(p.reorder, next.reorder, DrainLoop(next).reorder, p.status.nextIndex, DrainLoop(next).status.matchIndex);
    } else {
      hide Keyed;
    }
  }

  lemma PrefixGrows(a: map<LogIndex, LogEntry>, b: map<LogIndex, LogEntry>, c: map<LogIndex, LogEntry>, n: LogIndex, m: LogIndex)
    requires n in a && Without(a, b, n, n)
    requires Reorder.IsPrefixEnd(n + 1, b.Keys, m) && Without(b, c, n + 1, m)
    ensures Reorder.IsPrefixEnd(n, a.Keys, m) && Without(a, c, n, m)
  {
  }

  /** A success raises the match index to the one reported and over the buffered entries that
      then follow without a gap, which leave the buffer; it releases exactly the batches in
      front that are covered and clears the back-off. */
  ghost predicate Succeeded(p: Pipeline, q: Pipeline, index: LogIndex) {
    && Reorder.IsPrefixEnd(Max(p.status.matchIndex, index) + 1, p.reorder.Keys, q.status.matchIndex)
    && q.status.nextIndex == q.status.matchIndex + 1
    && Without(p.reorder, q.reorder, Max(p.status.matchIndex, index) + 1, q.status.matchIndex)
    && Released(p.inflight, q.inflight, index)
    && q.queue == p.queue && q.transfer == p.transfer && q.limits == p.limits && BacksOff(q, 0)
  }

  ghost predicate Released(before: seq<Inflight>, after: seq<Inflight>, index: LogIndex) {
    && |after| <= |before| && after == before[|before| - |after|..]
    && (forall i :: 0 <= i < |before| - |after| ==> before[i].last.index <= index)
    && (after != [] ==> after[0].last.index > index)
  }

  /** A rejection changes the next index to the one after the hint, or after the match without
      one, and counts towards the back-off. */
  ghost predicate Rejected(p: Pipeline, q: Pipeline, hint: Option<LogIndex>) {
    && q.status.nextIndex == hint.UnwrapOr(p.status.matchIndex) + 1
    && q.status.retryAttempts == p.status.retryAttempts + 1
    && q == p.(status := p.status.(nextIndex := q.status.nextIndex, retryAttempts := q.status.retryAttempts,
                                   backoffMs := q.status.backoffMs, nextRetryAfterMs := q.status.nextRetryAfterMs))
  }

  /** The same cursor and queues. */
  ghost predicate SameQueues(p: Pipeline, q: Pipeline) {
    && q.status.matchIndex == p.status.matchIndex && q.status.nextIndex == p.status.nextIndex
    && q.reorder == p.reorder && SameSending(p, q)
  }

  ghost predicate SameSending(p: Pipeline, q: Pipeline) {
    q.inflight == p.inflight && q.queue == p.queue && q.transfer == p.transfer && q.limits == p.limits
  }

  /** The cursor was raised and the covered batches released, before the buffer is drained. */
  ghost predicate ReleasedUpTo(p: Pipeline, q: Pipeline, at: LogIndex, index: LogIndex) {
    && Released(p.inflight, q.inflight, index) && q.status.matchIndex == at && q.status.nextIndex == at + 1
    && q.reorder == p.reorder && q.queue == p.queue && q.transfer == p.transfer && q.limits == p.limits
  }

  lemma SuccessUnfolds(p: Pipeline, r: AppendResponse)
    requires r.success
    ensures var m := Max(p.status.matchIndex, r.matchIndex);
            var q := p.(status := p.status.(matchIndex := m, nextIndex := m + 1));
            var h := HandleAppendResponse(p, r).0;
            SameQueues(DrainLoop(ReleaseThrough(q, r.matchIndex)), h) && BacksOff(h, 0)
  {
    hide DrainLoop, ReleaseThrough;
  }

  lemma ReleasedExactly(p: Pipeline, at: LogIndex, index: LogIndex)
    requires Conserved(p)
    ensures var q := p.(status := p.status.(matchIndex := at, nextIndex := at + 1));
            ReleasedUpTo(p, ReleaseThrough(q, index), at, index)
  {
    var q := p.(status := p.status.(matchIndex := at, nextIndex := at + 1));
    assert q.status.inflightEntries == SumEntries(q.inflight) && q.status.inflightBytes == SumBytes(q.inflight);
    hide ReleaseThrough, Conserved, SumEntries, SumBytes;
    ReleaseIsExact(q, index);
  }

  lemma DrainKeepsRest(p: Pipeline)
    ensures SameSending(p, DrainLoop(p))
  {
    DrainTouchesOnlyReorder(p);
    hide DrainLoop;
  }

  lemma SucceedsBy(p: Pipeline, released: Pipeline, h: Pipeline, index: LogIndex)
    requires Keyed(p) && ReleasedUpTo(p, released, Max(p.status.matchIndex, index), index)
    requires SameQueues(DrainLoop(released), h) && BacksOff(h, 0)
    ensures Succeeded(p, h, index) && Keyed(h)
  {
    DrainKeepsRest(released);
    DrainDelivers(released);
    hide DrainLoop, Without, Reorder.IsPrefixEnd, Released, BacksOff;
  }

  lemma SuccessIsExact(p: Pipeline, r: AppendResponse)
    requires Conserved(p) && Keyed(p) && r.success
    ensures Succeeded(p, HandleAppendResponse(p, r).0, r.matchIndex) && Keyed(HandleAppendResponse(p, r).0)
  {
    var m := Max(p.status.matchIndex, r.matchIndex);
    var q := p.(status := p.status.(matchIndex := m, nextIndex := m + 1));
    hide *;
    SuccessUnfolds(p, r);
    ReleasedExactly(p, m, r.matchIndex);
    SucceedsBy(p, ReleaseThrough(q, r.matchIndex), HandleAppendResponse(p, r).0, r.matchIndex);
  }

  /** Main result: what a response does to a pipeline. */
  lemma ResponseIsExact(p: Pipeline, r: AppendResponse)
    requires Conserved(p) && Keyed(p)
    ensures var (q, ok) := HandleAppendResponse(p, r);
            && ok == r.success && (ok ==> Succeeded(p, q, r.matchIndex)) && (!ok ==> Rejected(p, q, r.rejectionHint))
  {
    if r.success {
      SuccessIsExact(p, r);
    }
    hide Drain, ReleaseThrough, Succeeded, NextBackoffMs;
  }

  lemma ArrivalKeepsKeys(p: Pipeline, e: LogEntry)
    requires Keyed(p)
    ensures Keyed(ReceiveOutOfOrder(p, e).0)
  {
    var i := e.logId.index;
    var q := p.(status := p.status.(matchIndex := i, nextIndex := i + 1));
    DrainDelivers(q);
    assert Keyed(Drain(q)) by {
      hide DrainLoop;
    }
    assert Keyed(p.(reorder := p.reorder[i := e]));
    hide Drain, DrainLoop;
  }

  lemma {:induction false} FlushKeepsBuffer(p: Pipeline, maxEntries: nat, maxBytes: nat)
    ensures FlushLoop(p, maxEntries, maxBytes).0.reorder == p.reorder
    decreases |p.queue|
  {
    if !(p.status.inflightEntries >= p.limits.maxInflights || p.queue == []) {
      var n := TakeBatch(p, 0, 0, maxEntries, maxBytes);
      if n != 0 {
        FlushKeepsBuffer(SendBatch(p, n), maxEntries, maxBytes);
      }
    }
  }

  lemma ApplyKeepsKeys(p: Pipeline, op: Op)
    requires Conserved(p) && Keyed(p)
    ensures Keyed(Apply(p, op))
  {
    match op {
      case Flush(maxEntries, maxBytes) => FlushKeepsBuffer(p, Max(maxEntries, 1), Max(maxBytes, 1));
      case Response(r) =>
        if r.success {
          SuccessIsExact(p, r);
        } else {
          ResponseIsExact(p, r);
        }
      case Receive(e) => ArrivalKeepsKeys(p, e);
      case _ =>
    }
    hide FlushLoop, HandleAppendResponse, ReceiveOutOfOrder, Conserved, Succeeded;
  }

  lemma {:induction false} RunKeepsKeys(p: Pipeline, ops: seq<Op>)
    requires Conserved(p) && Keyed(p)
    ensures Conserved(Run(p, ops)) && Keyed(Run(p, ops))
    decreases |ops|
  {
    if ops != [] {
      ApplyKeepsKeys(p, ops[0]);
      ApplyConserves(p, ops[0]);
      hide Apply, Conserved, Keyed;
      RunKeepsKeys(Apply(p, ops[0]), ops[1..]);
    }
  }

  /** The conditions of ResponseIsExact hold in every run from a new pipeline. */
  lemma RunIsKeyed(nextIndex: LogIndex, limits: Limits, ops: seq<Op>)
    ensures var p := Run(New(nextIndex, limits), ops); Conserved(p) && Keyed(p)
  {
    RunKeepsKeys(New(nextIndex, limits), ops);
  }

  // ----- Batches are as full as they may be -----

  /** A batch of n entries ends for a reason: the queue, its count or its bytes. */
  ghost predicate EndsFull(queue: seq<LogEntry>, n: nat, maxEntries: nat, maxBytes: nat) {
    && 0 < n <= |queue|
    && (n == |queue| || n == maxEntries || PayloadBytes(queue[..n + 1]) > maxBytes)
  }

  /** The sent batches are each as full as they may be, and each was sent into an open window. */
  ghost predicate Greedy(queue: seq<LogEntry>, sent: seq<Inflight>, inflight: nat, window: nat, maxEntries: nat, maxBytes: nat)
    decreases |sent|
  {
    sent != [] ==>
      && EndsFull(queue, sent[0].entryCount, maxEntries, maxBytes) && inflight < window
      && Greedy(queue[sent[0].entryCount..], sent[1..], inflight + sent[0].entryCount, window, maxEntries, maxBytes)
  }

  lemma {:induction false} TakesFull(p: Pipeline, taken: nat, bytes: nat, maxEntries: nat, maxBytes: nat)
    requires Flushing(p) && p.queue != [] && taken <= |p.queue| && taken <= maxEntries && maxEntries > 0
    requires bytes == PayloadBytes(p.queue[..taken])
    ensures EndsFull(p.queue, TakeBatch(p, taken, bytes, maxEntries, maxBytes), maxEntries, maxBytes)
    decreases |p.queue| - taken
  {
    if taken < maxEntries && taken < |p.queue| {
      assert p.queue[..taken + 1] == p.queue[..taken] + [p.queue[taken]];
      PayloadBytesPush(p.queue[..taken], p.queue[taken]);
      SplitBytes(p.queue, taken + 1);
      hide EndsFull;
      if taken == 0 || PayloadBytes(p.queue[..taken + 1]) <= maxBytes {
        TakesFull(p, taken + 1, PayloadBytes(p.queue[..taken + 1]), maxEntries, maxBytes);
      } else {
        EndsByBytes(p.queue, taken, maxEntries, maxBytes);
      }
    }
  }

  lemma EndsByBytes(queue: seq<LogEntry>, n: nat, maxEntries: nat, maxBytes: nat)
    requires 0 < n < |queue| && PayloadBytes(queue[..n + 1]) > maxBytes
    ensures EndsFull(queue, n, maxEntries, maxBytes)
  {
  }

  lemma {:induction false} FlushLoopIsGreedy(p: Pipeline, maxEntries: nat, maxBytes: nat)
    requires Flushing(p) && maxEntries > 0
    ensures var (q, sent) := FlushLoop(p, maxEntries, maxBytes);
            Greedy(p.queue, sent, p.status.inflightEntries, p.limits.maxInflights, maxEntries, maxBytes)
    decreases |p.queue|
  {
    if p.status.inflightEntries < p.limits.maxInflights && p.queue != [] {
      TakesFull(p, 0, 0, maxEntries, maxBytes);
      var n := TakeBatch(p, 0, 0, maxEntries, maxBytes);
      SendKeepsFlushing(p, n);
      var next := SendBatch(p, n);
      FlushSendsFirst(p, n, maxEntries, maxBytes);
      hide *;
      FlushLoopIsGreedy(next, maxEntries, maxBytes);
      GreedyFirst(p.queue, Describe(p.queue[..n]), FlushLoop(next, maxEntries, maxBytes).1,
                  p.status.inflightEntries, p.limits.maxInflights, maxEntries, maxBytes);
    }
  }

  lemma FlushSendsFirst(p: Pipeline, n: nat, maxEntries: nat, maxBytes: nat)
    requires p.status.inflightEntries < p.limits.maxInflights && 0 < n <= |p.queue|
    requires n == TakeBatch(p, 0, 0, maxEntries, maxBytes)
    ensures var (next, first) := (SendBatch(p, n), Describe(p.queue[..n]));
            && FlushLoop(p, maxEntries, maxBytes).1 == [first] + FlushLoop(next, maxEntries, maxBytes).1
            && next.queue == p.queue[n..] && next.limits == p.limits && first.entryCount == n
            && next.status.inflightEntries == p.status.inflightEntries + n
  {
  }

  lemma GreedyFirst(queue: seq<LogEntry>, first: Inflight, rest: seq<Inflight>, inflight: nat, window: nat,
                    maxEntries: nat, maxBytes: nat)
    requires EndsFull(queue, first.entryCount, maxEntries, maxBytes) && inflight < window
    requires Greedy(queue[first.entryCount..], rest, inflight + first.entryCount, window, maxEntries, maxBytes)
    ensures Greedy(queue, [first] + rest, inflight, window, maxEntries, maxBytes)
  {
    assert ([first] + rest)[1..] == rest;
  }

  /** Main result: a flush sends only while the window is open and until it is full or the queue
      is empty, and no batch could have taken one more entry. */
  lemma FlushIsGreedy(p: Pipeline, maxEntries: nat, maxBytes: nat)
    requires Conserved(p)
    ensures var (q, sent) := FlushAppendBatch(p, maxEntries, maxBytes);
            && Greedy(p.queue, sent, p.status.inflightEntries, p.limits.maxInflights, Max(maxEntries, 1), Max(maxBytes, 1))
            && (q.status.inflightEntries >= p.limits.maxInflights || q.queue == [])
  {
    FlushLoopIsGreedy(p, Max(maxEntries, 1), Max(maxBytes, 1));
    FlushNeverHitsMemoryGuard(p, maxEntries, maxBytes);
    FlushKeepsLimits(p, Max(maxEntries, 1), Max(maxBytes, 1));
    hide FlushLoop, Greedy, Conserved;
  }

  // ----- Snapshot transfers -----

  /** No transfer is going on. */
  ghost predicate Idle(p: Pipeline) {
    p.transfer.None? && !p.status.sending && !p.status.installing
  }

  /** A transfer of the given kind is open with that many chunks counted; the rest of the
      pipeline is as it was. */
  ghost predicate Open(p: Pipeline, q: Pipeline, send: bool, t: Transfer) {
    q == p.(transfer := Some(t),
            status := p.status.(sending := send || p.status.sending, installing := !send || p.status.installing))
  }

  /** The transfer has ended: its snapshot is installed and matched. */
  ghost predicate Finished(p: Pipeline, q: Pipeline, index: LogIndex) {
    && Idle(q) && q.status.installedIndex == Max(p.status.installedIndex, index)
    && q.status.matchIndex == Max(p.status.matchIndex, index) && q.status.nextIndex == q.status.matchIndex + 1
    && q == p.(transfer := None,
               status := p.status.(sending := false, installing := false, installedIndex := q.status.installedIndex,
                                   matchIndex := q.status.matchIndex, nextIndex := q.status.nextIndex))
  }

  predicate ChunkOp(op: Op) {
    op.Acknowledge? || op.Chunk?
  }

  /** The n-th chunk event ends a transfer of so many chunks: a last chunk that was received, or
      the acknowledgement of as many as there are. */
  predicate Ends(op: Op, n: nat, total: nat) {
    match op
    case Chunk(done) => done
    case Acknowledge => n >= total
    case _ => false
  }

  lemma {:induction false} TransferRuns(p: Pipeline, q: Pipeline, send: bool, t: Transfer, ops: seq<Op>)
    requires Idle(p) && Open(p, q, send, t) && forall i :: 0 <= i < |ops| ==> ChunkOp(ops[i])
    ensures var r := Run(q, ops);
            if exists i :: 0 <= i < |ops| && Ends(ops[i], t.acknowledged + i + 1, t.totalChunks)
            then Finished(p, r, t.snapshotIndex)
            else Open(p, r, send, t.(acknowledged := t.acknowledged + |ops|))
    decreases |ops|
  {
    if ops != [] {
      var next := Apply(q, ops[0]);
      var counted := t.(acknowledged := t.acknowledged + 1);
      if Ends(ops[0], t.acknowledged + 1, t.totalChunks) {
        assert Finished(p, next, t.snapshotIndex);
        hide Finished, Apply;
        FinishedStays(p, next, t.snapshotIndex, ops[1..]);
      } else {
        assert Open(p, next, send, counted);
        hide Apply, Open, Finished;
        TransferRuns(p, next, send, counted, ops[1..]);
        EndsShifts(ops, t);
      }
    }
  }

  lemma EndsShifts(ops: seq<Op>, t: Transfer)
    requires ops != [] && !Ends(ops[0], t.acknowledged + 1, t.totalChunks)
    ensures (exists i :: 0 <= i < |ops| && Ends(ops[i], t.acknowledged + i + 1, t.totalChunks))
            <==> exists i :: 0 <= i < |ops[1..]| && Ends(ops[1..][i], t.acknowledged + 1 + i + 1, t.totalChunks)
  {
    if i :| 0 <= i < |ops| && Ends(ops[i], t.acknowledged + i + 1, t.totalChunks) {
      assert i > 0 && Ends(ops[1..][i - 1], t.acknowledged + 1 + (i - 1) + 1, t.totalChunks);
    }
    if i :| 0 <= i < |ops[1..]| && Ends(ops[1..][i], t.acknowledged + 1 + i + 1, t.totalChunks) {
      assert Ends(ops[i + 1], t.acknowledged + (i + 1) + 1, t.totalChunks);
    }
  }

  /** Without a transfer every chunk event is refused and changes nothing. */
  lemma {:induction false} FinishedStays(p: Pipeline, q: Pipeline, index: LogIndex, ops: seq<Op>)
    requires Finished(p, q, index) && forall i :: 0 <= i < |ops| ==> ChunkOp(ops[i])
    ensures Finished(p, Run(q, ops), index)
    decreases |ops|
  {
    if ops != [] {
      assert Apply(q, ops[0]) == q;
      FinishedStays(p, q, index, ops[1..]);
    }
  }

  // ----- The flags agree with the transfer -----

  ghost predicate SameTransfer(p: Pipeline, q: Pipeline) {
    q.transfer == p.transfer && q.status.sending == p.status.sending && q.status.installing == p.status.installing
  }

  lemma {:induction false} FlushSameTransfer(p: Pipeline, maxEntries: nat, maxBytes: nat)
    ensures SameTransfer(p, FlushLoop(p, maxEntries, maxBytes).0)
    decreases |p.queue|
  {
    if !(p.status.inflightEntries >= p.limits.maxInflights || p.queue == []) {
      var n := TakeBatch(p, 0, 0, maxEntries, maxBytes);
      if n != 0 {
        FlushSameTransfer(SendBatch(p, n), maxEntries, maxBytes);
      }
    }
  }

  lemma {:induction false} ReleaseSameTransfer(p: Pipeline, index: LogIndex)
    ensures SameTransfer(p, ReleaseThrough(p, index))
    decreases |p.inflight|
  {
    if p.inflight != [] && p.inflight[0].last.index <= index {
      var done := p.inflight[0];
      ReleaseSameTransfer(p.(inflight := p.inflight[1..],
                             status := p.status.(inflightEntries := SatSub(p.status.inflightEntries, done.entryCount),
                                                 inflightBytes := SatSub(p.status.inflightBytes, done.bytes))), index);
    }
  }

  ghost predicate FlagsAgree(p: Pipeline) {
    p.transfer.Some? <==> p.status.sending || p.status.installing
  }

  lemma ResponseSameTransfer(p: Pipeline, r: AppendResponse)
    ensures SameTransfer(p, HandleAppendResponse(p, r).0)
  {
    var m := Max(p.status.matchIndex, r.matchIndex);
    var q := p.(status := p.status.(matchIndex := m, nextIndex := m + 1));
    ReleaseSameTransfer(q, r.matchIndex);
    DrainTouchesOnlyReorder(ReleaseThrough(q, r.matchIndex));
    hide ReleaseThrough, DrainLoop, NextBackoffMs;
  }

  lemma ApplyKeepsFlags(p: Pipeline, op: Op)
    requires FlagsAgree(p)
    ensures FlagsAgree(Apply(p, op))
  {
    match op {
      case Flush(maxEntries, maxBytes) => FlushSameTransfer(p, Max(maxEntries, 1), Max(maxBytes, 1));
      case Response(r) => ResponseSameTransfer(p, r);
      case Receive(e) => ArrivalOnlyReorders(p, e);
      case _ =>
    }
    hide FlushLoop, HandleAppendResponse, ReceiveOutOfOrder;
  }

  lemma {:induction false} RunKeepsFlags(p: Pipeline, ops: seq<Op>)
    requires FlagsAgree(p)
    ensures FlagsAgree(Run(p, ops))
    decreases |ops|
  {
    if ops != [] {
      ApplyKeepsFlags(p, ops[0]);
      RunKeepsFlags(Apply(p, ops[0]), ops[1..]);
    }
  }

  /** In every run from a new pipeline the flags are set exactly while a transfer is open. */
  lemma FlagsFollowTransfer(nextIndex: LogIndex, limits: Limits, ops: seq<Op>)
    ensures FlagsAgree(Run(New(nextIndex, limits), ops))
  {
    RunKeepsFlags(New(nextIndex, limits), ops);
  }

  /** Main result: a transfer begins exactly on an idle pipeline. It then stays open until the
      first event that ends it, which installs the snapshot once and for all; a rollback closes
      it with nothing installed. */
  lemma TransferIsExact(p: Pipeline, send: bool, index: LogIndex, total: nat, ops: seq<Op>)
    requires FlagsAgree(p)
    requires forall i :: 0 <= i < |ops| ==> ChunkOp(ops[i])
    ensures var (q, ok) := BeginTransfer(p, send, index, total);
            && (ok <==> Idle(p)) && (!ok ==> q == p)
            && (ok ==> Open(p, q, send, Transfer(index, total, 0)))
            && (ok ==>
                  if exists i :: 0 <= i < |ops| && Ends(ops[i], i + 1, total) then Finished(p, Run(q, ops), index)
                  else Open(p, Run(q, ops), send, Transfer(index, total, |ops|)) && RollbackInstall(Run(q, ops)) == p)
  {
    var (q, ok) := BeginTransfer(p, send, index, total);
    if ok {
      TransferRuns(p, q, send, Transfer(index, total, 0), ops);
      assert forall i :: 0 <= i < |ops| ==> (Ends(ops[i], i + 1, total) <==> Ends(ops[i], 0 + i + 1, total));
    }
    hide Run, Finished, Ends;
  }
}
