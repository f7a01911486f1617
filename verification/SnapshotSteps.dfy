/** What the status of a snapshot lifecycle says after any mix of sending, installing, rejections,
    time-outs and roll-backs. */
module SnapshotSteps {
  import opened Types
  import opened SnapshotModel

  datatype Op =
    | Begin(snapshot: Snapshot, term: Term, leaderId: NodeId)
    | Tick
    | Respond(response: Response)
    | TimeOut
    | Receive(request: Request)
    | RollBack

  ghost predicate Ready(l: Lifecycle) {
    l.config.Valid() && CursorInRange(l)
  }

  function Apply(l: Lifecycle, op: Op): (t: Lifecycle)
    requires Ready(l)
    ensures Ready(t)
  {
    match op
    case Begin(s, term, leaderId) => BeginSend(l, s, term, leaderId).0
    case Tick => Poll(l).0
    case Respond(r) => RecordResponse(l, r).0
    case TimeOut => RecordTimeout(l).0
    case Receive(r) => Install(l, r).0
    case RollBack => RollbackInstall(l)
  }

  function Run(l: Lifecycle, ops: seq<Op>): (t: Lifecycle)
    requires Ready(l)
    ensures Ready(t)
    decreases |ops|
  {
    if ops == [] then l else Run(Apply(l, ops[0]), ops[1..])
  }

  // ----- What happened, by what each operation answered -----

  /** The transfer last begun or received: its id, the requests sent for it, the retries spent,
      the chunks taken, and whether and at which index it completed; and all roll-backs. */
  datatype Story = Story(
    id: Option<string>, sent: nat, retries: nat, taken: nat, total: nat, rolledBack: nat,
    completed: bool, installed: LogIndex)

  function Told(l: Lifecycle): Story {
    Story(l.status.snapshotId, l.status.sentChunks, l.status.retryCount, l.status.receivedChunks, l.status.totalChunks,
          l.status.rolledBack, l.status.completed, l.status.installedIndex)
  }

  /** How many pieces of at most a size a length takes; even nothing takes one. */
  function Pieces(length: nat, size: nat): nat
    requires size > 0
  {
    if length <= size then 1 else 1 + Pieces(length - size, size)
  }

  function Continue(story: Story, l: Lifecycle, op: Op): Story
    requires Ready(l)
  {
    match op
    case Begin(s, _, _) =>
      if l.sender.Some? || l.installer.Some? then story
      else Story(Some(s.meta.snapshotId), 0, 0, 0, Pieces(|s.payload|, l.config.chunkSize), story.rolledBack, false, 0)
    case Tick => if Poll(l).1.Ok? then story.(sent := story.sent + |Poll(l).1.value|) else story
    case Respond(r) =>
      if l.sender.None? then story
      else if !r.accepted then story.(retries := story.retries + 1)
      else story.(completed := story.completed || l.sender.value.acceptedChunks + 1 >= |l.sender.value.chunks|)
    case TimeOut => if l.sender.None? then story else story.(retries := story.retries + 1)
    case Receive(r) =>
      var current :=
        if l.installer.Some? then story
        else story.(id := Some(r.chunk.meta.snapshotId), taken := 0, total := 0, completed := false);
      (match Install(l, r).1
       case Err(_) => current
       case Ok(out) =>
         var more := current.(taken := current.taken + 1, total := Max(current.total, current.taken + 1));
         if out.Some? then more.(completed := true, installed := out.value.meta.lastLogId.index) else more)
    case RollBack => story.(rolledBack := story.rolledBack + 1)
  }

  function Tell(story: Story, l: Lifecycle, ops: seq<Op>): Story
    requires Ready(l)
    decreases |ops|
  {
    if ops == [] then story else Tell(Continue(story, l, ops[0]), Apply(l, ops[0]), ops[1..])
  }

  lemma {:induction false} PieceCount(s: Snapshot, chunkSize: nat, offset: nat)
    requires chunkSize > 0 && offset < |s.payload|
    ensures |ChunksFrom(s, chunkSize, offset)| == Pieces(|s.payload| - offset, chunkSize)
    decreases |s.payload| - offset
  {
    if offset + chunkSize < |s.payload| {
      PieceCount(s, chunkSize, offset + chunkSize);
    }
  }

  lemma CheckpointCount(s: Snapshot, chunkSize: nat)
    requires chunkSize > 0
    ensures |Checkpoint(s, chunkSize)| == Pieces(|s.payload|, chunkSize)
  {
    if s.payload != [] {
      PieceCount(s, chunkSize, 0);
    }
    hide ChunksFrom;
  }

  lemma ReceiptIsTold(l: Lifecycle, r: Request)
    requires Ready(l)
    ensures Told(Install(l, r).0) == Continue(Told(l), l, Receive(r)) && Install(l, r).0.config == l.config
  {
  }

  lemma StepIsTold(l: Lifecycle, op: Op)
    requires Ready(l)
    ensures Told(Apply(l, op)) == Continue(Told(l), l, op) && Apply(l, op).config == l.config
  {
    match op {
      case Begin(s, _, _) => CheckpointCount(s, l.config.chunkSize);
      case Receive(r) => ReceiptIsTold(l, r);
      case _ =>
    }
    hide Install, Checkpoint, Pieces, PollUpTo, FirstAtOrAfter;
  }

  lemma {:induction false} RunIsTold(l: Lifecycle, ops: seq<Op>)
    requires Ready(l)
    ensures Told(Run(l, ops)) == Tell(Told(l), l, ops)
    decreases |ops|
  {
    if ops != [] {
      StepIsTold(l, ops[0]);
      hide Apply, Continue, Told;
      RunIsTold(Apply(l, ops[0]), ops[1..]);
    }
  }

  const BLANK := Story(None, 0, 0, 0, 0, 0, false, 0)

  /** Main result: after any run from a new lifecycle the status tells of the transfer last begun
      or received exactly what its requests and answers were. */
  lemma StatusIsTruthful(config: Config, ops: seq<Op>)
    requires config.Valid()
    ensures var l := Lifecycle(config, None, None, INITIAL_STATUS);
            Ready(l) && Told(Run(l, ops)) == Tell(BLANK, l, ops)
  {
    RunIsTold(Lifecycle(config, None, None, INITIAL_STATUS), ops);
  }

  // ----- The flags -----

  /** The installing flag is set exactly while chunks are being taken; the sending flag only while
      a send is going on, and it stays set unless a first chunk was received meanwhile. */
  ghost predicate FlagsAgree(l: Lifecycle, interrupted: bool) {
    && (l.status.installing <==> l.installer.Some?)
    && (l.status.sending <==> l.sender.Some? && !interrupted)
  }

  /** Whether the send going on had a transfer start in the other direction. */
  function Interrupted(l: Lifecycle, interrupted: bool, op: Op): bool
    requires Ready(l)
  {
    match op
    case Begin(_, _, _) => interrupted && (l.sender.Some? || l.installer.Some?)
    case Receive(_) => interrupted || l.installer.None?
    case _ => interrupted
  }

  function InterruptedAfter(l: Lifecycle, interrupted: bool, ops: seq<Op>): bool
    requires Ready(l)
    decreases |ops|
  {
    if ops == [] then interrupted else InterruptedAfter(Apply(l, ops[0]), Interrupted(l, interrupted, ops[0]), ops[1..])
  }

  lemma StepKeepsFlags(l: Lifecycle, interrupted: bool, op: Op)
    requires Ready(l) && FlagsAgree(l, interrupted)
    ensures FlagsAgree(Apply(l, op), Interrupted(l, interrupted, op))
  {
    hide Checkpoint, PollUpTo, FirstAtOrAfter;
  }

  /** Main result: so in every run from a new lifecycle. */
  lemma {:induction false} FlagsAreExact(l: Lifecycle, interrupted: bool, ops: seq<Op>)
    requires Ready(l) && FlagsAgree(l, interrupted)
    ensures FlagsAgree(Run(l, ops), InterruptedAfter(l, interrupted, ops))
    decreases |ops|
  {
    if ops != [] {
      StepKeepsFlags(l, interrupted, ops[0]);
      hide Apply, Interrupted, FlagsAgree;
      FlagsAreExact(Apply(l, ops[0]), Interrupted(l, interrupted, ops[0]), ops[1..]);
    }
  }

  // ----- Refusals -----

  /** A send begins exactly when nothing is going on, at the first chunk with nothing accepted;
      without a send, a tick fails, a time-out answers no and a response answers as it says, and
      none changes anything; and a roll-back drops what was taken. */
  lemma IdleIsExact(l: Lifecycle, s: Snapshot, term: Term, leaderId: NodeId, r: Response)
    requires Ready(l)
    ensures var (t, ok) := BeginSend(l, s, term, leaderId);
            && (ok <==> l.sender.None? && l.installer.None?) && (!ok ==> t == l)
            && (ok ==> && t.sender.Some? && t.sender.value.nextChunk == 0 && t.sender.value.acceptedChunks == 0
                       && t.sender.value.retryCount == 0 && t.installer.None?)
    ensures l.sender.None? ==>
              && Poll(l) == (l, Err(InvalidRequest)) && RecordTimeout(l) == (l, false)
              && RecordResponse(l, r) == (l, r.accepted)
    ensures RollbackInstall(l).installer.None? && RollbackInstall(l).sender == l.sender
  {
    hide Checkpoint;
  }
}
