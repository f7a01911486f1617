/** Snapshot chunking and the send and install sides of a snapshot transfer. */
module SnapshotModel {
  import opened Types

  datatype Chunk = Chunk(meta: SnapshotMeta, offset: nat, data: seq<Byte>, done: bool)

  datatype Request = Request(groupId: GroupId, term: Term, leaderId: NodeId, chunk: Chunk)

  datatype Response = Response(accepted: bool, nextOffset: nat)

  datatype Config = Config(chunkSize: nat, maxChunksPerTick: nat, maxBytesPerTick: nat, maxRetryAttempts: nat) {
    predicate Valid() { chunkSize > 0 && maxChunksPerTick > 0 && maxBytesPerTick > 0 }
  }

  datatype Installer = Installer(meta: SnapshotMeta, bytes: seq<Byte>, nextOffset: nat, complete: bool)

  datatype Sender = Sender(
    groupId: GroupId, term: Term, leaderId: NodeId, chunks: seq<Chunk>,
    nextChunk: nat, acceptedChunks: nat, retryCount: nat)

  datatype Status = Status(
    snapshotId: Option<string>, sending: bool, installing: bool, totalChunks: nat, sentChunks: nat,
    receivedChunks: nat, retryCount: nat, rolledBack: nat, completed: bool, installedIndex: LogIndex)

  datatype Lifecycle = Lifecycle(
    config: Config, sender: Option<Sender>, installer: Option<Installer>, status: Status)

  const INITIAL_STATUS := Status(None, false, false, 0, 0, 0, 0, 0, false, 0)

  // ----- Chunking -----

  function ChunksFrom(s: Snapshot, chunkSize: nat, offset: nat): seq<Chunk>
    requires chunkSize > 0 && offset <= |s.payload|
    decreases |s.payload| - offset
  {
    if offset == |s.payload| then []
    else
      var end := Min(offset + chunkSize, |s.payload|);
      [Chunk(s.meta, offset, s.payload[offset..end], end == |s.payload|)] + ChunksFrom(s, chunkSize, end)
  }

  function Checkpoint(s: Snapshot, chunkSize: nat): seq<Chunk>
    requires chunkSize > 0
  {
    if s.payload == [] then [Chunk(s.meta, 0, [], true)] else ChunksFrom(s, chunkSize, 0)
  }

  // ----- Sending -----

  function BeginSend(l: Lifecycle, s: Snapshot, term: Term, leaderId: NodeId): (Lifecycle, bool)
    requires l.config.Valid()
  {
    if l.sender.Some? || l.installer.Some? then (l, false)
    else
      var chunks := Checkpoint(s, l.config.chunkSize);
      (l.(sender := Some(Sender(s.groupId, term, leaderId, chunks, 0, 0, 0)),
          status := Status(Some(s.meta.snapshotId), true, false, |chunks|, 0, 0, 0, l.status.rolledBack, false, 0)),
       true)
  }

  function Requests(s: Sender, chunks: seq<Chunk>): (r: seq<Request>)
    ensures |r| == |chunks|
    ensures forall i :: 0 <= i < |chunks| ==> r[i] == Request(s.groupId, s.term, s.leaderId, chunks[i])
  {
    seq(|chunks|, i requires 0 <= i < |chunks| => Request(s.groupId, s.term, s.leaderId, chunks[i]))
  }

  /** How far one tick moves the cursor, having already emitted emitted requests of
      bytes bytes. */
  function PollUpTo(c: Config, chunks: seq<Chunk>, next: nat, emitted: nat, bytes: nat): (end: nat)
    requires next <= |chunks|
    ensures next <= end <= |chunks|
    decreases |chunks| - next
  {
    if next == |chunks| || emitted >= c.maxChunksPerTick then next
    else if emitted > 0 && bytes + |chunks[next].data| > c.maxBytesPerTick then next
    else PollUpTo(c, chunks, next + 1, emitted + 1, bytes + |chunks[next].data|)
  }

  ghost predicate CursorInRange(l: Lifecycle) {
    l.sender.Some? ==> l.sender.value.nextChunk <= |l.sender.value.chunks|
  }

  function Poll(l: Lifecycle): (Lifecycle, Result<seq<Request>>)
    requires CursorInRange(l)
  {
    if l.sender.None? then (l, Err(InvalidRequest))
    else
      var s := l.sender.value;
      var end := PollUpTo(l.config, s.chunks, s.nextChunk, 0, 0);
      (l.(sender := Some(s.(nextChunk := end)),
          status := l.status.(sentChunks := l.status.sentChunks + (end - s.nextChunk))),
       Ok(Requests(s, s.chunks[s.nextChunk..end])))
  }

  /** The first chunk at or beyond an offset, or the end. */
  function FirstAtOrAfter(chunks: seq<Chunk>, offset: nat): (i: nat)
    ensures i <= |chunks|
    ensures forall k :: 0 <= k < i ==> chunks[k].offset < offset
    ensures i < |chunks| ==> chunks[i].offset >= offset
  {
    if chunks == [] || chunks[0].offset >= offset then 0 else 1 + FirstAtOrAfter(chunks[1..], offset)
  }

  /** Spends one retry; the sender is dropped when the budget is exhausted. */
  function SpendRetry(l: Lifecycle): (Lifecycle, bool)
    requires l.sender.Some?
  {
    var s := l.sender.value.(retryCount := l.sender.value.retryCount + 1);
    var counted := l.(sender := Some(s), status := l.status.(retryCount := l.status.retryCount + 1));
    if s.retryCount > l.config.maxRetryAttempts then
      (counted.(sender := None, status := counted.status.(sending := false)), false)
    else (counted, true)
  }

  function RecordResponse(l: Lifecycle, r: Response): (Lifecycle, bool) {
    if l.sender.None? then (l, r.accepted)
    else if r.accepted then
      var s := l.sender.value.(acceptedChunks := l.sender.value.acceptedChunks + 1);
      if s.acceptedChunks >= |s.chunks| then
        (l.(sender := None, status := l.status.(sending := false, completed := true)), true)
      else (l.(sender := Some(s)), true)
    else
      var (spent, ok) := SpendRetry(l);
      if !ok then (spent, false)
      else
        var s := spent.sender.value;
        (spent.(sender := Some(s.(nextChunk := FirstAtOrAfter(s.chunks, r.nextOffset)))), true)
  }

  function RecordTimeout(l: Lifecycle): (Lifecycle, bool) {
    if l.sender.None? then (l, false) else SpendRetry(l)
  }

  // ----- Installing -----

  function InstallChunk(i: Installer, c: Chunk): (Installer, bool) {
    if c.meta != i.meta || c.offset != i.nextOffset then (i, false)
    else (Installer(i.meta, i.bytes + c.data, i.nextOffset + |c.data|, c.done), true)
  }

  function Install(l: Lifecycle, r: Request): (Lifecycle, Result<Option<Snapshot>>) {
    var active :=
      if l.installer.Some? then l
      else l.(installer := Some(Installer(r.chunk.meta, [], 0, false)),
              status := l.status.(snapshotId := Some(r.chunk.meta.snapshotId), installing := true,
                                  sending := false, completed := false, receivedChunks := 0, totalChunks := 0));
    var (i, ok) := InstallChunk(active.installer.value, r.chunk);
    if !ok then (active, Err(InvalidRequest))
    else
      var received := active.status.receivedChunks + 1;
      var taken := active.(installer := Some(i),
                           status := active.status.(receivedChunks := received,
                                                    totalChunks := Max(active.status.totalChunks, received)));
      if !i.complete then (taken, Ok(None))
      else
        (taken.(installer := None,
                status := taken.status.(installing := false, completed := true, installedIndex := i.meta.lastLogId.index)),
         Ok(Some(Snapshot(r.groupId, i.meta, i.bytes))))
  }

  function RollbackInstall(l: Lifecycle): Lifecycle {
    l.(installer := None, status := l.status.(installing := false, rolledBack := l.status.rolledBack + 1))
  }
}
