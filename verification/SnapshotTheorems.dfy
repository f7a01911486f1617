/** Snapshot transfer: what the receiver hands out whatever the delivery, how much the
    sender may emit, and the lossless transfer end to end. */
module SnapshotTheorems {
  import opened Types
  import opened SnapshotModel

  // ----- Chunks -----

  /** A piece of the payload of s, done exactly when it reaches the end. */
  predicate IsPieceOf(s: Snapshot, c: Chunk) {
    && c.meta == s.meta
    && c.offset + |c.data| <= |s.payload|
    && c.data == s.payload[c.offset..c.offset + |c.data|]
    && (c.done <==> c.offset + |c.data| == |s.payload|)
  }

  function Data(chunks: seq<Chunk>): seq<Byte> {
    if chunks == [] then [] else chunks[0].data + Data(chunks[1..])
  }

  /** Each chunk starts where the one before it ended, and only the last is done. */
  ghost predicate Consecutive(chunks: seq<Chunk>) {
    forall i :: 0 <= i < |chunks| - 1 ==>
      !chunks[i].done && chunks[i + 1].offset == chunks[i].offset + |chunks[i].data|
  }

  ghost predicate ArePieces(s: Snapshot, chunkSize: nat, chunks: seq<Chunk>) {
    forall c :: c in chunks ==> IsPieceOf(s, c) && |c.data| <= chunkSize
  }

  /** The piece of a payload that starts at an offset. */
  function PieceAt(s: Snapshot, chunkSize: nat, offset: nat): Chunk
    requires chunkSize > 0 && offset < |s.payload|
  {
    var end := Min(offset + chunkSize, |s.payload|);
    Chunk(s.meta, offset, s.payload[offset..end], end == |s.payload|)
  }

  lemma ChunksFromUnfolds(s: Snapshot, chunkSize: nat, offset: nat)
    requires chunkSize > 0 && offset < |s.payload|
    ensures var c := PieceAt(s, chunkSize, offset);
            && IsPieceOf(s, c) && 0 < |c.data| <= chunkSize
            && ChunksFrom(s, chunkSize, offset) == [c] + ChunksFrom(s, chunkSize, offset + |c.data|)
  {
  }

  lemma {:induction false} ChunksFromData(s: Snapshot, chunkSize: nat, offset: nat)
    requires chunkSize > 0 && offset <= |s.payload|
    ensures Data(ChunksFrom(s, chunkSize, offset)) == s.payload[offset..]
    decreases |s.payload| - offset
  {
    if offset < |s.payload| {
      var c := PieceAt(s, chunkSize, offset);
      var end := offset + |c.data|;
      ChunksFromUnfolds(s, chunkSize, offset);
      ChunksFromData(s, chunkSize, end);
      assert ([c] + ChunksFrom(s, chunkSize, end))[1..] == ChunksFrom(s, chunkSize, end);
      assert s.payload[offset..] == s.payload[offset..end] + s.payload[end..];
    }
  }

  /** Consecutive pieces from an offset to the end of the payload. */
  ghost predicate Tiles(s: Snapshot, chunkSize: nat, offset: nat, chunks: seq<Chunk>) {
    && ArePieces(s, chunkSize, chunks) && Consecutive(chunks)
    && (chunks == [] <==> offset == |s.payload|)
    && (chunks != [] ==> chunks[0].offset == offset && chunks[|chunks| - 1].done)
  }

  lemma PrependTile(s: Snapshot, chunkSize: nat, c: Chunk, rest: seq<Chunk>)
    requires IsPieceOf(s, c) && 0 < |c.data| <= chunkSize
    requires Tiles(s, chunkSize, c.offset + |c.data|, rest)
    ensures Tiles(s, chunkSize, c.offset, [c] + rest)
  {
  }

  lemma NothingTiles(s: Snapshot, chunkSize: nat, offset: nat)
    requires offset == |s.payload|
    ensures Tiles(s, chunkSize, offset, [])
  {
  }

  lemma PieceAtIsPiece(s: Snapshot, chunkSize: nat, offset: nat)
    requires chunkSize > 0 && offset < |s.payload|
    ensures var c := PieceAt(s, chunkSize, offset);
            && IsPieceOf(s, c) && 0 < |c.data| <= chunkSize && c.offset == offset
            && offset + |c.data| <= |s.payload|
  {
  }

  lemma {:induction false} ChunksFromShape(s: Snapshot, chunkSize: nat, offset: nat)
    requires chunkSize > 0 && offset <= |s.payload|
    ensures Tiles(s, chunkSize, offset, ChunksFrom(s, chunkSize, offset))
    decreases |s.payload| - offset
  {
    if offset == |s.payload| {
      assert ChunksFrom(s, chunkSize, offset) == [];
      hide *;
      NothingTiles(s, chunkSize, offset);
    } else {
      hide *;
      var c := PieceAt(s, chunkSize, offset);
      PieceAtIsPiece(s, chunkSize, offset);
      ChunksFromUnfolds(s, chunkSize, offset);
      ChunksFromShape(s, chunkSize, offset + |c.data|);
      PrependTile(s, chunkSize, c, ChunksFrom(s, chunkSize, offset + |c.data|));
    }
  }

  /** The chunks of a snapshot are consecutive pieces of it: together they are its
      payload, each is at most the chunk size, and only the last is marked done. */
  lemma CheckpointPartitionsPayload(s: Snapshot, chunkSize: nat)
    requires chunkSize > 0
    ensures var chunks := Checkpoint(s, chunkSize);
            && chunks != [] && Data(chunks) == s.payload
            && ArePieces(s, chunkSize, chunks) && Consecutive(chunks)
            && chunks[0].offset == 0 && chunks[|chunks| - 1].done
  {
    ChunksFromData(s, chunkSize, 0);
    ChunksFromShape(s, chunkSize, 0);
    assert s.payload[0..] == s.payload;
  }

  // ----- Reassembly under any delivery -----

  datatype Event = Deliver(request: Request) | RollBack

  function InstallStep(l: Lifecycle, ev: Event): (Lifecycle, seq<Snapshot>) {
    match ev
    case Deliver(r) =>
      var (after, result) := Install(l, r);
      (after, if result.Ok? && result.value.Some? then [result.value.value] else [])
    case RollBack => (RollbackInstall(l), [])
  }

  /** The state after a run of events and every snapshot handed out on the way. */
  function InstallAll(l: Lifecycle, events: seq<Event>): (Lifecycle, seq<Snapshot>)
    decreases |events|
  {
    if events == [] then (l, [])
    else
      var (next, out) := InstallStep(l, events[0]);
      var (last, more) := InstallAll(next, events[1..]);
      (last, out + more)
  }

  /** The request carries a chunk of a catalogued snapshot, cut with any chunk size. */
  ghost predicate Carries(r: Request, s: Snapshot, chunkSize: nat) {
    chunkSize > 0 && r.groupId == s.groupId && r.chunk in Checkpoint(s, chunkSize)
  }

  ghost predicate FromCatalog(catalog: set<Snapshot>, ev: Event) {
    ev.Deliver? ==> exists s, chunkSize :: s in catalog && Carries(ev.request, s, chunkSize)
  }

  /** Different snapshots have different metadata. */
  ghost predicate DistinctMetas(catalog: set<Snapshot>) {
    forall s, t :: s in catalog && t in catalog && s.meta == t.meta ==> s == t
  }

  /** The installer holds the first nextOffset bytes of a catalogued snapshot. */
  ghost predicate HoldsPrefix(catalog: set<Snapshot>, i: Installer) {
    exists s :: && s in catalog && i.meta == s.meta && i.nextOffset <= |s.payload|
                && i.bytes == s.payload[..i.nextOffset]
  }

  ghost predicate InstallerSound(catalog: set<Snapshot>, l: Lifecycle) {
    l.installer.Some? ==> HoldsPrefix(catalog, l.installer.value)
  }

  lemma InstallChunkKeepsPrefix(s: Snapshot, i: Installer, c: Chunk)
    requires IsPieceOf(s, c)
    requires i.meta == s.meta && i.nextOffset <= |s.payload| && i.bytes == s.payload[..i.nextOffset]
    ensures var (j, ok) := InstallChunk(i, c);
            && j.meta == s.meta && j.nextOffset <= |s.payload| && j.bytes == s.payload[..j.nextOffset]
            && (ok && j.complete ==> j.bytes == s.payload)
  {
  }

  lemma CarriedIsPiece(r: Request, s: Snapshot, chunkSize: nat)
    requires Carries(r, s, chunkSize)
    ensures r.groupId == s.groupId && IsPieceOf(s, r.chunk)
  {
    CheckpointPartitionsPayload(s, chunkSize);
  }

  lemma InstallSound(catalog: set<Snapshot>, l: Lifecycle, ev: Event)
    requires DistinctMetas(catalog) && FromCatalog(catalog, ev) && InstallerSound(catalog, l)
    ensures InstallerSound(catalog, InstallStep(l, ev).0)
    ensures forall out :: out in InstallStep(l, ev).1 ==> out in catalog
  {
    if ev.Deliver? {
      var s, chunkSize :| s in catalog && Carries(ev.request, s, chunkSize);
      CarriedIsPiece(ev.request, s, chunkSize);
      hide Carries;
      DeliverySound(catalog, l, ev.request, s);
    }
  }

  lemma DeliverySound(catalog: set<Snapshot>, l: Lifecycle, r: Request, s: Snapshot)
    requires DistinctMetas(catalog) && InstallerSound(catalog, l)
    requires s in catalog && r.groupId == s.groupId && IsPieceOf(s, r.chunk)
    ensures InstallerSound(catalog, InstallStep(l, Deliver(r)).0)
    ensures forall out :: out in InstallStep(l, Deliver(r)).1 ==> out in catalog
  {
    var i := if l.installer.Some? then l.installer.value else Installer(r.chunk.meta, [], 0, false);
    if l.installer.None? {
      assert i.bytes == s.payload[..0];
      assert HoldsPrefix(catalog, i);
    }
    if r.chunk.meta == i.meta {
      InstallChunkKeepsPrefix(s, i, r.chunk);
      var (j, ok) := InstallChunk(i, r.chunk);
      assert HoldsPrefix(catalog, j);
      if ok && j.complete {
        assert Snapshot(r.groupId, j.meta, j.bytes) == s;
      }
    }
  }

  /** Main result: requests may be lost, duplicated, reordered, interleaved with those of
      other snapshots or cut with different chunk sizes, and installs may be rolled back;
      the installer always holds a prefix of its snapshot, and every snapshot handed out
      is one of the originals. */
  lemma {:induction false} ReassemblyToleratesAnyDelivery(catalog: set<Snapshot>, l: Lifecycle, events: seq<Event>)
    requires DistinctMetas(catalog) && InstallerSound(catalog, l)
    requires forall ev :: ev in events ==> FromCatalog(catalog, ev)
    ensures InstallerSound(catalog, InstallAll(l, events).0)
    ensures forall out :: out in InstallAll(l, events).1 ==> out in catalog
    decreases |events|
  {
    if events != [] {
      InstallSound(catalog, l, events[0]);
      ReassemblyToleratesAnyDelivery(catalog, InstallStep(l, events[0]).0, events[1..]);
    }
  }

  // ----- In-order delivery -----

  function Deliveries(s: Sender, chunks: seq<Chunk>): seq<Event> {
    var requests := Requests(s, chunks);
    seq(|chunks|, i requires 0 <= i < |chunks| => Deliver(requests[i]))
  }

  lemma {:induction false} DeliverFrom(s: Snapshot, sender: Sender, l: Lifecycle, chunks: seq<Chunk>, i: Installer)
    requires sender.groupId == s.groupId && chunks != []
    requires i.meta == s.meta && i.nextOffset <= |s.payload| && i.bytes == s.payload[..i.nextOffset]
    requires l.installer == Some(i) || (l.installer.None? && i == Installer(s.meta, [], 0, false))
    requires forall c :: c in chunks ==> IsPieceOf(s, c)
    requires Consecutive(chunks) && chunks[0].offset == i.nextOffset && chunks[|chunks| - 1].done
    ensures var (after, out) := InstallAll(l, Deliveries(sender, chunks));
            after.installer.None? && out == [s]
    decreases |chunks|
  {
    var events := Deliveries(sender, chunks);
    var (j, ok) := InstallChunk(i, chunks[0]);
    InstallChunkKeepsPrefix(s, i, chunks[0]);
    var (next, out) := InstallStep(l, events[0]);
    if |chunks| == 1 {
      assert InstallAll(next, events[1..]) == (next, []);
      assert out == [s];
    } else {
      assert !chunks[0].done;
      assert out == [] && next.installer == Some(j);
      assert events[1..] == Deliveries(sender, chunks[1..]);
      DeliverFrom(s, sender, next, chunks[1..], j);
      assert out + [s] == [s];
    }
  }

  /** The chunks of a snapshot delivered in order to an idle installer hand out exactly
      that snapshot, once. */
  lemma InOrderDeliveryRebuilds(s: Snapshot, chunkSize: nat, sender: Sender, l: Lifecycle)
    requires chunkSize > 0 && sender.groupId == s.groupId && l.installer.None?
    ensures var (after, out) := InstallAll(l, Deliveries(sender, Checkpoint(s, chunkSize)));
            after.installer.None? && out == [s]
  {
    CheckpointPartitionsPayload(s, chunkSize);
    DeliverFrom(s, sender, l, Checkpoint(s, chunkSize), Installer(s.meta, [], 0, false));
  }

  // ----- The sender -----

  function TotalBytes(requests: seq<Request>): nat {
    if requests == [] then 0 else |requests[0].chunk.data| + TotalBytes(requests[1..])
  }

  lemma {:induction false} PollRange(c: Config, sender: Sender, next: nat, emitted: nat, bytes: nat)
    requires next <= |sender.chunks| && emitted <= c.maxChunksPerTick
    requires emitted <= 1 || bytes <= c.maxBytesPerTick
    ensures var end := PollUpTo(c, sender.chunks, next, emitted, bytes);
            var more := Requests(sender, sender.chunks[next..end]);
            && emitted + |more| <= c.maxChunksPerTick
            && (emitted + |more| <= 1 || bytes + TotalBytes(more) <= c.maxBytesPerTick)
    decreases |sender.chunks| - next
  {
    if next < |sender.chunks| && emitted < c.maxChunksPerTick
       && !(emitted > 0 && bytes + |sender.chunks[next].data| > c.maxBytesPerTick) {
      var end := PollUpTo(c, sender.chunks, next, emitted, bytes);
      PollRange(c, sender, next + 1, emitted + 1, bytes + |sender.chunks[next].data|);
      assert Requests(sender, sender.chunks[next..end])[1..] == Requests(sender, sender.chunks[next + 1..end]);
    }
  }

  /** One poll emits at most the configured number of requests, and at most the configured
      bytes unless it emits a single request. */
  lemma PollIsThrottled(l: Lifecycle)
    requires CursorInRange(l) && l.sender.Some?
    ensures var requests := Poll(l).1.value;
            && |requests| <= l.config.maxChunksPerTick
            && (|requests| <= 1 || TotalBytes(requests) <= l.config.maxBytesPerTick)
  {
    PollRange(l.config, l.sender.value, l.sender.value.nextChunk, 0, 0);
  }

  /** An accept answers a request for the chunk with that number; the sender is not told which. */
  datatype SendEvent = PollTick | Accepted(chunk: nat) | Rejected(nextOffset: nat) | TimedOut

  function SendStep(l: Lifecycle, ev: SendEvent): (Lifecycle, seq<Request>)
    requires CursorInRange(l)
    ensures CursorInRange(SendStep(l, ev).0)
  {
    match ev
    case PollTick => var (next, r) := Poll(l); (next, if r.Ok? then r.value else [])
    case Accepted(_) => (RecordResponse(l, Response(true, 0)).0, [])
    case Rejected(offset) => (RecordResponse(l, Response(false, offset)).0, [])
    case TimedOut => (RecordTimeout(l).0, [])
  }

  /** The state after a run and every request emitted on the way. */
  function SendAll(l: Lifecycle, events: seq<SendEvent>): (Lifecycle, seq<Request>)
    requires CursorInRange(l)
    decreases |events|
  {
    if events == [] then (l, [])
    else
      var (next, out) := SendStep(l, events[0]);
      var (last, more) := SendAll(next, events[1..]);
      (last, out + more)
  }

  /** How many requests a sender with n chunks can still emit. */
  function Budget(l: Lifecycle, n: nat): nat
    requires CursorInRange(l) && (l.sender.Some? ==> |l.sender.value.chunks| == n && l.sender.value.retryCount <= l.config.maxRetryAttempts)
  {
    if l.sender.None? then 0
    else (l.config.maxRetryAttempts - l.sender.value.retryCount) * n + (n - l.sender.value.nextChunk)
  }

  ghost predicate WithinRetries(l: Lifecycle, n: nat) {
    && CursorInRange(l)
    && (l.sender.Some? ==> |l.sender.value.chunks| == n && l.sender.value.retryCount <= l.config.maxRetryAttempts)
  }

  lemma SendStepSpendsBudget(l: Lifecycle, ev: SendEvent, n: nat)
    requires WithinRetries(l, n)
    ensures var (next, out) := SendStep(l, ev);
            WithinRetries(next, n) && |out| + Budget(next, n) <= Budget(l, n)
  {
    if l.sender.Some? && (ev.Rejected? || ev.TimedOut?) {
      var left := l.config.maxRetryAttempts - l.sender.value.retryCount;
      assert left * n == (if left > 0 then (left - 1) * n + n else 0);
    }
  }

  lemma {:induction false} SendAllSpendsBudget(l: Lifecycle, events: seq<SendEvent>, n: nat)
    requires WithinRetries(l, n)
    ensures |SendAll(l, events).1| <= Budget(l, n)
    decreases |events|
  {
    if events != [] {
      SendStepSpendsBudget(l, events[0], n);
      SendAllSpendsBudget(SendStep(l, events[0]).0, events[1..], n);
    }
  }

  /** Main result: whatever the mix of polls, accepts, rejections and timeouts after a
      send begins, at most (retries + 1) times the number of chunks are emitted. */
  lemma SenderEmissionBound(l: Lifecycle, s: Snapshot, term: Term, leaderId: NodeId, events: seq<SendEvent>)
    requires l.config.Valid() && l.sender.None? && l.installer.None?
    ensures var begun := BeginSend(l, s, term, leaderId).0;
            |SendAll(begun, events).1| <= (l.config.maxRetryAttempts + 1) * |Checkpoint(s, l.config.chunkSize)|
  {
    var begun := BeginSend(l, s, term, leaderId).0;
    var n := |Checkpoint(s, l.config.chunkSize)|;
    BudgetAtStart(l, s, term, leaderId);
    OneMoreTime(l.config.maxRetryAttempts, n);
    hide *;
    SendAllSpendsBudget(begun, events, n);
  }

  lemma OneMoreTime(times: nat, n: nat)
    ensures times * n + n == (times + 1) * n
  {
  }

  lemma BudgetAtStart(l: Lifecycle, s: Snapshot, term: Term, leaderId: NodeId)
    requires l.config.Valid() && l.sender.None? && l.installer.None?
    ensures var begun, n := BeginSend(l, s, term, leaderId).0, |Checkpoint(s, l.config.chunkSize)|;
            && CursorInRange(begun) && WithinRetries(begun, n) && Budget(begun, n) == l.config.maxRetryAttempts * n + n
  {
    hide Checkpoint;
  }

  // ----- When a send completes -----

  /** The chunks whose accepts the sender counts: those that arrive while it is sending. */
  function Counted(l: Lifecycle, events: seq<SendEvent>): seq<nat>
    requires CursorInRange(l)
    decreases |events|
  {
    if events == [] then []
    else
      (if l.sender.Some? && events[0].Accepted? then [events[0].chunk] else []) + Counted(SendStep(l, events[0]).0, events[1..])
  }

  /** A sender that has more accepts to come, or none that has not completed. */
  ghost predicate Unfinished(l: Lifecycle) {
    l.sender.Some? ==>
      l.sender.value.acceptedChunks < |l.sender.value.chunks| && l.sender.value.nextChunk <= |l.sender.value.chunks|
      && !l.status.completed
  }

  lemma {:induction false} IdleSenderStays(l: Lifecycle, events: seq<SendEvent>)
    requires l.sender.None?
    ensures SendAll(l, events) == (l, []) && Counted(l, events) == []
    decreases |events|
  {
    if events != [] {
      var none: seq<Request> := [];
      assert SendStep(l, events[0]) == (l, none) && none + none == none;
      IdleSenderStays(l, events[1..]);
    }
  }

  /** A step of a sender leaves it without one exactly when it completes it, or spends the last
      retry. */
  lemma SenderStep(l: Lifecycle, ev: SendEvent)
    requires l.sender.Some? && Unfinished(l)
    ensures var s, next := l.sender.value, SendStep(l, ev).0;
            && Unfinished(next)
            && (next.sender.Some? ==>
                  next.sender.value.chunks == s.chunks
                  && next.sender.value.acceptedChunks == s.acceptedChunks + if ev.Accepted? then 1 else 0)
            && (next.sender.None? ==>
                  (next.status.completed <==> ev.Accepted?) && (ev.Accepted? ==> s.acceptedChunks + 1 == |s.chunks|))
  {
  }

  lemma {:induction false} CompletionCounts(l: Lifecycle, events: seq<SendEvent>)
    requires l.sender.Some? && Unfinished(l)
    ensures var s := l.sender.value;
            && s.acceptedChunks + |Counted(l, events)| <= |s.chunks|
            && (SendAll(l, events).0.status.completed <==> s.acceptedChunks + |Counted(l, events)| == |s.chunks|)
    decreases |events|
  {
    if events != [] {
      SenderStep(l, events[0]);
      var next := SendStep(l, events[0]).0;
      hide SendStep, Unfinished;
      if next.sender.Some? {
        CompletionCounts(next, events[1..]);
      } else {
        IdleSenderStays(next, events[1..]);
      }
    }
  }

  /** An accept only answers a request that was emitted; chunks below sent have been. */
  ghost predicate Truthful(l: Lifecycle, events: seq<SendEvent>, sent: nat)
    requires CursorInRange(l)
    decreases |events|
  {
    events == [] ||
    var next := SendStep(l, events[0]).0;
    (events[0].Accepted? ==> events[0].chunk < sent) && Truthful(next, events[1..], Sent(next, sent))
  }

  /** The chunks below this have been emitted. */
  function Sent(l: Lifecycle, sent: nat): nat {
    if l.sender.Some? then Max(sent, l.sender.value.nextChunk) else sent
  }

  lemma {:induction false} CountedInRange(l: Lifecycle, events: seq<SendEvent>, sent: nat)
    requires l.sender.Some? && Unfinished(l) && sent <= |l.sender.value.chunks| && Truthful(l, events, sent)
    ensures forall k :: k in Counted(l, events) ==> k < |l.sender.value.chunks|
    decreases |events|
  {
    if events != [] {
      SenderStep(l, events[0]);
      var next := SendStep(l, events[0]).0;
      hide SendStep;
      if next.sender.Some? {
        CountedInRange(next, events[1..], Sent(next, sent));
      } else {
        IdleSenderStays(next, events[1..]);
      }
    }
  }

  ghost predicate NoRepeats(s: seq<nat>) {
    forall i, j :: 0 <= i < j < |s| ==> s[i] != s[j]
  }

  ghost predicate CoversAll(s: seq<nat>, n: nat) {
    forall k: nat :: k < n ==> k in s
  }

  function Below(n: nat): (s: set<nat>)
    ensures forall k: nat :: k in s <==> k < n
    ensures |s| == n
  {
    if n == 0 then {} else Below(n - 1) + {n - 1}
  }

  function Members(s: seq<nat>): set<nat> {
    set k | k in s
  }

  lemma {:induction false} MembersSize(s: seq<nat>)
    ensures |Members(s)| <= |s| && (|Members(s)| == |s| <==> NoRepeats(s))
  {
    if s != [] {
      var rest, last := s[..|s| - 1], s[|s| - 1];
      MembersSize(rest);
      assert s == rest + [last];
      if last in rest {
        assert Members(s) == Members(rest);
        var i :| 0 <= i < |rest| && rest[i] == last;
        assert s[i] == s[|s| - 1];
      } else {
        assert Members(s) == Members(rest) + {last};
        assert NoRepeats(s) <==> NoRepeats(rest) by {
          assert forall i :: 0 <= i < |rest| ==> s[i] == rest[i];
        }
      }
    }
  }

  /** Among numbers below n, as many as n cover all exactly when none is repeated. */
  lemma CoversExactlyWithoutRepeats(s: seq<nat>, n: nat)
    requires |s| == n && forall k :: k in s ==> k < n
    ensures CoversAll(s, n) <==> NoRepeats(s)
  {
    MembersSize(s);
    if CoversAll(s, n) {
      assert Members(s) == Below(n);
    }
    if NoRepeats(s) {
      SubsetOfSameSize(Members(s), Below(n));
      forall k: nat | k < n ensures k in s {
        assert k in Members(s);
      }
    }
  }

  lemma SubsetOfSameSize<T>(a: set<T>, b: set<T>)
    requires a <= b && |a| == |b|
    ensures a == b
  {
    assert b == a + (b - a);
  }

  /** Main result: whatever the polls, accepts, rejections and timeouts, a send completes exactly
      when it has counted as many accepts as chunks, and then every chunk was accepted exactly
      when none was accepted twice. */
  lemma CompletionMeansAllAcceptedExactly(l: Lifecycle, s: Snapshot, term: Term, leaderId: NodeId, events: seq<SendEvent>)
    requires l.config.Valid() && l.sender.None? && l.installer.None?
    requires Truthful(BeginSend(l, s, term, leaderId).0, events, 0)
    ensures var n := |Checkpoint(s, l.config.chunkSize)|;
            var begun := BeginSend(l, s, term, leaderId).0;
            var counted := Counted(begun, events);
            && (SendAll(begun, events).0.status.completed <==> |counted| == n)
            && (|counted| == n ==> (CoversAll(counted, n) <==> NoRepeats(counted)))
  {
    var begun := BeginSend(l, s, term, leaderId).0;
    var n := |Checkpoint(s, l.config.chunkSize)|;
    CheckpointPartitionsPayload(s, l.config.chunkSize);
    CompletionCounts(begun, events);
    CountedInRange(begun, events, 0);
    if |Counted(begun, events)| == n {
      CoversExactlyWithoutRepeats(Counted(begun, events), n);
    }
  }

  // ----- Without rejections -----

  /** No rejection occurs, and an accept answers a request that was emitted and not answered
      before: the chunks below sent have been emitted and those in seen accepted. */
  ghost predicate Answering(l: Lifecycle, events: seq<SendEvent>, sent: nat, seen: set<nat>)
    requires CursorInRange(l)
    decreases |events|
  {
    events == [] ||
    var next := SendStep(l, events[0]).0;
    && !events[0].Rejected?
    && (events[0].Accepted? ==> events[0].chunk < sent && events[0].chunk !in seen)
    && Answering(next, events[1..], Sent(next, sent), if events[0].Accepted? then seen + {events[0].chunk} else seen)
  }

  /** The requests emitted so far are the chunks up to the cursor, and the accepts counted are
      those of some of them. */
  ghost predicate InStep(l: Lifecycle, emitted: seq<Request>, seen: set<nat>) {
    && l.sender.Some? && Unfinished(l)
    && emitted == Requests(l.sender.value, l.sender.value.chunks[..l.sender.value.nextChunk])
    && seen <= Below(l.sender.value.nextChunk) && l.sender.value.acceptedChunks == |seen|
  }

  /** Requests depend on the identity of the sender only. */
  lemma SameRequests(s: Sender, t: Sender, chunks: seq<Chunk>)
    requires s.groupId == t.groupId && s.term == t.term && s.leaderId == t.leaderId
    ensures Requests(s, chunks) == Requests(t, chunks)
  {
  }

  /** What a step without rejection does to a sender that goes on. */
  lemma InStepStep(l: Lifecycle, ev: SendEvent, emitted: seq<Request>, seen: set<nat>)
    requires InStep(l, emitted, seen) && !ev.Rejected? && (ev.Accepted? ==> ev.chunk < l.sender.value.nextChunk && ev.chunk !in seen)
    ensures var (next, out) := SendStep(l, ev);
            next.sender.Some? ==>
              && InStep(next, emitted + out, if ev.Accepted? then seen + {ev.chunk} else seen)
              && next.sender.value.nextChunk >= l.sender.value.nextChunk
              && next.sender.value.chunks == l.sender.value.chunks
              && next.sender.value.groupId == l.sender.value.groupId && next.sender.value.term == l.sender.value.term
              && next.sender.value.leaderId == l.sender.value.leaderId
  {
    assert emitted + [] == emitted;
  }

  /** The accept that completes a send finds every chunk emitted. */
  lemma LastAccept(l: Lifecycle, ev: SendEvent, emitted: seq<Request>, seen: set<nat>)
    requires InStep(l, emitted, seen) && ev.Accepted? && ev.chunk < l.sender.value.nextChunk && ev.chunk !in seen
    requires SendStep(l, ev).0.sender.None?
    ensures |emitted| == |l.sender.value.chunks| && seen + {ev.chunk} == Below(|emitted|) && SendStep(l, ev).1 == []
  {
    var next := l.sender.value.nextChunk;
    assert |seen + {ev.chunk}| == |seen| + 1;
    SubsetSize(seen + {ev.chunk}, Below(next));
    SubsetOfSameSize(seen + {ev.chunk}, Below(next));
  }

  /** What a run without rejections has emitted when it ends at after. */
  ghost predicate InOrder(s: Sender, after: Lifecycle, emitted: seq<Request>) {
    && |emitted| <= |s.chunks| && emitted == Requests(s, s.chunks[..|emitted|])
    && (after.status.completed ==> |emitted| == |s.chunks|)
  }

  lemma {:induction false} InStepRun(l: Lifecycle, events: seq<SendEvent>, emitted: seq<Request>, seen: set<nat>)
    requires InStep(l, emitted, seen) && Answering(l, events, l.sender.value.nextChunk, seen)
    ensures var (after, more) := SendAll(l, events); InOrder(l.sender.value, after, emitted + more)
    decreases |events|
  {
    var s := l.sender.value;
    if events == [] {
      assert emitted + [] == emitted;
    } else {
      var (next, out) := SendStep(l, events[0]);
      var (after, more) := SendAll(next, events[1..]);
      ConcatAssociative(emitted, out, more);
      InStepStep(l, events[0], emitted, seen);
      SenderStep(l, events[0]);
      if next.sender.Some? {
        var seen' := if events[0].Accepted? then seen + {events[0].chunk} else seen;
        hide SendStep, InStep, Unfinished;
        InStepRun(next, events[1..], emitted + out, seen');
        SameInOrder(s, next.sender.value, after, (emitted + out) + more);
      } else {
        IdleSenderStays(next, events[1..]);
        FinishedInOrder(l, events[0], emitted, seen);
      }
    }
  }

  lemma SameInOrder(s: Sender, t: Sender, after: Lifecycle, emitted: seq<Request>)
    requires s.groupId == t.groupId && s.term == t.term && s.leaderId == t.leaderId && s.chunks == t.chunks
    requires InOrder(t, after, emitted)
    ensures InOrder(s, after, emitted)
  {
    SameRequests(s, t, s.chunks[..|emitted|]);
  }

  /** A send that ends by completing or by running out of retries. */
  lemma FinishedInOrder(l: Lifecycle, ev: SendEvent, emitted: seq<Request>, seen: set<nat>)
    requires InStep(l, emitted, seen) && !ev.Rejected? && (ev.Accepted? ==> ev.chunk < l.sender.value.nextChunk && ev.chunk !in seen)
    requires SendStep(l, ev).0.sender.None?
    ensures var (next, out) := SendStep(l, ev); InOrder(l.sender.value, next, emitted + (out + []))
  {
    var (next, out) := SendStep(l, ev);
    assert emitted + (out + []) == emitted + out;
    if ev.Accepted? {
      LastAccept(l, ev, emitted, seen);
    }
    assert out == [] && emitted + [] == emitted;
  }

  lemma {:induction false} CountedOnce(l: Lifecycle, events: seq<SendEvent>, sent: nat, seen: set<nat>)
    requires CursorInRange(l) && Answering(l, events, sent, seen)
    ensures NoRepeats(Counted(l, events)) && forall k :: k in Counted(l, events) ==> k !in seen
    ensures Truthful(l, events, sent)
    decreases |events|
  {
    if events != [] {
      var next := SendStep(l, events[0]).0;
      var seen' := if events[0].Accepted? then seen + {events[0].chunk} else seen;
      CountedOnce(next, events[1..], Sent(next, sent), seen');
      hide SendStep;
      var rest := Counted(next, events[1..]);
      assert [] + rest == rest;
      assert NoRepeats(rest) && forall k :: k in rest ==> k !in seen';
    }
  }

  function AcceptedIn(events: seq<SendEvent>): seq<nat> {
    if events == [] then [] else (if events[0].Accepted? then [events[0].chunk] else []) + AcceptedIn(events[1..])
  }

  function Timeouts(events: seq<SendEvent>): nat {
    if events == [] then 0 else (if events[0].TimedOut? then 1 else 0) + Timeouts(events[1..])
  }

  /** After every chunk was accepted no accept is left to answer anything. */
  lemma {:induction false} NothingLeft(l: Lifecycle, events: seq<SendEvent>, sent: nat, seen: set<nat>)
    requires l.sender.None? && Answering(l, events, sent, seen) && Below(sent) <= seen
    ensures AcceptedIn(events) == []
    decreases |events|
  {
    if events != [] {
      assert SendStep(l, events[0]).0 == l && Sent(l, sent) == sent;
      assert forall k: nat :: k < sent ==> k in Below(sent);
      NothingLeft(l, events[1..], sent, seen);
    }
  }

  lemma SenderOutlivesTimeout(l: Lifecycle, ev: SendEvent)
    requires l.sender.Some? && Unfinished(l) && !ev.Rejected?
    requires l.sender.value.retryCount + (if ev.TimedOut? then 1 else 0) <= l.config.maxRetryAttempts
    ensures var next := SendStep(l, ev).0;
            && next.config == l.config && (next.sender.None? ==> ev.Accepted?)
            && (next.sender.Some? ==> next.sender.value.retryCount == l.sender.value.retryCount + if ev.TimedOut? then 1 else 0)
  {
  }

  /** Within the retry budget every accept is counted. */
  lemma {:induction false} AllCounted(l: Lifecycle, events: seq<SendEvent>, emitted: seq<Request>, seen: set<nat>)
    requires InStep(l, emitted, seen) && Answering(l, events, l.sender.value.nextChunk, seen)
    requires l.sender.value.retryCount + Timeouts(events) <= l.config.maxRetryAttempts
    ensures Counted(l, events) == AcceptedIn(events)
    decreases |events|
  {
    if events != [] {
      var (next, out) := SendStep(l, events[0]);
      var seen' := if events[0].Accepted? then seen + {events[0].chunk} else seen;
      SenderOutlivesTimeout(l, events[0]);
      InStepStep(l, events[0], emitted, seen);
      if next.sender.Some? {
        AllCounted(next, events[1..], emitted + out, seen');
      } else {
        LastAccept(l, events[0], emitted, seen);
        IdleSenderStays(next, events[1..]);
        NothingLeft(next, events[1..], l.sender.value.nextChunk, seen');
      }
      hide *;
    }
  }

  lemma BeganInStep(l: Lifecycle, s: Snapshot, term: Term, leaderId: NodeId)
    requires l.config.Valid() && l.sender.None? && l.installer.None?
    ensures var begun := BeginSend(l, s, term, leaderId).0;
            && InStep(begun, [], {}) && begun.sender.value.nextChunk == 0 && begun.config == l.config
            && begun.sender.value.chunks == Checkpoint(s, l.config.chunkSize) && begun.sender.value.retryCount == 0
  {
    CheckpointPartitionsPayload(s, l.config.chunkSize);
    var begun := BeginSend(l, s, term, leaderId).0;
    assert begun.sender.value.chunks[..0] == [];
  }

  /** Main result: without rejections, and with accepts that answer emitted requests once each,
      the chunks are emitted in order and at most once each, whatever times out; the send is
      complete exactly when every chunk was accepted while it lasted, and it lasts through
      every accept when no more time out than the retry limit allows. */
  lemma CleanSendCompletesExactly(l: Lifecycle, s: Snapshot, term: Term, leaderId: NodeId, events: seq<SendEvent>)
    requires l.config.Valid() && l.sender.None? && l.installer.None?
    requires Answering(BeginSend(l, s, term, leaderId).0, events, 0, {})
    ensures var chunks := Checkpoint(s, l.config.chunkSize);
            var begun := BeginSend(l, s, term, leaderId).0;
            var (after, emitted) := SendAll(begun, events);
            && |emitted| <= |chunks| && emitted == Requests(begun.sender.value, chunks[..|emitted|])
            && (after.status.completed <==> CoversAll(Counted(begun, events), |chunks|))
            && (after.status.completed ==> |emitted| == |chunks|)
            && (Timeouts(events) <= l.config.maxRetryAttempts ==> Counted(begun, events) == AcceptedIn(events))
  {
    var begun := BeginSend(l, s, term, leaderId).0;
    BeganInStep(l, s, term, leaderId);
    InStepRun(begun, events, [], {});
    var emitted := SendAll(begun, events).1;
    assert [] + emitted == emitted;
    CountedOnce(begun, events, 0, {});
    if Timeouts(events) <= l.config.maxRetryAttempts {
      AllCounted(begun, events, [], {});
    }
    hide BeginSend, SendAll, Counted, Answering, Checkpoint, InStep, Truthful, Timeouts, AcceptedIn;
    CompletionMeansAllAcceptedExactly(l, s, term, leaderId, events);
    CompletionCounts(begun, events);
    if CoversAll(Counted(begun, events), |Checkpoint(s, l.config.chunkSize)|) {
      CoversNeedsMany(Counted(begun, events), |Checkpoint(s, l.config.chunkSize)|);
    }
  }

  lemma CoversNeedsMany(s: seq<nat>, n: nat)
    requires CoversAll(s, n)
    ensures |s| >= n
  {
    MembersSize(s);
    assert Below(n) <= Members(s);
    SubsetSize(Below(n), Members(s));
  }

  /** Across both sides: when a send without rejections completes, the requests it emitted,
      delivered in order to an idle receiver, hand out exactly the snapshot that was sent. */
  lemma CleanTransferEndToEnd(
      l: Lifecycle, receiver: Lifecycle, s: Snapshot, term: Term, leaderId: NodeId, events: seq<SendEvent>)
    requires l.config.Valid() && l.sender.None? && l.installer.None? && receiver.installer.None?
    requires Answering(BeginSend(l, s, term, leaderId).0, events, 0, {})
    requires SendAll(BeginSend(l, s, term, leaderId).0, events).0.status.completed
    ensures var emitted := SendAll(BeginSend(l, s, term, leaderId).0, events).1;
            InstallAll(receiver, seq(|emitted|, i requires 0 <= i < |emitted| => Deliver(emitted[i]))).1 == [s]
  {
    var begun := BeginSend(l, s, term, leaderId).0;
    var chunks := Checkpoint(s, l.config.chunkSize);
    CleanSendCompletesExactly(l, s, term, leaderId, events);
    var emitted := SendAll(begun, events).1;
    assert chunks[..|chunks|] == chunks;
    assert seq(|emitted|, i requires 0 <= i < |emitted| => Deliver(emitted[i])) == Deliveries(begun.sender.value, chunks);
    InOrderDeliveryRebuilds(s, l.config.chunkSize, begun.sender.value, receiver);
  }

  /** With a rejection the count of accepts is not rewound with the cursor: here the
      second of two chunks is rejected and never accepted, yet the send completes. */
  lemma RejectedSendCanCompleteEarly()
    ensures var s := Snapshot(7, SnapshotMeta("s", LogId(1, 2), [1]), [1, 2]);
            var l := Lifecycle(Config(1, 1, 8, 3), None, None, INITIAL_STATUS);
            var events := [PollTick, Accepted(0), PollTick, Rejected(0), PollTick, Accepted(0)];
            var (after, emitted) := SendAll(BeginSend(l, s, 1, 1).0, events);
            && after.status.completed && after.sender.None?
            && |emitted| == 3 && emitted[0].chunk == emitted[2].chunk && !emitted[2].chunk.done
  {
    var s := Snapshot(7, SnapshotMeta("s", LogId(1, 2), [1]), [1, 2]);
    var l := Lifecycle(Config(1, 1, 8, 3), None, None, INITIAL_STATUS);
    var first, second := Chunk(s.meta, 0, [1], false), Chunk(s.meta, 1, [2], true);
    assert ChunksFrom(s, 1, 2) == [];
    assert s.payload[1..2] == [2] && s.payload[0..1] == [1];
    assert ChunksFrom(s, 1, 1) == [second] + ChunksFrom(s, 1, 2);
    assert ChunksFrom(s, 1, 0) == [first] + ChunksFrom(s, 1, 1);
    assert Checkpoint(s, 1) == [first, second];
    var l0 := BeginSend(l, s, 1, 1).0;
    var events := [PollTick, Accepted(0), PollTick, Rejected(0), PollTick, Accepted(0)];
    var (l1, out1) := SendStep(l0, events[0]);
    var (l2, out2) := SendStep(l1, events[1]);
    var (l3, out3) := SendStep(l2, events[2]);
    var (l4, out4) := SendStep(l3, events[3]);
    var (l5, out5) := SendStep(l4, events[4]);
    var (l6, out6) := SendStep(l5, events[5]);
    assert PollUpTo(l.config, [first, second], 1, 1, 1) == 1;
    assert PollUpTo(l.config, [first, second], 2, 1, 1) == 2;
    assert [first, second][0..1] == [first] && [first, second][1..2] == [second];
    assert SendAll(l6, []) == (l6, []);
    assert events[1..][1..] == events[2..] && events[2..][1..] == events[3..] && events[3..][1..] == events[4..]
           && events[4..][1..] == events[5..] && events[5..][1..] == [];
  }
}
