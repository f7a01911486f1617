/** A sender and a receiver together: what is lost is asked for again by the offset the receiver
    is at, and the snapshot is handed out once. */
module SnapshotSessions {
  import opened Types
  import opened SnapshotModel
  import opened SnapshotTheorems

  // ----- One rejection, one poll -----

  /** Main result: a rejection ends the send exactly when the retries are used up; otherwise it
      costs one, counts no accept, and moves the cursor to the first chunk that starts at or
      beyond the offset asked for. */
  lemma RejectionRewindsExactly(l: Lifecycle, offset: nat)
    requires l.sender.Some?
    ensures var s := l.sender.value;
            var (t, ok) := RecordResponse(l, Response(false, offset));
            && (ok <==> s.retryCount < l.config.maxRetryAttempts)
            && t.status.retryCount == l.status.retryCount + 1 && t.status.completed == l.status.completed
            && (!ok ==> t.sender.None? && !t.status.sending)
            && (ok ==>
                  && t.sender.Some?
                  && var u := t.sender.value;
                     && u == s.(nextChunk := u.nextChunk, retryCount := s.retryCount + 1)
                     && u.nextChunk <= |s.chunks|
                     && (forall k :: 0 <= k < u.nextChunk ==> s.chunks[k].offset < offset)
                     && (u.nextChunk < |s.chunks| ==> s.chunks[u.nextChunk].offset >= offset))
  {
    hide FirstAtOrAfter;
  }

  /** A timeout costs a retry and moves nothing. */
  lemma TimeoutKeepsCursor(l: Lifecycle)
    requires l.sender.Some?
    ensures var s := l.sender.value;
            var (t, ok) := RecordTimeout(l);
            && (ok <==> s.retryCount < l.config.maxRetryAttempts)
            && (ok ==> t.sender == Some(s.(retryCount := s.retryCount + 1)))
            && (!ok ==> t.sender.None?)
  {
  }

  lemma {:induction false} PollStops(c: Config, chunks: seq<Chunk>, next: nat, emitted: nat, bytes: nat)
    requires next <= |chunks| && emitted <= c.maxChunksPerTick
    ensures var end := PollUpTo(c, chunks, next, emitted, bytes);
            && emitted + (end - next) <= c.maxChunksPerTick
            && (end < |chunks| && emitted + (end - next) < c.maxChunksPerTick ==>
                  emitted + (end - next) > 0 && bytes + |Data(chunks[next..end + 1])| > c.maxBytesPerTick)
    decreases |chunks| - next
  {
    if next < |chunks| && emitted < c.maxChunksPerTick {
      var end := PollUpTo(c, chunks, next, emitted, bytes);
      if emitted > 0 && bytes + |chunks[next].data| > c.maxBytesPerTick {
        assert chunks[next..next + 1] == [chunks[next]];
        assert Data([chunks[next]]) == chunks[next].data + Data([]);
      } else {
        PollStops(c, chunks, next + 1, emitted + 1, bytes + |chunks[next].data|);
        if end < |chunks| {
          assert chunks[next..end + 1][0] == chunks[next] && chunks[next..end + 1][1..] == chunks[next + 1..end + 1];
        }
      }
    }
  }

  /** Main result: a poll emits the chunks from the cursor on, and stops short of the end only at
      the limit of chunks or when the next chunk would exceed the limit of bytes; so it emits
      something while anything is left. */
  lemma PollIsGreedy(l: Lifecycle)
    requires CursorInRange(l) && l.sender.Some? && l.config.Valid()
    ensures var s := l.sender.value;
            var (t, r) := Poll(l);
            && r.Ok? && s.nextChunk + |r.value| <= |s.chunks|
            && var end := s.nextChunk + |r.value|;
               && t.sender == Some(s.(nextChunk := end)) && t.config == l.config
               && r.value == Requests(s, s.chunks[s.nextChunk..end])
               && (end < |s.chunks| && |r.value| < l.config.maxChunksPerTick ==>
                     |Data(s.chunks[s.nextChunk..end + 1])| > l.config.maxBytesPerTick)
               && (s.nextChunk < |s.chunks| ==> r.value != [])
  {
    PollStops(l.config, l.sender.value.chunks, l.sender.value.nextChunk, 0, 0);
  }

  // ----- Sessions -----

  /** A sender, a receiver, and what the receiver has handed out. */
  datatype Session = Session(sender: Lifecycle, receiver: Lifecycle, handed: seq<Snapshot>)

  /** The offset the receiver expects next. */
  function Expected(v: Lifecycle): nat {
    if v.installer.Some? then v.installer.value.nextOffset else 0
  }

  function Delivered(requests: seq<Request>): seq<Event> {
    seq(|requests|, i requires 0 <= i < |requests| => Deliver(requests[i]))
  }

  function AcceptTimes(l: Lifecycle, k: nat): (t: Lifecycle)
    requires CursorInRange(l)
    ensures CursorInRange(t)
    decreases k
  {
    if k == 0 then l else AcceptTimes(RecordResponse(l, Response(true, 0)).0, k - 1)
  }

  /** One round: the sender polls; the first requests, at most intact many, arrive in order and
      are accepted; if that is not all of them, the next is lost and the sender is told by a
      rejection which offset the receiver expects. */
  function Round(x: Session, intact: nat): (y: Session)
    requires CursorInRange(x.sender)
    ensures CursorInRange(y.sender)
  {
    var (polled, r) := Poll(x.sender);
    var requests := if r.Ok? then r.value else [];
    var k := Min(intact, |requests|);
    var (received, out) := InstallAll(x.receiver, Delivered(requests[..k]));
    var accepted := AcceptTimes(polled, k);
    Session(if k < |requests| then RecordResponse(accepted, Response(false, Expected(received))).0 else accepted,
            received, x.handed + out)
  }

  function Rounds(x: Session, intact: seq<nat>): Session
    requires CursorInRange(x.sender)
    decreases |intact|
  {
    if intact == [] then x else Rounds(Round(x, intact[0]), intact[1..])
  }

  /** The receiver holds the payload up to an offset. */
  ghost predicate HoldsUpTo(v: Lifecycle, s: Snapshot, offset: nat) {
    match v.installer
    case None => offset == 0
    case Some(i) =>
      i.meta == s.meta && i.nextOffset == offset && offset <= |s.payload| && i.bytes == s.payload[..offset]
  }

  /** The chunks of a snapshot. */
  ghost predicate Cut(s: Snapshot, chunks: seq<Chunk>) {
    && chunks != [] && Consecutive(chunks) && chunks[0].offset == 0 && chunks[|chunks| - 1].done
    && (forall c :: c in chunks ==> IsPieceOf(s, c))
    && forall j, k :: 0 <= j < k < |chunks| ==> chunks[j].offset < chunks[k].offset
  }

  /** At the start of a round: k chunks were sent, accepted and received. */
  ghost predicate Going(x: Session, s: Snapshot, chunks: seq<Chunk>, k: nat) {
    && x.sender.sender.Some? && x.sender.config.Valid() && !x.sender.status.completed && x.handed == []
    && Cut(s, chunks) && k < |chunks| && HoldsUpTo(x.receiver, s, chunks[k].offset)
    && var u := x.sender.sender.value;
       u.chunks == chunks && u.groupId == s.groupId && u.nextChunk == k && u.acceptedChunks == k
  }

  ghost predicate Over(x: Session, s: Snapshot) {
    x.sender.sender.None? && x.handed == if x.sender.status.completed then [s] else []
  }

  // ----- The chunks of a checkpoint -----

  lemma {:induction false} OffsetsAscend(chunks: seq<Chunk>, j: nat, k: nat)
    requires Consecutive(chunks) && j < k < |chunks|
    requires forall c :: c in chunks && !c.done ==> c.data != []
    ensures chunks[j].offset < chunks[k].offset
    decreases k - j
  {
    assert chunks[j] in chunks && chunks[k - 1] in chunks;
    if j + 1 < k {
      OffsetsAscend(chunks, j, k - 1);
    }
  }

  lemma {:induction false} OnlyLastIsEmpty(s: Snapshot, chunkSize: nat, offset: nat)
    requires chunkSize > 0 && offset <= |s.payload|
    ensures forall c :: c in ChunksFrom(s, chunkSize, offset) ==> c.data != []
    decreases |s.payload| - offset
  {
    if offset < |s.payload| {
      ChunksFromUnfolds(s, chunkSize, offset);
      OnlyLastIsEmpty(s, chunkSize, offset + |PieceAt(s, chunkSize, offset).data|);
      PieceAtIsPiece(s, chunkSize, offset);
      hide PieceAt, ChunksFrom;
    }
  }

  lemma CheckpointIsCut(s: Snapshot, chunkSize: nat)
    requires chunkSize > 0
    ensures Cut(s, Checkpoint(s, chunkSize))
  {
    CheckpointPartitionsPayload(s, chunkSize);
    OnlyLastIsEmpty(s, chunkSize, 0);
    var chunks := Checkpoint(s, chunkSize);
    forall j, k | 0 <= j < k < |chunks| ensures chunks[j].offset < chunks[k].offset {
      OffsetsAscend(chunks, j, k);
    }
  }

  // ----- One round -----

  lemma DeliverOne(s: Snapshot, chunks: seq<Chunk>, sender: Sender, v: Lifecycle, a: nat)
    requires Cut(s, chunks) && a < |chunks| && HoldsUpTo(v, s, chunks[a].offset) && sender.groupId == s.groupId
    ensures var (next, out) := InstallStep(v, Deliver(Request(sender.groupId, sender.term, sender.leaderId, chunks[a])));
            if a + 1 == |chunks| then next.installer.None? && out == [s]
            else HoldsUpTo(next, s, chunks[a + 1].offset) && out == []
  {
    assert chunks[a] in chunks && IsPieceOf(s, chunks[a]);
    var i := if v.installer.Some? then v.installer.value else Installer(s.meta, [], 0, false);
    assert i.bytes == s.payload[..i.nextOffset];
    InstallChunkKeepsPrefix(s, i, chunks[a]);
    if a + 1 < |chunks| {
      assert !chunks[a].done && chunks[a + 1].offset == chunks[a].offset + |chunks[a].data|;
    }
  }

  lemma {:induction false} DeliverRange(s: Snapshot, chunks: seq<Chunk>, sender: Sender, v: Lifecycle, a: nat, b: nat)
    requires Cut(s, chunks) && a <= b <= |chunks| && a < |chunks| && HoldsUpTo(v, s, chunks[a].offset)
    requires sender.groupId == s.groupId
    ensures var (after, out) := InstallAll(v, Delivered(Requests(sender, chunks[a..b])));
            if b == |chunks| then after.installer.None? && out == [s]
            else HoldsUpTo(after, s, chunks[b].offset) && out == []
    decreases b - a
  {
    var events := Delivered(Requests(sender, chunks[a..b]));
    if a == b {
      assert events == [];
    } else {
      DeliverOne(s, chunks, sender, v, a);
      var (next, out) := InstallStep(v, events[0]);
      assert events[0] == Deliver(Request(sender.groupId, sender.term, sender.leaderId, chunks[a]));
      assert events[1..] == Delivered(Requests(sender, chunks[a + 1..b]));
      if a + 1 == |chunks| {
        assert events[1..] == [] && InstallAll(next, []) == (next, []);
        assert [s] + [] == [s];
      } else {
        hide InstallStep, HoldsUpTo, Cut;
        DeliverRange(s, chunks, sender, next, a + 1, b);
        assert [] + InstallAll(next, events[1..]).1 == InstallAll(next, events[1..]).1;
      }
    }
  }

  lemma {:induction false} AcceptsCount(l: Lifecycle, k: nat)
    requires CursorInRange(l) && l.sender.Some? && l.sender.value.acceptedChunks < |l.sender.value.chunks|
    requires l.sender.value.acceptedChunks + k <= |l.sender.value.chunks|
    ensures var s, t := l.sender.value, AcceptTimes(l, k);
            && t.config == l.config
            && (s.acceptedChunks + k < |s.chunks| ==>
                  t.sender == Some(s.(acceptedChunks := s.acceptedChunks + k)) && t.status == l.status)
            && (s.acceptedChunks + k == |s.chunks| ==> t.sender.None? && t.status.completed)
    decreases k
  {
    if k > 0 {
      var next := RecordResponse(l, Response(true, 0)).0;
      if next.sender.Some? {
        AcceptsCount(next, k - 1);
      } else {
        assert k == 1 && AcceptTimes(next, 0) == next;
      }
    }
  }

  /** The cursor goes to the chunk that starts at the offset. */
  lemma RewindFinds(s: Snapshot, chunks: seq<Chunk>, l: Lifecycle, k: nat)
    requires Cut(s, chunks) && l.sender.Some? && l.sender.value.chunks == chunks && k < |chunks|
    ensures var (t, ok) := RecordResponse(l, Response(false, chunks[k].offset));
            && t.config == l.config && t.status.completed == l.status.completed
            && (ok <==> l.sender.value.retryCount < l.config.maxRetryAttempts)
            && (ok ==> t.sender == Some(l.sender.value.(nextChunk := k, retryCount := l.sender.value.retryCount + 1)))
            && (!ok ==> t.sender.None?)
  {
    RejectionRewindsExactly(l, chunks[k].offset);
    hide Consecutive, IsPieceOf, FirstAtOrAfter;
    assert forall j :: 0 <= j < k ==> chunks[j].offset < chunks[k].offset;
  }

  /** What a round leads to, with m requests emitted of which d arrived. */
  ghost predicate RoundTo(x: Session, y: Session, s: Snapshot, chunks: seq<Chunk>, k: nat, d: nat, m: nat)
    requires x.sender.sender.Some?
  {
    && 0 < m && d <= m && k + m <= |chunks| && y.sender.config == x.sender.config
    && (k + d == |chunks| ==> Over(y, s) && y.sender.status.completed)
    && (k + d < |chunks| && d == m ==>
          Going(y, s, chunks, k + d) && y.sender.sender.value.retryCount == x.sender.sender.value.retryCount)
    && (d < m && x.sender.sender.value.retryCount < x.sender.config.maxRetryAttempts ==>
          Going(y, s, chunks, k + d) && y.sender.sender.value.retryCount == x.sender.sender.value.retryCount + 1)
    && (d < m && x.sender.sender.value.retryCount >= x.sender.config.maxRetryAttempts ==>
          Over(y, s) && !y.sender.status.completed)
  }

  /** The poll, the delivery and the accepts of a round. */
  lemma RoundBegins(x: Session, intact: nat, s: Snapshot, chunks: seq<Chunk>, k: nat)
    requires Going(x, s, chunks, k)
    ensures var (polled, r) := Poll(x.sender);
            && r.Ok? && 0 < |r.value| && k + |r.value| <= |chunks| && CursorInRange(polled)
            && var d := Min(intact, |r.value|);
               var (received, out) := InstallAll(x.receiver, Delivered(r.value[..d]));
               var accepted := AcceptTimes(polled, d);
               && accepted.config == x.sender.config
               && (if k + d == |chunks| then
                     received.installer.None? && out == [s] && accepted.sender.None? && accepted.status.completed
                   else
                     && HoldsUpTo(received, s, chunks[k + d].offset) && out == []
                     && accepted.sender == Some(x.sender.sender.value.(nextChunk := k + |r.value|, acceptedChunks := k + d))
                     && !accepted.status.completed)
  {
    var u := x.sender.sender.value;
    PollIsGreedy(x.sender);
    var (polled, r) := Poll(x.sender);
    var m := |r.value|;
    var d := Min(intact, m);
    assert polled.status.completed == x.sender.status.completed;
    hide Poll, Cut, HoldsUpTo, Data;
    assert r.value[..d] == Requests(u, chunks[k..k + d]);
    DeliverRange(s, chunks, u, x.receiver, k, k + d);
    AcceptsCount(polled, d);
  }

  lemma ExpectedIs(v: Lifecycle, s: Snapshot, offset: nat)
    requires HoldsUpTo(v, s, offset)
    ensures Expected(v) == offset
  {
  }

  lemma RoundGoesOn(x: Session, intact: nat, s: Snapshot, chunks: seq<Chunk>, k: nat)
    requires Going(x, s, chunks, k)
    ensures var r := Poll(x.sender).1;
            r.Ok? && RoundTo(x, Round(x, intact), s, chunks, k, Min(intact, |r.value|), |r.value|)
  {
    RoundBegins(x, intact, s, chunks, k);
    var (polled, r) := Poll(x.sender);
    var d := Min(intact, |r.value|);
    var (received, out) := InstallAll(x.receiver, Delivered(r.value[..d]));
    var accepted := AcceptTimes(polled, d);
    assert [] + out == out;
    if d < |r.value| {
      ExpectedIs(received, s, chunks[k + d].offset);
      RewindFinds(s, chunks, accepted, k + d);
    }
    hide InstallAll, AcceptTimes, RecordResponse, Cut, HoldsUpTo, Delivered, Poll, Expected;
  }

  /** Main result: a receiver that is told to expect the next chunk gets exactly that one next:
      after a rejection with the offset of a receiver that holds the first k chunks, the next
      poll emits the chunks from the k-th on, and the receiver accepts the first of them. */
  lemma RejectionResumesExactly(l: Lifecycle, v: Lifecycle, s: Snapshot, k: nat)
    requires l.config.Valid() && l.sender.Some? && l.sender.value.chunks == Checkpoint(s, l.config.chunkSize)
    requires l.sender.value.groupId == s.groupId && l.sender.value.retryCount < l.config.maxRetryAttempts
    requires k < |l.sender.value.chunks| && HoldsUpTo(v, s, l.sender.value.chunks[k].offset)
    ensures var chunks := l.sender.value.chunks;
            var rewound := RecordResponse(l, Response(false, Expected(v))).0;
            && CursorInRange(rewound)
            && var r := Poll(rewound).1;
               && r.Ok? && r.value != [] && r.value[0].chunk == chunks[k] && k + |r.value| <= |chunks|
               && (forall j :: 0 <= j < |r.value| ==> r.value[j].chunk == chunks[k + j])
               && Install(v, r.value[0]).1.Ok?
  {
    var chunks := l.sender.value.chunks;
    CheckpointIsCut(s, l.config.chunkSize);
    ExpectedIs(v, s, chunks[k].offset);
    RewindFinds(s, chunks, l, k);
    var rewound := RecordResponse(l, Response(false, Expected(v))).0;
    assert rewound.sender == Some(l.sender.value.(nextChunk := k, retryCount := l.sender.value.retryCount + 1));
    assert rewound.config == l.config && CursorInRange(rewound);
    hide RecordResponse, Poll, Checkpoint, Data, Cut, Expected, HoldsUpTo, Install;
    PollIsGreedy(rewound);
    var r := Poll(rewound).1.value;
    assert forall j :: 0 <= j < |r| ==> r[j].chunk == chunks[k..k + |r|][j];
    NextIsAccepted(v, s, chunks, r[0], k);
  }

  lemma NextIsAccepted(v: Lifecycle, s: Snapshot, chunks: seq<Chunk>, r: Request, k: nat)
    requires Cut(s, chunks) && k < |chunks| && HoldsUpTo(v, s, chunks[k].offset) && r.chunk == chunks[k]
    ensures Install(v, r).1.Ok?
  {
    assert chunks[k] in chunks;
  }

  // ----- Whole sessions -----

  lemma OverStays(x: Session, intact: nat, s: Snapshot)
    requires Over(x, s)
    ensures Round(x, intact).sender == x.sender && Round(x, intact).handed == x.handed
  {
    assert x.handed + [] == x.handed;
  }

  lemma {:induction false} RoundsOverStay(x: Session, intact: seq<nat>, s: Snapshot)
    requires Over(x, s)
    ensures Rounds(x, intact).sender == x.sender && Rounds(x, intact).handed == x.handed
    decreases |intact|
  {
    if intact != [] {
      OverStays(x, intact[0], s);
      hide Round;
      RoundsOverStay(Round(x, intact[0]), intact[1..], s);
    }
  }

  /** The session is going on, or it is over. */
  ghost predicate InSession(x: Session, s: Snapshot, chunks: seq<Chunk>) {
    Over(x, s) || exists k :: Going(x, s, chunks, k)
  }

  lemma {:induction false} RoundsStayInSession(x: Session, intact: seq<nat>, s: Snapshot, chunks: seq<Chunk>, k: nat)
    requires Going(x, s, chunks, k)
    ensures InSession(Rounds(x, intact), s, chunks)
    decreases |intact|
  {
    if intact == [] {
      assert Rounds(x, intact) == x;
    } else {
      var y := Round(x, intact[0]);
      NextRound(x, intact[0], s, chunks, k);
      assert Rounds(x, intact) == Rounds(y, intact[1..]) && CursorInRange(y.sender);
      hide *;
      if Over(y, s) {
        RoundsOverStay(y, intact[1..], s);
        SameIsOver(y, Rounds(y, intact[1..]), s);
        OverInSession(Rounds(y, intact[1..]), s, chunks);
      } else {
        var j :| Going(y, s, chunks, j);
        RoundsStayInSession(y, intact[1..], s, chunks, j);
      }
    }
  }

  lemma NextRound(x: Session, intact: nat, s: Snapshot, chunks: seq<Chunk>, k: nat)
    requires Going(x, s, chunks, k)
    ensures Over(Round(x, intact), s) || exists j :: Going(Round(x, intact), s, chunks, j)
  {
    RoundGoesOn(x, intact, s, chunks, k);
    var m := |Poll(x.sender).1.value|;
    hide Round, Going, Over, Poll;
    assert Over(Round(x, intact), s) || Going(Round(x, intact), s, chunks, k + Min(intact, m));
  }

  lemma OverInSession(x: Session, s: Snapshot, chunks: seq<Chunk>)
    requires Over(x, s)
    ensures InSession(x, s, chunks)
  {
  }

  lemma SameIsOver(x: Session, y: Session, s: Snapshot)
    requires Over(x, s) && y.sender == x.sender && y.handed == x.handed
    ensures Over(y, s)
  {
  }

  /** How many rounds let at least n requests through, and how many may lose some. */
  function Clean(intact: seq<nat>, n: nat): nat {
    if intact == [] then 0 else (if intact[0] >= n then 1 else 0) + Clean(intact[1..], n)
  }

  lemma {:induction false} EnoughRoundsFinish(x: Session, intact: seq<nat>, s: Snapshot, chunks: seq<Chunk>, k: nat)
    requires Going(x, s, chunks, k) && Clean(intact, |chunks|) >= |chunks| - k
    requires |intact| - Clean(intact, |chunks|) + x.sender.sender.value.retryCount <= x.sender.config.maxRetryAttempts
    ensures Over(Rounds(x, intact), s) && Rounds(x, intact).sender.status.completed
    decreases |intact|
  {
    CleanAtMost(intact, |chunks|);
    RoundGoesOn(x, intact[0], s, chunks, k);
    var d, m := Min(intact[0], |Poll(x.sender).1.value|), |Poll(x.sender).1.value|;
    var y := Round(x, intact[0]);
    CleanAtMost(intact[1..], |chunks|);
    if k + d == |chunks| {
      assert Over(y, s) && y.sender.status.completed;
      hide Round, Going, Over, Poll;
      RoundsOverStay(y, intact[1..], s);
      SameIsOver(y, Rounds(y, intact[1..]), s);
    } else {
      assert Going(y, s, chunks, k + d);
      hide Round, Going, Over, Poll;
      EnoughRoundsFinish(y, intact[1..], s, chunks, k + d);
    }
  }

  lemma {:induction false} CleanAtMost(intact: seq<nat>, n: nat)
    ensures Clean(intact, n) <= |intact|
  {
    if intact != [] {
      CleanAtMost(intact[1..], n);
    }
  }

  lemma SessionBegins(l: Lifecycle, receiver: Lifecycle, s: Snapshot, term: Term, leaderId: NodeId)
    requires l.config.Valid() && l.sender.None? && l.installer.None? && receiver.installer.None?
    ensures var x := Session(BeginSend(l, s, term, leaderId).0, receiver, []);
            && CursorInRange(x.sender) && Going(x, s, Checkpoint(s, l.config.chunkSize), 0)
            && x.sender.sender.value.retryCount == 0 && x.sender.config == l.config
  {
    CheckpointIsCut(s, l.config.chunkSize);
    hide Checkpoint;
  }

  /** Main result: a sender whose rejections carry the offset that the receiver expects. Whatever
      is lost, the receiver hands out the snapshot, once, exactly when the send completes, and
      nothing else; and the send does complete when at most as many rounds lose a request as
      there are retries and as many as there are chunks lose none. */
  lemma SessionHandsOutExactly(l: Lifecycle, receiver: Lifecycle, s: Snapshot, term: Term, leaderId: NodeId, intact: seq<nat>)
    requires l.config.Valid() && l.sender.None? && l.installer.None? && receiver.installer.None?
    ensures var begun := BeginSend(l, s, term, leaderId).0;
            var n := |Checkpoint(s, l.config.chunkSize)|;
            && CursorInRange(begun)
            && var y := Rounds(Session(begun, receiver, []), intact);
               && y.handed == (if y.sender.status.completed then [s] else [])
               && (Clean(intact, n) >= n && |intact| - Clean(intact, n) <= l.config.maxRetryAttempts ==>
                     y.sender.status.completed)
  {
    var chunks := Checkpoint(s, l.config.chunkSize);
    var x := Session(BeginSend(l, s, term, leaderId).0, receiver, []);
    SessionBegins(l, receiver, s, term, leaderId);
    hide BeginSend, Rounds, Checkpoint, Clean, Cut, HoldsUpTo;
    RoundsStayInSession(x, intact, s, chunks, 0);
    if Clean(intact, |chunks|) >= |chunks| && |intact| - Clean(intact, |chunks|) <= l.config.maxRetryAttempts {
      EnoughRoundsFinish(x, intact, s, chunks, 0);
    }
  }
}
