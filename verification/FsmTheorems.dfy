/** Exactly-once application across replays and checkpoints. */
module FsmTheorems {
  import opened Types
  import opened Ordering
  import opened FsmModel

  /** The machine state after it was called with the given entries in turn. */
  function Feed<S, P, R, N>(m: Machine<S, P, R, N>, init: S, calls: seq<Entry<P>>): S {
    if calls == [] then init
    else
      var last := calls[|calls| - 1];
      m.apply(Feed(m, init, calls[..|calls| - 1]), last.logId, last.payload).0
  }

  /** What the machine answered to the k-th call. */
  function Answer<S, P, R, N>(m: Machine<S, P, R, N>, init: S, calls: seq<Entry<P>>, k: nat): Result<ApplyResponse<R>>
    requires k < |calls|
  {
    m.apply(Feed(m, init, calls[..k]), calls[k].logId, calls[k].payload).1
  }

  lemma FeedAppend<S, P, R, N>(m: Machine<S, P, R, N>, init: S, calls: seq<Entry<P>>, e: Entry<P>)
    ensures Feed(m, init, calls + [e]) == m.apply(Feed(m, init, calls), e.logId, e.payload).0
    ensures Answer(m, init, calls + [e], |calls|) == m.apply(Feed(m, init, calls), e.logId, e.payload).1
    ensures forall k :: 0 <= k < |calls| ==> Answer(m, init, calls + [e], k) == Answer(m, init, calls, k)
  {
    var more := calls + [e];
    assert more[..|calls|] == calls;
    forall k | 0 <= k < |calls| ensures Answer(m, init, more, k) == Answer(m, init, calls, k) {
      assert more[..k] == calls[..k];
    }
  }

  lemma {:induction false} FeedFront<S, P, R, N>(m: Machine<S, P, R, N>, init: S, e: Entry<P>, rest: seq<Entry<P>>)
    ensures Feed(m, init, [e] + rest) == Feed(m, m.apply(init, e.logId, e.payload).0, rest)
    decreases |rest|
  {
    if rest == [] {
      assert [e] + rest == [e] && [e][..0] == [];
    } else {
      var n := |rest| - 1;
      assert ([e] + rest)[..n + 1] == [e] + rest[..n];
      FeedFront(m, init, e, rest[..n]);
    }
  }

  /** The k-th call was answered successfully and was for index i. */
  predicate Succeeded<S, P, R, N>(m: Machine<S, P, R, N>, init: S, calls: seq<Entry<P>>, k: nat, i: LogIndex) {
    k < |calls| && calls[k].logId.index == i && Answer(m, init, calls, k).Ok?
  }

  /** The greatest index the successful answers reported, or zero. */
  function LastApplied<S, P, R, N>(m: Machine<S, P, R, N>, init: S, calls: seq<Entry<P>>): LogIndex {
    if calls == [] then 0
    else
      var n := |calls| - 1;
      var before := LastApplied(m, init, calls[..n]);
      match Answer(m, init, calls, n)
      case Err(_) => before
      case Ok(response) => Max(before, response.appliedIndex)
  }

  ghost predicate Accepted<S, P, R, N>(m: Machine<S, P, R, N>, init: S, calls: seq<Entry<P>>, i: LogIndex) {
    exists k: nat :: Succeeded(m, init, calls, k, i)
  }

  /** The adapter is what the calls made of it: the state is theirs, the applied indices
      are exactly those answered successfully, no index twice, and the recorded responses
      are exactly the answers from call number since on. */
  ghost predicate ExplainedBy<S, P, R, N>(m: Machine<S, P, R, N>, init: S, a: Adapter<S, R>, calls: seq<Entry<P>>, since: nat) {
    && a.state == Feed(m, init, calls)
    && a.lastApplied == LastApplied(m, init, calls)
    && (forall i :: i in a.applied <==> Accepted(m, init, calls, i))
    && (forall k: nat, i :: Succeeded(m, init, calls, k, i) ==> a.applied[i] == calls[k].logId.term)
    && (forall j: nat, k: nat, i :: Succeeded(m, init, calls, j, i) && Succeeded(m, init, calls, k, i) ==> j == k)
    && (forall i :: i in a.responses ==> i in a.applied)
    && (forall k: nat, i :: Succeeded(m, init, calls, k, i) ==>
          (i in a.responses <==> k >= since) && (k >= since ==> Answer(m, init, calls, k) == Ok(a.responses[i])))
  }

  lemma SucceededAppend<S, P, R, N>(m: Machine<S, P, R, N>, init: S, calls: seq<Entry<P>>, e: Entry<P>)
    ensures forall k: nat, i :: Succeeded(m, init, calls + [e], k, i) <==>
              || Succeeded(m, init, calls, k, i)
              || (k == |calls| && i == e.logId.index && m.apply(Feed(m, init, calls), e.logId, e.payload).1.Ok?)
    ensures forall i :: Accepted(m, init, calls + [e], i) <==>
              || Accepted(m, init, calls, i)
              || (i == e.logId.index && m.apply(Feed(m, init, calls), e.logId, e.payload).1.Ok?)
  {
    FeedAppend(m, init, calls, e);
    var more := calls + [e];
    forall k: nat, i ensures Succeeded(m, init, calls, k, i) ==> Succeeded(m, init, more, k, i) {
    }
    forall i | i == e.logId.index && m.apply(Feed(m, init, calls), e.logId, e.payload).1.Ok?
      ensures Accepted(m, init, more, i)
    {
      assert Succeeded(m, init, more, |calls|, i);
    }
  }

  // ----- Which of the offered entries reach the machine -----

  /** The calls that offering entries in turn makes: an entry is passed on exactly when its
      index has not been accepted yet. */
  ghost function CallsOf<S, P, R, N>(m: Machine<S, P, R, N>, init: S, offered: seq<Entry<P>>): seq<Entry<P>> {
    if offered == [] then []
    else
      var n := |offered| - 1;
      var before := CallsOf(m, init, offered[..n]);
      if Accepted(m, init, before, offered[n].logId.index) then before else before + [offered[n]]
  }

  lemma CallsOfAppend<S, P, R, N>(m: Machine<S, P, R, N>, init: S, offered: seq<Entry<P>>, e: Entry<P>)
    ensures CallsOf(m, init, offered + [e])
            == (if Accepted(m, init, CallsOf(m, init, offered), e.logId.index) then CallsOf(m, init, offered)
                else CallsOf(m, init, offered) + [e])
  {
    assert (offered + [e])[..|offered|] == offered;
  }

  /** The entries offered so far, and how many calls they had made when a checkpoint was last
      installed; the answers to those are forgotten. */
  datatype History<P> = History(offered: seq<Entry<P>>, since: nat)

  ghost predicate Explains<S, P, R, N>(m: Machine<S, P, R, N>, init: S, a: Adapter<S, R>, h: History<P>) {
    ExplainedBy(m, init, a, CallsOf(m, init, h.offered), h.since) && h.since <= |CallsOf(m, init, h.offered)|
  }

  /** Offering the entry next is an error: its index was accepted with another term or its
      answer is forgotten, or the machine fails on it. */
  ghost predicate Refuses<S, P, R, N>(m: Machine<S, P, R, N>, init: S, h: History<P>, e: Entry<P>) {
    var calls := CallsOf(m, init, h.offered);
    if Accepted(m, init, calls, e.logId.index) then
      exists k: nat :: Succeeded(m, init, calls, k, e.logId.index) && (calls[k].logId.term != e.logId.term || k < h.since)
    else m.apply(Feed(m, init, calls), e.logId, e.payload).1.Err?
  }

  lemma ApplyExplained<S, P, R, N>(m: Machine<S, P, R, N>, init: S, a: Adapter<S, R>, h: History<P>, e: Entry<P>)
    requires Explains(m, init, a, h)
    ensures Explains(m, init, ApplyEntry(m, a, e).0, h.(offered := h.offered + [e]))
    ensures ApplyEntry(m, a, e).1.Err? <==> Refuses(m, init, h, e)
  {
    CallsOfAppend(m, init, h.offered, e);
    var calls, i := CallsOf(m, init, h.offered), e.logId.index;
    hide CallsOf;
    if i in a.applied {
      var k: nat :| Succeeded(m, init, calls, k, i);
    } else {
      NewCallExplained(m, init, a, calls, h.since, e);
    }
  }

  lemma NewCallExplained<S, P, R, N>(m: Machine<S, P, R, N>, init: S, a: Adapter<S, R>, calls: seq<Entry<P>>, since: nat, e: Entry<P>)
    requires ExplainedBy(m, init, a, calls, since) && since <= |calls| && e.logId.index !in a.applied
    ensures ExplainedBy(m, init, ApplyEntry(m, a, e).0, calls + [e], since)
  {
    FeedAppend(m, init, calls, e);
    SucceededAppend(m, init, calls, e);
    assert (calls + [e])[..|calls|] == calls;
  }

  /** Offers entries in turn up to the first refused one, which is offered too. */
  ghost function OfferAll<S, P, R, N>(m: Machine<S, P, R, N>, init: S, h: History<P>, es: seq<Entry<P>>): History<P>
    decreases |es|
  {
    if es == [] then h
    else
      var more := h.(offered := h.offered + [es[0]]);
      if Refuses(m, init, h, es[0]) then more else OfferAll(m, init, more, es[1..])
  }

  lemma {:induction false} ReplayExplained<S, P, R, N>(
      m: Machine<S, P, R, N>, init: S, a: Adapter<S, R>, h: History<P>, es: seq<Entry<P>>, report: Report)
    requires Explains(m, init, a, h)
    ensures Explains(m, init, ReplayFrom(m, a, es, report).0, OfferAll(m, init, h, es))
    decreases |es|
  {
    if es != [] {
      ApplyExplained(m, init, a, h, es[0]);
      var (next, r) := ApplyEntry(m, a, es[0]);
      hide Explains, Refuses, ApplyEntry;
      if r.Ok? {
        ReplayExplained(m, init, next, h.(offered := h.offered + [es[0]]), es[1..], Counted(report, r.value.applied));
      }
    }
  }

  // ----- Checkpoints -----

  /** Installing a snapshot that was taken of a state restores that state. */
  ghost predicate SnapshotsRoundTrip<S(!new), P, R, N>(m: Machine<S, P, R, N>) {
    forall s, t :: m.snapshot(s).Ok? ==> m.install(t, m.snapshot(s).value) == (s, Ok(()))
  }

  lemma {:induction false} TermsOfIds(ids: seq<LogId>)
    requires forall i, j :: 0 <= i < j < |ids| ==> ids[i].index != ids[j].index
    ensures forall x :: x in TermsOf(ids) <==> exists k :: 0 <= k < |ids| && ids[k].index == x
    ensures forall k :: 0 <= k < |ids| ==> TermsOf(ids)[ids[k].index] == ids[k].term
  {
    if ids != [] {
      var rest := ids[..|ids| - 1];
      TermsOfIds(rest);
      forall x ensures x in TermsOf(ids) <==> exists k :: 0 <= k < |ids| && ids[k].index == x {
        if x in TermsOf(rest) {
          var k :| 0 <= k < |rest| && rest[k].index == x;
          assert ids[k].index == x;
        }
        if exists k :: 0 <= k < |ids| && ids[k].index == x {
          var k :| 0 <= k < |ids| && ids[k].index == x;
          assert k < |rest| ==> rest[k].index == x;
        }
      }
      forall k | 0 <= k < |ids| ensures TermsOf(ids)[ids[k].index] == ids[k].term {
        assert k < |rest| ==> rest[k] == ids[k];
      }
    }
  }

  lemma LogIdsOfDistinct(applied: map<LogIndex, Term>, keys: seq<LogIndex>)
    requires (forall k :: k in keys ==> k in applied) && Ascending(keys)
    ensures var ids := LogIdsOf(applied, keys);
            forall i, j :: 0 <= i < j < |ids| ==> ids[i].index != ids[j].index
  {
  }

  lemma TermsOfLogIds(applied: map<LogIndex, Term>, keys: seq<LogIndex>, x: LogIndex)
    requires (forall k :: k in keys ==> k in applied) && Ascending(keys)
    ensures var back := TermsOf(LogIdsOf(applied, keys));
            (x in back <==> x in keys) && (x in keys ==> back[x] == applied[x])
  {
    var ids := LogIdsOf(applied, keys);
    LogIdsOfDistinct(applied, keys);
    TermsOfIds(ids);
    if x in keys {
      var k :| 0 <= k < |keys| && keys[k] == x;
      assert ids[k] == LogId(applied[x], x);
    }
  }

  /** The list of ids in a checkpoint rebuilds the applied map. */
  lemma AppliedIdsRoundTrip(applied: map<LogIndex, Term>)
    ensures TermsOf(LogIdsOf(applied, SortedKeys(applied.Keys))) == applied
  {
    var keys := SortedKeys(applied.Keys);
    hide TermsOf, LogIdsOf, SortedKeys;
    forall x ensures var back := TermsOf(LogIdsOf(applied, keys));
                     (x in back <==> x in applied) && (x in applied ==> back[x] == applied[x]) {
      TermsOfLogIds(applied, keys, x);
      assert x in keys <==> x in applied.Keys;
    }
  }

  /** The adapter that installing a checkpoint of a produces: everything but the
      recorded responses. */
  function Restored<S, R>(a: Adapter<S, R>): Adapter<S, R> {
    a.(responses := map[])
  }

  /** Whatever the installing adapter held before, it becomes the checkpointed one. */
  lemma InstallRestores<S(!new), P, R, N>(m: Machine<S, P, R, N>, a: Adapter<S, R>, b: Adapter<S, R>)
    requires SnapshotsRoundTrip(m) && TakeCheckpoint(m, a).Ok?
    ensures InstallCheckpoint(m, b, TakeCheckpoint(m, a).value) == (Restored(a), Ok(()))
  {
    AppliedIdsRoundTrip(a.applied);
  }

  /** A failed installation leaves the state the machine was left in, and every index that was
      applied before is answered as before and never applied again. */
  lemma FailedInstallKeepsAnswers<S, P, R, N>(m: Machine<S, P, R, N>, a: Adapter<S, R>, c: Checkpoint<N>, e: Entry<P>)
    requires m.install(a.state, c.snapshot).1.Err?
    ensures var (b, r) := InstallCheckpoint(m, a, c);
            && r == Err(m.install(a.state, c.snapshot).1.error) && b.state == m.install(a.state, c.snapshot).0
            && b.applied == a.applied && b.lastApplied == a.lastApplied
            && (e.logId.index in a.applied ==>
                  ApplyEntry(m, b, e).1 == ApplyEntry(m, a, e).1 && ApplyEntry(m, b, e).0 == b)
  {
  }

  // ----- Runs -----

  datatype Op<P> = ApplyOne(entry: Entry<P>) | ReplayMany(entries: seq<Entry<P>>) | Save | Load(slot: nat)

  /** An adapter and the checkpoints taken so far. */
  datatype World<S, R, N> = World(adapter: Adapter<S, R>, saved: seq<Checkpoint<N>>)

  function Step<S, P, R, N>(m: Machine<S, P, R, N>, w: World<S, R, N>, op: Op<P>): World<S, R, N> {
    match op
    case ApplyOne(e) => w.(adapter := ApplyEntry(m, w.adapter, e).0)
    case ReplayMany(es) => w.(adapter := Replay(m, w.adapter, es).0)
    case Save =>
      var c := TakeCheckpoint(m, w.adapter);
      if c.Ok? then w.(saved := w.saved + [c.value]) else w
    case Load(slot) =>
      if slot < |w.saved| then w.(adapter := InstallCheckpoint(m, w.adapter, w.saved[slot]).0) else w
  }

  function Run<S, P, R, N>(m: Machine<S, P, R, N>, w: World<S, R, N>, ops: seq<Op<P>>): World<S, R, N>
    decreases |ops|
  {
    if ops == [] then w else Run(m, Step(m, w, ops[0]), ops[1..])
  }

  /** The history of the adapter and of every saved checkpoint. */
  datatype Histories<P> = Histories(now: History<P>, saved: seq<History<P>>)

  function NewWorld<S, R, N>(init: S): World<S, R, N> {
    World(New(init), [])
  }

  function NewHistories<P>(): Histories<P> {
    Histories(History([], 0), [])
  }

  /** What an operation adds: applies and replays offer entries, saving keeps the history so
      far, and loading goes back to a saved one, whose answers are forgotten. */
  ghost function Recall<S, P, R, N>(m: Machine<S, P, R, N>, init: S, hs: Histories<P>, op: Op<P>): Histories<P> {
    match op
    case ApplyOne(e) => hs.(now := OfferAll(m, init, hs.now, [e]))
    case ReplayMany(es) => hs.(now := OfferAll(m, init, hs.now, es))
    case Save =>
      if m.snapshot(Feed(m, init, CallsOf(m, init, hs.now.offered))).Ok? then hs.(saved := hs.saved + [hs.now]) else hs
    case Load(slot) =>
      if slot < |hs.saved| then hs.(now := Forgetful(m, init, hs.saved[slot])) else hs
  }

  ghost function Forgetful<S, P, R, N>(m: Machine<S, P, R, N>, init: S, h: History<P>): History<P> {
    h.(since := |CallsOf(m, init, h.offered)|)
  }

  /** The histories that a run of operations leaves; no adapter takes part in them. */
  ghost function RecallAll<S, P, R, N>(m: Machine<S, P, R, N>, init: S, hs: Histories<P>, ops: seq<Op<P>>): Histories<P>
    decreases |ops|
  {
    if ops == [] then hs else RecallAll(m, init, Recall(m, init, hs, ops[0]), ops[1..])
  }

  ghost function HistoryOf<S, P, R, N>(m: Machine<S, P, R, N>, init: S, ops: seq<Op<P>>): History<P> {
    RecallAll(m, init, NewHistories<P>(), ops).now
  }

  /** The adapter was explained by the history when the checkpoint was taken of it. */
  ghost predicate TakenOf<S, P, R, N>(m: Machine<S, P, R, N>, init: S, c: Checkpoint<N>, h: History<P>, a: Adapter<S, R>) {
    TakeCheckpoint(m, a) == Ok(c) && Explains(m, init, a, h)
  }

  ghost predicate SavedExplained<S(!new), P, R(!new), N>(m: Machine<S, P, R, N>, init: S, c: Checkpoint<N>, h: History<P>) {
    exists a :: TakenOf(m, init, c, h, a)
  }

  ghost predicate WorldExplained<S(!new), P, R(!new), N>(m: Machine<S, P, R, N>, init: S, w: World<S, R, N>, hs: Histories<P>) {
    && Explains(m, init, w.adapter, hs.now) && |w.saved| == |hs.saved|
    && forall k :: 0 <= k < |w.saved| ==> SavedExplained(m, init, w.saved[k], hs.saved[k])
  }

  lemma RestoredExplained<S(!new), P, R, N>(m: Machine<S, P, R, N>, init: S, a: Adapter<S, R>, h: History<P>)
    requires Explains(m, init, a, h)
    ensures Explains(m, init, Restored(a), Forgetful(m, init, h))
  {
  }

  lemma SaveExplained<S(!new), P(!new), R(!new), N>(m: Machine<S, P, R, N>, init: S, w: World<S, R, N>, hs: Histories<P>)
    requires WorldExplained(m, init, w, hs)
    ensures WorldExplained(m, init, Step(m, w, Save), Recall(m, init, hs, Save))
  {
    var c := TakeCheckpoint(m, w.adapter);
    assert w.adapter.state == Feed(m, init, CallsOf(m, init, hs.now.offered));
    hide Explains, Feed, CallsOf;
    if c.Ok? {
      assert TakenOf(m, init, c.value, hs.now, w.adapter);
    }
  }

  lemma LoadExplained<S(!new), P(!new), R(!new), N>(m: Machine<S, P, R, N>, init: S, w: World<S, R, N>, hs: Histories<P>, slot: nat)
    requires SnapshotsRoundTrip(m) && WorldExplained(m, init, w, hs)
    ensures WorldExplained(m, init, Step(m, w, Load(slot)), Recall(m, init, hs, Load(slot)))
  {
    hide Explains, Restored, Forgetful, SnapshotsRoundTrip, TakeCheckpoint, InstallCheckpoint;
    if slot < |w.saved| {
      var a :| TakenOf(m, init, w.saved[slot], hs.saved[slot], a);
      InstallRestores(m, a, w.adapter);
      RestoredExplained(m, init, a, hs.saved[slot]);
    }
  }

  lemma StepExplained<S(!new), P(!new), R(!new), N>(m: Machine<S, P, R, N>, init: S, w: World<S, R, N>, hs: Histories<P>, op: Op<P>)
    requires SnapshotsRoundTrip(m) && WorldExplained(m, init, w, hs)
    ensures WorldExplained(m, init, Step(m, w, op), Recall(m, init, hs, op))
  {
    match op
    case Save => SaveExplained(m, init, w, hs);
    case Load(slot) => LoadExplained(m, init, w, hs, slot);
    case ApplyOne(e) =>
      var (next, r) := ApplyEntry(m, w.adapter, e);
      ApplyExplained(m, init, w.adapter, hs.now, e);
      hide Explains, Refuses, ApplyEntry;
      var more := hs.now.(offered := hs.now.offered + [e]);
      assert [e][1..] == [] && OfferAll(m, init, more, []) == more;
    case ReplayMany(es) =>
      hide Explains;
      ReplayExplained(m, init, w.adapter, hs.now, es, Report(0, 0, 0, w.adapter.lastApplied));
  }

  lemma {:induction false} RunExplained<S(!new), P(!new), R(!new), N>(
      m: Machine<S, P, R, N>, init: S, w: World<S, R, N>, hs: Histories<P>, ops: seq<Op<P>>)
    requires SnapshotsRoundTrip(m) && WorldExplained(m, init, w, hs)
    ensures WorldExplained(m, init, Run(m, w, ops), RecallAll(m, init, hs, ops))
    decreases |ops|
  {
    if ops != [] {
      StepExplained(m, init, w, hs, ops[0]);
      hide Step, Recall, WorldExplained, SnapshotsRoundTrip;
      RunExplained(m, init, Step(m, w, ops[0]), Recall(m, init, hs, ops[0]), ops[1..]);
    }
  }

  lemma NewIsExplained<S(!new), P(!new), R(!new), N>(m: Machine<S, P, R, N>, init: S)
    ensures WorldExplained(m, init, NewWorld<S, R, N>(init), NewHistories<P>())
  {
    assert forall k: nat, i :: !Succeeded(m, init, [], k, i);
  }

  /** Main result: from a new adapter, over every run of applies, replays, checkpoints and
      installs of saved checkpoints, the machine was called with exactly the entries offered
      before their index was accepted, in order; the adapter holds the state after those
      calls, the accepted indices, each accepted once, and exactly the answers given since a
      checkpoint was last installed. */
  lemma EveryRunAppliesOnce<S(!new), P(!new), R(!new), N>(m: Machine<S, P, R, N>, init: S, ops: seq<Op<P>>)
    requires SnapshotsRoundTrip(m)
    ensures var h := HistoryOf(m, init, ops);
            ExplainedBy(m, init, Run(m, NewWorld<S, R, N>(init), ops).adapter, CallsOf(m, init, h.offered), h.since)
  {
    NewIsExplained<S, P, R, N>(m, init);
    RunExplained(m, init, NewWorld<S, R, N>(init), NewHistories<P>(), ops);
    hide Run, RecallAll, ExplainedBy, CallsOf;
  }

  /** Main result: after any run, an entry whose index was accepted by call number k never
      reaches the machine again: with another term it is refused, after a checkpoint forgot
      the answer it is an error, and otherwise it gets the answer of that call. */
  lemma DuplicateIsAnsweredExactly<S(!new), P(!new), R(!new), N>(m: Machine<S, P, R, N>, init: S, ops: seq<Op<P>>,
                                                                e: Entry<P>, k: nat)
    requires SnapshotsRoundTrip(m)
    requires Succeeded(m, init, CallsOf(m, init, HistoryOf(m, init, ops).offered), k, e.logId.index)
    ensures var a := Run(m, NewWorld<S, R, N>(init), ops).adapter;
            var h := HistoryOf(m, init, ops);
            var calls := CallsOf(m, init, h.offered);
            ApplyEntry(m, a, e)
            == (a, if calls[k].logId.term != e.logId.term then Err(InvalidRequest)
                   else if k < h.since then Err(Storage)
                   else Ok(Outcome(Answer(m, init, calls, k).value, false)))
  {
    EveryRunAppliesOnce<S, P, R, N>(m, init, ops);
    hide Run, HistoryOf, CallsOf, Answer;
    assert Accepted(m, init, CallsOf(m, init, HistoryOf(m, init, ops).offered), e.logId.index);
  }

  // ----- Replay equals the fold over first occurrences -----

  ghost predicate Infallible<S(!new), P(!new), R, N>(m: Machine<S, P, R, N>) {
    forall s, id, p :: m.apply(s, id, p).1.Ok?
  }

  /** Entries with the same index carry the same term. */
  ghost predicate Consistent<P>(es: seq<Entry<P>>) {
    forall d, e :: d in es && e in es && d.logId.index == e.logId.index ==> d.logId.term == e.logId.term
  }

  /** The entries whose index occurs neither in seen nor earlier in the list. */
  function Firsts<P>(es: seq<Entry<P>>, seen: set<LogIndex>): seq<Entry<P>> {
    if es == [] then []
    else if es[0].logId.index in seen then Firsts(es[1..], seen)
    else [es[0]] + Firsts(es[1..], seen + {es[0].logId.index})
  }

  /** Every index applied in a agrees with es on its term and has its response recorded. */
  ghost predicate Replayable<S, P, R>(a: Adapter<S, R>, es: seq<Entry<P>>) {
    forall e :: e in es && e.logId.index in a.applied ==>
      a.applied[e.logId.index] == e.logId.term && e.logId.index in a.responses
  }

  ghost function IndicesOf<P>(es: seq<Entry<P>>): set<LogIndex> {
    set e | e in es :: e.logId.index
  }

  lemma IndicesOfCons<P>(es: seq<Entry<P>>)
    requires es != []
    ensures IndicesOf(es) == {es[0].logId.index} + IndicesOf(es[1..])
  {
  }

  lemma FirstsCons<P>(es: seq<Entry<P>>, seen: set<LogIndex>)
    requires es != []
    ensures Firsts(es, seen)
            == (if es[0].logId.index in seen then [] else [es[0]]) + Firsts(es[1..], seen + {es[0].logId.index})
  {
    if es[0].logId.index in seen {
      assert seen + {es[0].logId.index} == seen;
    }
  }

  lemma {:induction false} FirstsAppend<P>(es: seq<Entry<P>>, e: Entry<P>, seen: set<LogIndex>)
    ensures Firsts(es + [e], seen)
            == Firsts(es, seen) + if e.logId.index in seen + IndicesOf(es) then [] else [e]
    decreases |es|
  {
    if es == [] {
      assert es + [e] == [e] && [e][1..] == [];
    } else {
      FirstsCons(es, seen);
      FirstsCons(es + [e], seen);
      IndicesOfCons(es);
      assert (es + [e])[1..] == es[1..] + [e];
      FirstsAppend(es[1..], e, seen + {es[0].logId.index});
    }
  }

  /** When the machine never fails, the calls are the first occurrences. */
  lemma {:induction false} CallsAreFirsts<S(!new), P(!new), R, N>(m: Machine<S, P, R, N>, init: S, offered: seq<Entry<P>>)
    requires Infallible(m)
    ensures CallsOf(m, init, offered) == Firsts(offered, {})
    ensures forall i :: Accepted(m, init, CallsOf(m, init, offered), i) <==> i in IndicesOf(offered)
    decreases |offered|
  {
    if offered == [] {
      assert forall k: nat, i :: !Succeeded(m, init, [], k, i);
    } else {
      var n := |offered| - 1;
      var before, e := offered[..n], offered[n];
      assert offered == before + [e];
      CallsAreFirsts(m, init, before);
      CallsOfAppend(m, init, before, e);
      FirstsAppend(before, e, {});
      assert {} + IndicesOf(before) == IndicesOf(before);
      SucceededAppend(m, init, CallsOf(m, init, before), e);
      assert IndicesOf(offered) == IndicesOf(before) + {e.logId.index};
      hide CallsOf, Firsts, IndicesOf, Accepted;
    }
  }

  /** So after any run the adapter holds the fold over the first occurrences of the indices
      that were offered. */
  lemma EveryRunIsFold<S(!new), P(!new), R(!new), N>(m: Machine<S, P, R, N>, init: S, ops: seq<Op<P>>)
    requires SnapshotsRoundTrip(m) && Infallible(m)
    ensures var a := Run(m, NewWorld<S, R, N>(init), ops).adapter;
            var offered := HistoryOf(m, init, ops).offered;
            a.state == Feed(m, init, Firsts(offered, {})) && a.applied.Keys == IndicesOf(offered)
  {
    EveryRunAppliesOnce<S, P, R, N>(m, init, ops);
    CallsAreFirsts(m, init, HistoryOf(m, init, ops).offered);
    hide Run, HistoryOf, CallsOf, Firsts, Feed;
  }

  /** The entries that the operations hand in. */
  function EntriesOf<P>(ops: seq<Op<P>>): seq<Entry<P>> {
    if ops == [] then []
    else
      (match ops[0]
       case ApplyOne(e) => [e]
       case ReplayMany(es) => es
       case _ => []) + EntriesOf(ops[1..])
  }

  lemma {:induction false} AllOffered<S(!new), P(!new), R, N>(m: Machine<S, P, R, N>, init: S, h: History<P>, es: seq<Entry<P>>)
    requires Infallible(m) && Consistent(h.offered + es) && h.since == 0
    ensures OfferAll(m, init, h, es) == h.(offered := h.offered + es)
    decreases |es|
  {
    if es == [] {
      assert h.offered + es == h.offered;
    } else {
      var more := h.(offered := h.offered + [es[0]]);
      assert more.offered + es[1..] == h.offered + es;
      CallsAreFirsts(m, init, h.offered);
      CallsWereOffered(m, init, h.offered);
      assert es[0] in h.offered + es;
      assert !Refuses(m, init, h, es[0]);
      hide Refuses, Consistent;
      AllOffered(m, init, more, es[1..]);
    }
  }

  lemma {:induction false} CallsWereOffered<S, P, R, N>(m: Machine<S, P, R, N>, init: S, offered: seq<Entry<P>>)
    ensures forall e :: e in CallsOf(m, init, offered) ==> e in offered
    decreases |offered|
  {
    if offered != [] {
      CallsWereOffered(m, init, offered[..|offered| - 1]);
    }
  }

  lemma {:induction false} RecallOffersAll<S(!new), P(!new), R, N>(m: Machine<S, P, R, N>, init: S, hs: Histories<P>, ops: seq<Op<P>>)
    requires Infallible(m) && Consistent(hs.now.offered + EntriesOf(ops)) && hs.now.since == 0
    requires forall i :: 0 <= i < |ops| ==> !ops[i].Load?
    ensures RecallAll(m, init, hs, ops).now.offered == hs.now.offered + EntriesOf(ops)
    decreases |ops|
  {
    if ops == [] {
      assert hs.now.offered + [] == hs.now.offered;
    } else {
      var next, rest := Recall(m, init, hs, ops[0]), EntriesOf(ops[1..]);
      var first := match ops[0] case ApplyOne(e) => [e] case ReplayMany(es) => es case _ => [];
      assert EntriesOf(ops) == first + rest;
      ConcatAssociative(hs.now.offered, first, rest);
      ConsistentPart(hs.now.offered + first, rest);
      AllOffered(m, init, hs.now, first);
      assert hs.now.offered + [] == hs.now.offered;
      assert next.now.offered == hs.now.offered + first && next.now.since == 0;
      hide Recall, Consistent, EntriesOf, Infallible;
      RecallOffersAll(m, init, next, ops[1..]);
    }
  }

  lemma ConsistentPart<P>(a: seq<Entry<P>>, b: seq<Entry<P>>)
    requires Consistent(a + b)
    ensures Consistent(a)
  {
    assert forall e :: e in a ==> e in a + b;
  }

  /** Main result: without going back to a checkpoint, any applies and replays of entries that
      agree on the term of each index leave the fold over the first occurrences of all of
      them, however often and in whatever pieces they were handed in. */
  lemma AppliesAndReplaysAreFold<S(!new), P(!new), R(!new), N>(m: Machine<S, P, R, N>, init: S, ops: seq<Op<P>>)
    requires SnapshotsRoundTrip(m) && Infallible(m) && Consistent(EntriesOf(ops))
    requires forall i :: 0 <= i < |ops| ==> !ops[i].Load?
    ensures var a := Run(m, NewWorld<S, R, N>(init), ops).adapter;
            a.state == Feed(m, init, Firsts(EntriesOf(ops), {})) && a.applied.Keys == IndicesOf(EntriesOf(ops))
  {
    EveryRunIsFold<S, P, R, N>(m, init, ops);
    assert [] + EntriesOf(ops) == EntriesOf(ops);
    RecallOffersAll(m, init, NewHistories<P>(), ops);
    hide Run, RecallAll, EntriesOf, Consistent;
  }

  lemma ApplyOne<S(!new), P(!new), R, N>(m: Machine<S, P, R, N>, a: Adapter<S, R>, es: seq<Entry<P>>)
    requires es != [] && Infallible(m) && Consistent(es) && Replayable(a, es)
    ensures var e := es[0];
            var (next, r) := ApplyEntry(m, a, e);
            && r.Ok? && r.value.applied == (e.logId.index !in a.applied)
            && next.applied.Keys == a.applied.Keys + {e.logId.index}
            && next.state == (if r.value.applied then m.apply(a.state, e.logId, e.payload).0 else a.state)
            && Replayable(next, es[1..]) && Consistent(es[1..])
  {
  }

  lemma {:induction false} ReplayIsFold<S(!new), P(!new), R, N>(
      m: Machine<S, P, R, N>, a: Adapter<S, R>, es: seq<Entry<P>>, report: Report)
    requires Infallible(m) && Consistent(es) && Replayable(a, es)
    ensures var (b, r) := ReplayFrom(m, a, es, report);
            var firsts := Firsts(es, a.applied.Keys);
            && r.Ok? && b.state == Feed(m, a.state, firsts)
            && b.applied.Keys == a.applied.Keys + IndicesOf(es)
            && r.value.attempted == report.attempted + |es|
            && r.value.applied == report.applied + |firsts|
            && r.value.applied + r.value.skipped == report.applied + report.skipped + |es|
            && r.value.lastApplied == b.lastApplied
    decreases |es|
  {
    if es != [] {
      var (next, outcome) := ApplyEntry(m, a, es[0]);
      ApplyOne(m, a, es);
      ReplayIsFold(m, next, es[1..], Counted(report, outcome.value.applied));
      IndicesOfCons(es);
      FirstsCons(es, a.applied.Keys);
      var firsts := Firsts(es, a.applied.Keys);
      if outcome.value.applied {
        assert firsts == [es[0]] + Firsts(es[1..], next.applied.Keys);
        FeedFront(m, a.state, es[0], Firsts(es[1..], next.applied.Keys));
      } else {
        assert firsts == Firsts(es[1..], next.applied.Keys);
      }
    }
  }

  lemma {:induction false} ReplaySplits<S, P, R, N>(
      m: Machine<S, P, R, N>, a: Adapter<S, R>, xs: seq<Entry<P>>, ys: seq<Entry<P>>, report: Report)
    ensures var (b, r) := ReplayFrom(m, a, xs, report);
            r.Ok? ==> ReplayFrom(m, a, xs + ys, report) == ReplayFrom(m, b, ys, r.value.(lastApplied := report.lastApplied))
    decreases |xs|
  {
    if xs == [] {
      assert xs + ys == ys;
    } else {
      assert (xs + ys)[0] == xs[0] && (xs + ys)[1..] == xs[1..] + ys;
      var (next, outcome) := ApplyEntry(m, a, xs[0]);
      if outcome.Ok? {
        ReplaySplits(m, next, xs[1..], ys,
                     Counted(report, outcome.value.applied));
      }
    }
  }

  /** Equal up to the recorded responses. */
  ghost predicate SameData<S, R>(a: Adapter<S, R>, b: Adapter<S, R>) {
    a.state == b.state && a.applied == b.applied && a.lastApplied == b.lastApplied
  }

  lemma {:induction false} ReplayIgnoresResponses<S(!new), P(!new), R, N>(
      m: Machine<S, P, R, N>, a: Adapter<S, R>, b: Adapter<S, R>, es: seq<Entry<P>>, r1: Report, r2: Report)
    requires Infallible(m) && SameData(a, b)
    requires ReplayFrom(m, a, es, r1).1.Ok? && ReplayFrom(m, b, es, r2).1.Ok?
    ensures var x, y := ReplayFrom(m, a, es, r1).0, ReplayFrom(m, b, es, r2).0;
            SameData(x, y)
    decreases |es|
  {
    if es != [] {
      var (p, o1) := ApplyEntry(m, a, es[0]);
      var (q, o2) := ApplyEntry(m, b, es[0]);
      ReplayIgnoresResponses(m, p, q, es[1..],
        Counted(r1, o1.value.applied),
        Counted(r2, o2.value.applied));
    }
  }

  /** After a checkpoint was installed a replay succeeds exactly when it repeats no index
      of the checkpoint: a repeated one is refused, never applied again. */
  lemma {:induction false} TailReplayOk<S(!new), P(!new), R, N>(
      m: Machine<S, P, R, N>, a: Adapter<S, R>, es: seq<Entry<P>>, covered: set<LogIndex>, report: Report)
    requires Infallible(m) && Consistent(es) && covered <= a.applied.Keys
    requires a.responses.Keys == a.applied.Keys - covered
    requires forall e :: e in es && e.logId.index in a.responses ==> a.applied[e.logId.index] == e.logId.term
    ensures ReplayFrom(m, a, es, report).1.Ok? <==> forall e :: e in es ==> e.logId.index !in covered
    decreases |es|
  {
    if es != [] {
      var e, rest := es[0], es[1..];
      assert es == [e] + rest;
      var (next, outcome) := ApplyEntry(m, a, e);
      if e.logId.index in covered {
        assert e in es;
      } else {
        TailReplayOk(m, next, rest, covered,
                     Counted(report, outcome.value.applied));
        assert forall d :: d in es ==> d == e || d in rest;
      }
    }
  }

  lemma ReplayOfNew<S(!new), P(!new), R, N>(m: Machine<S, P, R, N>, init: S, es: seq<Entry<P>>)
    requires Infallible(m) && Consistent(es)
    ensures var (a, r) := Replay(m, New<S, R>(init), es);
            r.Ok? && a.state == Feed(m, init, Firsts(es, {})) && a.applied.Keys == IndicesOf(es)
  {
    var blank := New<S, R>(init);
    ReplayIsFold(m, blank, es, Report(0, 0, 0, 0));
    assert blank.applied.Keys == {};
    assert {} + IndicesOf(es) == IndicesOf(es);
  }

  lemma TailAfterRestore<S(!new), P(!new), R, N>(
      m: Machine<S, P, R, N>, a: Adapter<S, R>, head: seq<Entry<P>>, tail: seq<Entry<P>>)
    requires Infallible(m) && Consistent(tail) && a.applied.Keys == IndicesOf(head)
    ensures Replay(m, Restored(a), tail).1.Ok? <==>
            forall d, e :: d in head && e in tail ==> d.logId.index != e.logId.index
  {
    TailReplayOk(m, Restored(a), tail, a.applied.Keys, Report(0, 0, 0, a.lastApplied));
    assert (forall e :: e in tail ==> e.logId.index !in a.applied.Keys)
           <==> forall d, e :: d in head && e in tail ==> d.logId.index != e.logId.index;
  }

  lemma TailReachesFull<S(!new), P(!new), R, N>(
      m: Machine<S, P, R, N>, init: S, head: seq<Entry<P>>, tail: seq<Entry<P>>)
    requires Infallible(m) && Replay(m, New<S, R>(init), head).1.Ok?
    requires Replay(m, New<S, R>(init), head + tail).1.Ok?
    requires Replay(m, Restored(Replay(m, New<S, R>(init), head).0), tail).1.Ok?
    ensures SameData(Replay(m, Restored(Replay(m, New<S, R>(init), head).0), tail).0,
                     Replay(m, New<S, R>(init), head + tail).0)
  {
    var start := Report(0, 0, 0, 0);
    var (a, r) := ReplayFrom(m, New<S, R>(init), head, start);
    ReplaySplits(m, New<S, R>(init), head, tail, start);
    ReplayIgnoresResponses(m, Restored(a), a, tail, Report(0, 0, 0, a.lastApplied), r.value.(lastApplied := 0));
  }

  /** Main result: replaying a log up to some point, checkpointing, installing the
      checkpoint anywhere and replaying the rest ends in the same machine state and the
      same applied indices as one replay of the whole log; the second replay is accepted
      exactly when the rest repeats no index of the first part. */
  lemma CheckpointThenTailEqualsFullReplay<S(!new), P(!new), R, N>(
      m: Machine<S, P, R, N>, init: S, other: Adapter<S, R>, head: seq<Entry<P>>, tail: seq<Entry<P>>)
    requires Infallible(m) && SnapshotsRoundTrip(m) && Consistent(head + tail)
    requires TakeCheckpoint(m, Replay(m, New<S, R>(init), head).0).Ok?
    ensures var c := TakeCheckpoint(m, Replay(m, New<S, R>(init), head).0).value;
            var (b, r) := Replay(m, InstallCheckpoint(m, other, c).0, tail);
            var (full, ok) := Replay(m, New<S, R>(init), head + tail);
            && ok.Ok? && full.state == Feed(m, init, Firsts(head + tail, {}))
            && (r.Ok? <==> forall d, e :: d in head && e in tail ==> d.logId.index != e.logId.index)
            && (r.Ok? ==> SameData(b, full))
  {
    assert forall e :: e in head ==> e in head + tail;
    assert forall e :: e in tail ==> e in head + tail;
    var a := Replay(m, New<S, R>(init), head).0;
    ReplayOfNew<S, P, R, N>(m, init, head);
    ReplayOfNew<S, P, R, N>(m, init, head + tail);
    InstallRestores(m, a, other);
    TailAfterRestore(m, a, head, tail);
    if Replay(m, Restored(a), tail).1.Ok? {
      TailReachesFull<S, P, R, N>(m, init, head, tail);
    }
  }
}
