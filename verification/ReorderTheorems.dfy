/** The reorder buffer against an independent reference: the cursor of the pipeline is
    the end of the longest gap-free prefix of what was accepted and not expired. */
module ReorderTheorems {
  import opened Types
  import opened PipelineModel

  datatype Event = Arrive(entry: LogEntry) | Expire

  function Step(p: Pipeline, ev: Event): (Pipeline, bool) {
    match ev
    case Arrive(e) => ReceiveOutOfOrder(p, e)
    case Expire => (ExpireReorder(p).0, true)
  }

  function Run(p: Pipeline, events: seq<Event>): Pipeline
    decreases |events|
  {
    if events == [] then p else Run(Step(p, events[0]).0, events[1..])
  }

  /** Every index from start up to m is in live, and m + 1 is not. */
  ghost predicate IsPrefixEnd(start: LogIndex, live: set<LogIndex>, m: LogIndex) {
    && start <= m + 1
    && (forall i :: start <= i <= m ==> i in live)
    && m + 1 !in live
  }

  lemma PrefixEndUnique(start: LogIndex, live: set<LogIndex>, a: LogIndex, b: LogIndex)
    requires IsPrefixEnd(start, live, a) && IsPrefixEnd(start, live, b)
    ensures a == b
  {
  }

  /** What an expiry leaves: the indices with no gap below them. */
  ghost function Unbroken(start: LogIndex, live: set<LogIndex>): set<LogIndex> {
    set i | i in live && forall j :: start <= j <= i ==> j in live
  }

  /** The accepted and not expired indices after a run. */
  ghost function Live(start: LogIndex, p: Pipeline, live: set<LogIndex>, events: seq<Event>): set<LogIndex>
    decreases |events|
  {
    if events == [] then live
    else
      var (q, ok) := Step(p, events[0]);
      var now := match events[0]
        case Arrive(e) => if ok then live + {e.logId.index} else live
        case Expire => Unbroken(start, live);
      Live(start, q, now, events[1..])
  }

  /** The buffer holds the live indices beyond the cursor; below it everything is live. */
  ghost predicate Filling(start: LogIndex, p: Pipeline, live: set<LogIndex>) {
    && (forall i :: i in live ==> start <= i)
    && (forall i :: i in p.reorder ==> p.reorder[i].logId.index == i)
    && p.status.nextIndex == p.status.matchIndex + 1 >= start
    && (forall i :: start <= i <= p.status.matchIndex ==> i in live)
    && (forall i :: i in p.reorder <==> i in live && i > p.status.matchIndex)
    && |p.reorder| <= p.limits.reorderWindow
    && (!p.limits.enableReorder ==> |p.reorder| == 0)
  }

  /** The pipeline agrees with the set of live indices. */
  ghost predicate Tracks(start: LogIndex, p: Pipeline, live: set<LogIndex>) {
    Filling(start, p, live) && p.status.nextIndex !in live
  }

  lemma DeliverFills(start: LogIndex, p: Pipeline, live: set<LogIndex>)
    requires Filling(start, p, live) && p.status.nextIndex in p.reorder
    ensures Filling(start, Deliver(p), live)
  {
  }

  /** Draining a buffer whose keys are the live indices beyond the cursor moves the
      cursor to the end of the prefix. */
  lemma {:induction false} DrainReachesPrefixEnd(start: LogIndex, p: Pipeline, live: set<LogIndex>)
    requires Filling(start, p, live)
    ensures Tracks(start, Drain(p), live) && Drain(p).limits == p.limits
    decreases |p.reorder|
  {
    if p.status.nextIndex in p.reorder {
      DeliverFills(start, p, live);
      DrainReachesPrefixEnd(start, Deliver(p), live);
    }
  }

  /** Why an arrival may be turned away. */
  ghost predicate Refusable(start: LogIndex, p: Pipeline, live: set<LogIndex>, i: LogIndex) {
    i < start || i in live || !p.limits.enableReorder || |p.reorder| == p.limits.reorderWindow
  }

  lemma DeliverTracks(start: LogIndex, p: Pipeline, live: set<LogIndex>)
    requires Tracks(start, p, live)
    ensures var i := p.status.nextIndex;
            var q := p.(status := p.status.(matchIndex := i, nextIndex := i + 1));
            Tracks(start, Drain(q), live + {i}) && Drain(q).limits == p.limits
  {
    var i := p.status.nextIndex;
    DrainReachesPrefixEnd(start, p.(status := p.status.(matchIndex := i, nextIndex := i + 1)), live + {i});
  }

  lemma BufferTracks(start: LogIndex, p: Pipeline, live: set<LogIndex>, e: LogEntry)
    requires Tracks(start, p, live)
    requires e.logId.index > p.status.nextIndex && p.limits.enableReorder && |p.reorder| < p.limits.reorderWindow
    ensures Tracks(start, p.(reorder := p.reorder[e.logId.index := e]), live + {e.logId.index})
  {
  }

  lemma ArriveTracks(start: LogIndex, p: Pipeline, live: set<LogIndex>, e: LogEntry)
    requires Tracks(start, p, live)
    ensures var (q, ok) := ReceiveOutOfOrder(p, e);
            && Tracks(start, q, if ok then live + {e.logId.index} else live)
            && q.limits == p.limits
            && (ok ==> start <= e.logId.index)
            && (!ok ==> Refusable(start, p, live, e.logId.index))
  {
    var i := e.logId.index;
    if i == p.status.nextIndex {
      DeliverTracks(start, p, live);
    } else if i > p.status.nextIndex && p.limits.enableReorder && |p.reorder| < p.limits.reorderWindow {
      BufferTracks(start, p, live, e);
    }
  }

  lemma ExpireTracks(start: LogIndex, p: Pipeline, live: set<LogIndex>)
    requires Tracks(start, p, live)
    ensures Tracks(start, ExpireReorder(p).0, Unbroken(start, live))
  {
  }

  lemma {:induction false} RunTracks(start: LogIndex, p: Pipeline, live: set<LogIndex>, events: seq<Event>)
    requires Tracks(start, p, live)
    ensures Tracks(start, Run(p, events), Live(start, p, live, events))
    decreases |events|
  {
    if events != [] {
      var (q, ok) := Step(p, events[0]);
      match events[0]
      case Arrive(e) =>
        ArriveTracks(start, p, live, e);
        RunTracks(start, q, if ok then live + {e.logId.index} else live, events[1..]);
      case Expire =>
        ExpireTracks(start, p, live);
        RunTracks(start, q, Unbroken(start, live), events[1..]);
    }
  }

  /** Main result: after any arrivals and expiries at a new pipeline, the cursor is the
      end of the longest prefix of the live indices, and the buffer holds exactly the
      other live indices, all beyond the next index and never more than the window. */
  lemma ReorderComputesLongestPrefix(start: LogIndex, limits: Limits, events: seq<Event>)
    requires start >= 1
    ensures var p := Run(New(start, limits), events);
            var live := Live(start, New(start, limits), {}, events);
            && IsPrefixEnd(start, live, p.status.matchIndex)
            && p.status.nextIndex == p.status.matchIndex + 1
            && p.reorder.Keys == (set i | i in live && i > p.status.matchIndex)
            && (forall i :: i in p.reorder ==> i > p.status.nextIndex)
            && |p.reorder| <= limits.reorderWindow
  {
    hide Run, Live;
    assert Tracks(start, New(start, limits), {});
    RunTracks(start, New(start, limits), {}, events);
    RunKeepsLimits(New(start, limits), events);
    var p := Run(New(start, limits), events);
    assert p.reorder.Keys == (set i | i in Live(start, New(start, limits), {}, events) && i > p.status.matchIndex);
  }

  lemma {:induction false} RunKeepsLimits(p: Pipeline, events: seq<Event>)
    ensures Run(p, events).limits == p.limits
    decreases |events|
  {
    if events != [] {
      match events[0] {
        case Arrive(e) =>
          DrainKeepsLimits(p.(status := p.status.(matchIndex := e.logId.index, nextIndex := e.logId.index + 1)));
        case Expire =>
      }
      RunKeepsLimits(Step(p, events[0]).0, events[1..]);
    }
  }

  lemma {:induction false} DrainKeepsLimits(p: Pipeline)
    ensures DrainLoop(p).limits == p.limits
    decreases |p.reorder|
  {
    if p.status.nextIndex in p.reorder {
      DrainKeepsLimits(Deliver(p));
    }
  }

  // ----- Arrival order does not matter -----

  function Arrivals(es: seq<LogEntry>): seq<Event> {
    seq(|es|, i requires 0 <= i < |es| => Arrive(es[i]))
  }

  function IndicesFrom(start: LogIndex, es: seq<LogEntry>): set<LogIndex> {
    set e | e in es && e.logId.index >= start :: e.logId.index
  }

  /** A live set within the window leaves room for one more index. */
  lemma RoomForNew(start: LogIndex, p: Pipeline, live: set<LogIndex>, i: LogIndex)
    requires Tracks(start, p, live) && i !in live && |live + {i}| <= p.limits.reorderWindow
    ensures |p.reorder| < p.limits.reorderWindow
  {
    assert i !in p.reorder.Keys;
    assert |p.reorder.Keys + {i}| == |p.reorder.Keys| + 1;
    SubsetSize(p.reorder.Keys + {i}, live + {i});
    assert |p.reorder.Keys| == |p.reorder|;
  }

  lemma IndicesSplit(start: LogIndex, es: seq<LogEntry>)
    requires es != []
    ensures IndicesFrom(start, es)
            == IndicesFrom(start, es[1..]) + if es[0].logId.index >= start then {es[0].logId.index} else {}
  {
  }

  lemma LiveUnfolds(start: LogIndex, p: Pipeline, live: set<LogIndex>, es: seq<LogEntry>)
    requires es != []
    ensures var (q, ok) := ReceiveOutOfOrder(p, es[0]);
            Live(start, p, live, Arrivals(es))
            == Live(start, q, if ok then live + {es[0].logId.index} else live, Arrivals(es[1..]))
  {
    assert Arrivals(es)[0] == Arrive(es[0]);
    assert Arrivals(es)[1..] == Arrivals(es[1..]);
  }

  /** The live indices after one arrival that the window has room for. */
  function Admit(start: LogIndex, live: set<LogIndex>, i: LogIndex): set<LogIndex> {
    if i >= start then live + {i} else live
  }

  lemma ArrivalAdmits(start: LogIndex, p: Pipeline, live: set<LogIndex>, e: LogEntry)
    requires Tracks(start, p, live) && p.limits.enableReorder
    requires |Admit(start, live, e.logId.index)| <= p.limits.reorderWindow
    ensures var (q, ok) := ReceiveOutOfOrder(p, e);
            && Tracks(start, q, Admit(start, live, e.logId.index)) && q.limits == p.limits
            && (if ok then live + {e.logId.index} else live) == Admit(start, live, e.logId.index)
  {
    var i := e.logId.index;
    ArriveTracks(start, p, live, e);
    if i >= start && i !in live {
      RoomForNew(start, p, live, i);
    }
    var (q, ok) := ReceiveOutOfOrder(p, e);
    assert (if ok then live + {i} else live) == Admit(start, live, i);
  }

  lemma AdmitFirst(start: LogIndex, p: Pipeline, live: set<LogIndex>, es: seq<LogEntry>)
    requires Tracks(start, p, live) && p.limits.enableReorder && es != []
    requires |live + IndicesFrom(start, es)| <= p.limits.reorderWindow
    ensures var now := Admit(start, live, es[0].logId.index);
            var q := ReceiveOutOfOrder(p, es[0]).0;
            && now + IndicesFrom(start, es[1..]) == live + IndicesFrom(start, es)
            && Tracks(start, q, now) && q.limits == p.limits
            && Live(start, p, live, Arrivals(es)) == Live(start, q, now, Arrivals(es[1..]))
  {
    hide Tracks, ReceiveOutOfOrder, Live;
    var now := Admit(start, live, es[0].logId.index);
    IndicesSplit(start, es);
    assert now + IndicesFrom(start, es[1..]) == live + IndicesFrom(start, es);
    SubsetSize(now, live + IndicesFrom(start, es));
    ArrivalAdmits(start, p, live, es[0]);
    LiveUnfolds(start, p, live, es);
  }

  lemma {:induction false} LiveIsEveryArrival(start: LogIndex, p: Pipeline, live: set<LogIndex>, es: seq<LogEntry>)
    requires Tracks(start, p, live) && p.limits.enableReorder
    requires |live + IndicesFrom(start, es)| <= p.limits.reorderWindow
    ensures Live(start, p, live, Arrivals(es)) == live + IndicesFrom(start, es)
    decreases |es|
  {
    if es == [] {
      assert live + IndicesFrom(start, es) == live;
    } else {
      hide Tracks, ReceiveOutOfOrder, Live, IndicesFrom;
      AdmitFirst(start, p, live, es);
      LiveIsEveryArrival(start, ReceiveOutOfOrder(p, es[0]).0, Admit(start, live, es[0].logId.index), es[1..]);
    }
  }

  /** Two deliveries of the same indices, in any order and with any repetition, leave the
      cursor at the same place when the window can hold them. */
  lemma ArrivalOrderIrrelevant(start: LogIndex, limits: Limits, a: seq<LogEntry>, b: seq<LogEntry>)
    requires start >= 1 && limits.enableReorder
    requires IndicesFrom(start, a) == IndicesFrom(start, b)
    requires |IndicesFrom(start, a)| <= limits.reorderWindow
    ensures Run(New(start, limits), Arrivals(a)).status.matchIndex == Run(New(start, limits), Arrivals(b)).status.matchIndex
    ensures IsPrefixEnd(start, IndicesFrom(start, a), Run(New(start, limits), Arrivals(a)).status.matchIndex)
  {
    var p := New(start, limits);
    assert Tracks(start, p, {});
    assert {} + IndicesFrom(start, a) == IndicesFrom(start, a);
    LiveIsEveryArrival(start, p, {}, a);
    LiveIsEveryArrival(start, p, {}, b);
    ReorderComputesLongestPrefix(start, limits, Arrivals(a));
    ReorderComputesLongestPrefix(start, limits, Arrivals(b));
    PrefixEndUnique(start, IndicesFrom(start, a),
                    Run(p, Arrivals(a)).status.matchIndex, Run(p, Arrivals(b)).status.matchIndex);
  }
}
