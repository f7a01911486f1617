/** The state machine adapter: every log index reaches the machine successfully at most
    once, through replays and checkpoints. */
module FsmModel {
  import opened Types
  import opened Ordering

  datatype Entry<P> = Entry(logId: LogId, payload: P)

  datatype ApplyResponse<R> = ApplyResponse(appliedIndex: LogIndex, response: R)

  /** What the embedded state machine does; a failed call may still change its state. */
  datatype Machine<!S, !P, R, !N> = Machine(
    apply: (S, LogId, P) -> (S, Result<ApplyResponse<R>>),
    snapshot: S -> Result<N>,
    install: (S, N) -> (S, Result<()>))

  datatype Adapter<S, R> = Adapter(
    state: S, applied: map<LogIndex, Term>, responses: map<LogIndex, ApplyResponse<R>>, lastApplied: LogIndex)

  datatype Outcome<R> = Outcome(response: ApplyResponse<R>, applied: bool)

  datatype Report = Report(attempted: nat, applied: nat, skipped: nat, lastApplied: LogIndex)

  datatype Checkpoint<N> = Checkpoint(lastApplied: LogIndex, appliedLogIds: seq<LogId>, snapshot: N)

  function New<S, R>(state: S): Adapter<S, R> {
    Adapter(state, map[], map[], 0)
  }

  function ApplyEntry<S, P, R, N>(m: Machine<S, P, R, N>, a: Adapter<S, R>, e: Entry<P>): (Adapter<S, R>, Result<Outcome<R>>) {
    var i := e.logId.index;
    if i in a.applied then
      if a.applied[i] != e.logId.term then (a, Err(InvalidRequest))
      else if i !in a.responses then (a, Err(Storage))
      else (a, Ok(Outcome(a.responses[i], false)))
    else
      var (s, r) := m.apply(a.state, e.logId, e.payload);
      match r
      case Err(error) => (a.(state := s), Err(error))
      case Ok(response) =>
        (Adapter(s, a.applied[i := e.logId.term], a.responses[i := response], Max(a.lastApplied, response.appliedIndex)),
         Ok(Outcome(response, true)))
  }

  function Counted(report: Report, applied: bool): Report {
    Report(report.attempted + 1,
           report.applied + if applied then 1 else 0,
           report.skipped + if applied then 0 else 1,
           report.lastApplied)
  }

  function ReplayFrom<S, P, R, N>(m: Machine<S, P, R, N>, a: Adapter<S, R>, es: seq<Entry<P>>, report: Report)
    : (Adapter<S, R>, Result<Report>)
    decreases |es|
  {
    if es == [] then (a, Ok(report.(lastApplied := a.lastApplied)))
    else
      var (next, r) := ApplyEntry(m, a, es[0]);
      match r
      case Err(error) => (next, Err(error))
      case Ok(outcome) =>
        ReplayFrom(m, next, es[1..], Counted(report, outcome.applied))
  }

  function Replay<S, P, R, N>(m: Machine<S, P, R, N>, a: Adapter<S, R>, es: seq<Entry<P>>): (Adapter<S, R>, Result<Report>) {
    ReplayFrom(m, a, es, Report(0, 0, 0, a.lastApplied))
  }

  function LogIdsOf(applied: map<LogIndex, Term>, keys: seq<LogIndex>): seq<LogId>
    requires forall k :: k in keys ==> k in applied
  {
    seq(|keys|, i requires 0 <= i < |keys| => LogId(applied[keys[i]], keys[i]))
  }

  function TakeCheckpoint<S, P, R, N>(m: Machine<S, P, R, N>, a: Adapter<S, R>): Result<Checkpoint<N>> {
    match m.snapshot(a.state)
    case Err(error) => Err(error)
    case Ok(snapshot) => Ok(Checkpoint(a.lastApplied, LogIdsOf(a.applied, SortedKeys(a.applied.Keys)), snapshot))
  }

  function TermsOf(ids: seq<LogId>): map<LogIndex, Term> {
    if ids == [] then map[]
    else TermsOf(ids[..|ids| - 1])[ids[|ids| - 1].index := ids[|ids| - 1].term]
  }

  function InstallCheckpoint<S, P, R, N>(m: Machine<S, P, R, N>, a: Adapter<S, R>, c: Checkpoint<N>): (Adapter<S, R>, Result<()>) {
    var (s, r) := m.install(a.state, c.snapshot);
    match r
    case Err(error) => (a.(state := s), Err(error))
    case Ok(_) => (Adapter(s, TermsOf(c.appliedLogIds), map[], c.lastApplied), Ok(()))
  }
}
