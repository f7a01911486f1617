/** The state machine adapter as an object that updates its maps in place. */
module Fsm {
  import opened Types
  import opened Ordering
  import Model = FsmModel

  class FsmAdapter<S, P, R, N> {
    const machine: Model.Machine<S, P, R, N>
    var state: S
    var applied: map<LogIndex, Term>
    var responses: map<LogIndex, Model.ApplyResponse<R>>
    var lastApplied: LogIndex

    function State(): Model.Adapter<S, R>
      reads this
    {
      Model.Adapter(state, applied, responses, lastApplied)
    }

    constructor (machine: Model.Machine<S, P, R, N>, state: S)
      ensures this.machine == machine && State() == Model.New(state)
    {
      this.machine := machine;
      this.state := state;
      applied, responses, lastApplied := map[], map[], 0;
    }

    method ApplyEntry(e: Model.Entry<P>) returns (r: Result<Model.Outcome<R>>)
      modifies this
      ensures (State(), r) == Model.ApplyEntry(machine, old(State()), e)
    {
      var i := e.logId.index;
      if i in applied {
        if applied[i] != e.logId.term {
          return Err(InvalidRequest);
        }
        if i !in responses {
          return Err(Storage);
        }
        return Ok(Model.Outcome(responses[i], false));
      }
      var (s, result) := machine.apply(state, e.logId, e.payload);
      state := s;
      if result.Err? {
        return Err(result.error);
      }
      var response := result.value;
      lastApplied := Max(lastApplied, response.appliedIndex);
      applied := applied[i := e.logId.term];
      responses := responses[i := response];
      return Ok(Model.Outcome(response, true));
    }

    method ReplayEntries(es: seq<Model.Entry<P>>) returns (r: Result<Model.Report>)
      modifies this
      ensures (State(), r) == Model.Replay(machine, old(State()), es)
    {
      var report := Model.Report(0, 0, 0, lastApplied);
      ghost var target := Model.Replay(machine, State(), es);
      for k := 0 to |es|
        invariant Model.ReplayFrom(machine, State(), es[k..], report) == target
      {
        assert es[k..][0] == es[k] && es[k..][1..] == es[k + 1..];
        var outcome := ApplyEntry(es[k]);
        if outcome.Err? {
          return Err(outcome.error);
        }
        report := Model.Counted(report, outcome.value.applied);
      }
      return Ok(report.(lastApplied := lastApplied));
    }

    method TakeCheckpoint() returns (r: Result<Model.Checkpoint<N>>)
      ensures r == Model.TakeCheckpoint(machine, State())
    {
      var snapshot := machine.snapshot(state);
      if snapshot.Err? {
        return Err(snapshot.error);
      }
      return Ok(Model.Checkpoint(lastApplied, Model.LogIdsOf(applied, SortedKeys(applied.Keys)), snapshot.value));
    }

    method InstallCheckpoint(c: Model.Checkpoint<N>) returns (r: Result<()>)
      modifies this
      ensures (State(), r) == Model.InstallCheckpoint(machine, old(State()), c)
    {
      var (s, result) := machine.install(state, c.snapshot);
      state := s;
      if result.Err? {
        return Err(result.error);
      }
      lastApplied := c.lastApplied;
      applied := Model.TermsOf(c.appliedLogIds);
      responses := map[];
      return Ok(());
    }
  }
}
