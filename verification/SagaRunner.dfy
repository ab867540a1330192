/** The saga runner as the source writes it: an object whose methods update its fields and the saga.state
    row (libs/saga/saga.go:376-583), proved to compute the session functions of module Saga. */
module SagaRunner {
  import opened Common
  import opened Saga

  class Runner {
    var row: Row
    var broken: bool
    const base: nat
    var status: Status
    var completed: seq<StepName>
    var outputs: map<StepName, Json>
    var compensations: seq<StepName>
    var events: seq<Event>

    ghost function View(): Session
      reads this
    {
      Session(row, broken, base, status, completed, outputs, compensations, events)
    }

    /** A runner over a row that Start accepted. */
    constructor (db: Option<Row>)
      requires Started(db).Some?
      ensures View() == Started(db).value
    {
      var r := if db.Some? then db.value else FRESH_ROW;
      row, broken, base, status := r, false, |r.completed|, Running;
      completed, outputs, compensations, events := r.completed, r.outputs, [], [];
    }

    /** One statement of the transaction. */
    method Statement(works: bool) returns (ok: bool)
      modifies this`broken
      ensures ok == (works && !old(broken)) && broken == (old(broken) || !works)
    {
      ok := works && !broken;
      broken := !ok;
    }

    method Emit(kind: EventKind, step: StepName, works: bool) returns (ok: bool)
      modifies this`broken, this`events
      ensures ok == CanEmit(old(View()), works)
      ensures View() == if ok then Emitted(old(View()), kind, step) else Break(old(View()))
    {
      ok := Statement(works);
      if ok {
        events := events + [Event(kind, step)];
      }
    }

    method SetStatus(next: Status, works: bool) returns (ok: bool)
      modifies this`broken, this`row, this`status
      ensures ok == (works && !old(broken))
      ensures View() == if ok then WithStatus(old(View()), next) else Break(old(View()))
    {
      ok := Statement(works);
      if ok {
        row := row.(status := next);
        status := next;
      }
    }

    /** runCompensations: the loop over the chain from its end equals the recursive unwinding. */
    method RunCompensations(w: World) returns (ranAny: bool, ok: bool)
      modifies this`broken, this`events, this`compensations
      ensures var u := CompensateAll(old(View()), w);
        View() == u.session && ok == u.ok && (ok ==> ranAny == u.ran && broken == old(broken))
    {
      ranAny := false;
      var chain := compensations;
      compensations := [];
      ghost var target := Unwind(View(), chain, w);
      var i := |chain| - 1;
      assert chain[..i + 1] == chain;
      while i >= 0
        invariant -1 <= i < |chain| && broken == old(broken)
        invariant View().(broken := old(broken), events := old(events)) == old(View()).(compensations := [])
        invariant var rest := Unwind(View(), chain[..i + 1], w);
          target.session == rest.session && target.ok == rest.ok && target.ran == (ranAny || rest.ran)
      {
        var step := chain[i];
        assert chain[..i + 1][..i] == chain[..i];
        if !w.undoes(step) {
          i := i - 1;
          continue;
        }
        var sent := Emit(StepCompensated, step, w.emitsUndo(step));
        if !sent {
          return ranAny, false;
        }
        ranAny := true;
        i := i - 1;
      }
      return ranAny, true;
    }

    /** ExecuteStep: a fresh answer is the body's output, and it is what the runner and the row keep for replays. */
    method Execute(step: StepName, outcome: Outcome, w: World) returns (reply: Reply)
      modifies this
      ensures (View(), reply) == ExecuteStep(old(View()), step, outcome, w)
      ensures reply.Output? ==>
        && outcome == Succeeded(reply.json) && completed == old(completed) + [step]
        && outputs == old(outputs)[step := reply.json] && row.outputs == old(row).outputs[step := reply.json]
        && compensations == old(compensations) + [step]
      ensures reply.Replayed? ==> step in old(outputs) && reply.json == old(outputs)[step] && View() == old(View())
    {
      hide Unwind;
      if status != Running {
        return Terminal;
      }
      if step in completed {
        if step !in outputs {
          return NoCachedOutput;
        }
        if !w.decodes {
          return SerializeError;
        }
        return Replayed(outputs[step]);
      }
      var ok := Statement(w.marks);
      if !ok {
        return DbError;
      }
      if outcome.Errored? {
        ok := Emit(StepFailed, step, w.emits);
        if !ok {
          return DbError;
        }
        var ranAny;
        ranAny, ok := RunCompensations(w);
        if !ok {
          return DbError;
        }
        ok := SetStatus(if ranAny then Compensated else Failed, w.setsStatus);
        return if ok then StepError else DbError;
      }
      if outcome.Unencodable? {
        return SerializeError;
      }
      ok := Emit(StepCompleted, step, w.emits);
      if !ok {
        return DbError;
      }
      ok := Statement(w.updates);
      if !ok {
        return DbError;
      }
      row := row.(completed := row.completed + [step], outputs := row.outputs[step := outcome.output]);
      completed := completed + [step];
      outputs := outputs[step := outcome.output];
      compensations := compensations + [step];
      return Output(outcome.output);
    }

    /** Finish */
    method FinishRun(w: World) returns (reply: Reply)
      modifies this
      ensures (View(), reply) == FinishSaga(old(View()), w)
    {
      if status != Running {
        return Terminal;
      }
      var ok := Emit(SagaCompleted, "", w.emits);
      if !ok {
        return DbError;
      }
      ok := SetStatus(Completed, w.setsStatus);
      return if ok then Finished else DbError;
    }

    /** Abort */
    method AbortRun(w: World) returns (reply: Reply)
      modifies this
      ensures (View(), reply) == AbortSaga(old(View()), w)
    {
      hide Unwind;
      if status != Running {
        return Terminal;
      }
      var ranAny, ok := RunCompensations(w);
      if !ok {
        return DbError;
      }
      ok := Emit(SagaAborted, "", w.emits);
      if !ok {
        return DbError;
      }
      ok := SetStatus(Aborted, w.setsStatus);
      return if ok then SagaIsAborted else DbError;
    }

    /** Any sequence of calls on the object is a run of the session. */
    method Drive(calls: seq<Call>)
      modifies this
      ensures View() == Run(old(View()), calls)
    {
      ghost var start := View();
      assert calls[0..] == calls;
      for i := 0 to |calls|
        invariant Run(start, calls) == Run(View(), calls[i..])
      {
        assert calls[i..][0] == calls[i] && calls[i..][1..] == calls[i + 1..];
        var reply;
        match calls[i] {
          case Execute(step, outcome, w) => reply := Execute(step, outcome, w);
          case Finish(w) => reply := FinishRun(w);
          case Abort(w) => reply := AbortRun(w);
        }
      }
      assert calls[|calls|..] == [];
    }
  }
}
