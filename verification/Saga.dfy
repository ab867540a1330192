/**
 The saga runner (libs/saga/saga.go) inside one database transaction.

 Every statement may fail.  As in PostgreSQL a failed statement breaks the transaction: later
 statements fail too and the transaction can only be rolled back.
 */
module Saga {
  import opened Common

  type StepName = string
  type Json = string

  datatype Status = Running | Completed | Failed | Compensated | Aborted

  datatype EventKind = StepCompleted | StepFailed | StepCompensated | SagaCompleted | SagaAborted

  /** An outbox event; its id is derived from the saga, the step and the kind (see EventIds). */
  datatype Event = Event(kind: EventKind, step: StepName)

  /** The saga.state row. */
  datatype Row = Row(status: Status, completed: seq<StepName>, outputs: map<StepName, Json>)

  const FRESH_ROW := Row(Running, [], map[])

  /** One runner and its transaction.  `row` is the row as the transaction sees it, `base` the number of
      steps that were already complete at the start. */
  datatype Session = Session(
    row: Row, broken: bool, base: nat,
    status: Status, completed: seq<StepName>, outputs: map<StepName, Json>,
    compensations: seq<StepName>, events: seq<Event>)

  /** What a step's Execute returned. */
  datatype Outcome = Succeeded(output: Json) | Unencodable | Errored

  /** Which statements and compensations of one call work. */
  datatype World = World(
    marks: bool, emits: bool, updates: bool, setsStatus: bool, decodes: bool,
    undoes: StepName -> bool, emitsUndo: StepName -> bool)

  datatype Reply =
    | Output(json: Json) | Replayed(json: Json)
    | StepError | NoCachedOutput | Terminal | DbError | SerializeError
    | Finished | SagaIsAborted

  datatype Call =
    | Execute(step: StepName, outcome: Outcome, world: World)
    | Finish(world: World)
    | Abort(world: World)

  // ---------------------------------------------------------------------------------------------
  // The operations as functions of the session
  // ---------------------------------------------------------------------------------------------

  /** Start: the row is inserted if missing; a terminal row is refused. */
  function Started(db: Option<Row>): Option<Session> {
    var row := if db.Some? then db.value else FRESH_ROW;
    if row.status != Running then None
    else Some(Session(row, false, |row.completed|, Running, row.completed, row.outputs, [], []))
  }

  function Break(s: Session): Session {
    s.(broken := true)
  }

  predicate CanEmit(s: Session, works: bool) {
    works && !s.broken
  }

  function Emitted(s: Session, kind: EventKind, step: StepName): Session {
    s.(events := s.events + [Event(kind, step)])
  }

  function WithStatus(s: Session, status: Status): Session {
    s.(status := status, row := s.row.(status := status))
  }

  datatype Unwound = Unwound(session: Session, ran: bool, ok: bool)

  /** runCompensations: last registered first; a failing compensation is skipped, a failing emit stops. */
  function Unwind(s: Session, chain: seq<StepName>, w: World): Unwound
    decreases |chain|
  {
    if chain == [] then Unwound(s, false, true) else
    var n := |chain| - 1;
    var step := chain[n];
    if !w.undoes(step) then Unwind(s, chain[..n], w)
    else if !CanEmit(s, w.emitsUndo(step)) then Unwound(Break(s), false, false)
    else
      var rest := Unwind(Emitted(s, StepCompensated, step), chain[..n], w);
      Unwound(rest.session, true, rest.ok)
  }

  function CompensateAll(s: Session, w: World): Unwound {
    Unwind(s.(compensations := []), s.compensations, w)
  }

  function ExecuteStep(s: Session, step: StepName, outcome: Outcome, w: World): (Session, Reply) {
    if s.status != Running then (s, Terminal)
    else if step in s.completed then
      if step !in s.outputs then (s, NoCachedOutput)
      else if !w.decodes then (s, SerializeError)
      else (s, Replayed(s.outputs[step]))
    else if s.broken || !w.marks then (Break(s), DbError)
    else match outcome
      case Unencodable => (s, SerializeError)
      case Succeeded(output) =>
        if !w.emits then (Break(s), DbError) else
        var emitted := Emitted(s, StepCompleted, step);
        if !w.updates then (Break(emitted), DbError) else
        (Recorded(emitted, step, output), Output(output))
      case Errored =>
        if !w.emits then (Break(s), DbError) else
        var undone := CompensateAll(Emitted(s, StepFailed, step), w);
        if !undone.ok then (undone.session, DbError)
        else if !w.setsStatus then (Break(undone.session), DbError)
        else (WithStatus(undone.session, if undone.ran then Compensated else Failed), StepError)
  }

  /** The row and the runner both learn about a completed step. */
  function Recorded(s: Session, step: StepName, output: Json): Session {
    s.(row := s.row.(completed := s.row.completed + [step], outputs := s.row.outputs[step := output]),
       completed := s.completed + [step],
       outputs := s.outputs[step := output],
       compensations := s.compensations + [step])
  }

  function FinishSaga(s: Session, w: World): (Session, Reply) {
    if s.status != Running then (s, Terminal)
    else if !CanEmit(s, w.emits) then (Break(s), DbError)
    else
      var emitted := Emitted(s, SagaCompleted, "");
      if !w.setsStatus then (Break(emitted), DbError) else (WithStatus(emitted, Completed), Finished)
  }

  function AbortSaga(s: Session, w: World): (Session, Reply) {
    if s.status != Running then (s, Terminal) else
    var undone := CompensateAll(s, w);
    if !undone.ok then (undone.session, DbError)
    else if !CanEmit(undone.session, w.emits) then (Break(undone.session), DbError)
    else
      var emitted := Emitted(undone.session, SagaAborted, "");
      if !w.setsStatus then (Break(emitted), DbError) else (WithStatus(emitted, Aborted), SagaIsAborted)
  }

  function Step(s: Session, c: Call): Session {
    match c
    case Execute(step, outcome, w) => ExecuteStep(s, step, outcome, w).0
    case Finish(w) => FinishSaga(s, w).0
    case Abort(w) => AbortSaga(s, w).0
  }

  function Run(s: Session, calls: seq<Call>): Session
    decreases |calls|
  {
    if calls == [] then s else Run(Step(s, calls[0]), calls[1..])
  }

  // ---------------------------------------------------------------------------------------------
  // Traces
  // ---------------------------------------------------------------------------------------------

  function Events(kind: EventKind, steps: seq<StepName>): (es: seq<Event>)
    ensures |es| == |steps| && forall i :: 0 <= i < |es| ==> es[i] == Event(kind, steps[i])
  {
    if steps == [] then [] else Events(kind, steps[..|steps| - 1]) + [Event(kind, steps[|steps| - 1])]
  }

  /** The steps whose compensation works, in the order they are compensated. */
  function Undone(chain: seq<StepName>, w: World): seq<StepName> {
    if chain == [] then [] else
    var n := |chain| - 1;
    (if w.undoes(chain[n]) then [chain[n]] else []) + Undone(chain[..n], w)
  }

  /** The order of a is that of b, with entries left out. */
  predicate Subsequence(a: seq<StepName>, b: seq<StepName>)
    decreases |b|
  {
    if a == [] then true
    else if b == [] then false
    else (a[0] == b[0] && Subsequence(a[1..], b[1..])) || Subsequence(a, b[1..])
  }

  function Reversed(s: seq<StepName>): seq<StepName> {
    if s == [] then [] else [s[|s| - 1]] + Reversed(s[..|s| - 1])
  }

  /** The forms a trace can take: `done` completed steps, then how the saga ended. */
  datatype Ending =
    | Open
    | AllDone
    | StepFails(failed: StepName, undone: seq<StepName>)
    | Undoing(undone: seq<StepName>)
    | GivenUp(undone: seq<StepName>)

  function Trace(done: seq<StepName>, e: Ending): seq<Event> {
    Events(StepCompleted, done) +
    match e
    case Open => []
    case AllDone => [Event(SagaCompleted, "")]
    case StepFails(failed, undone) => [Event(StepFailed, failed)] + Events(StepCompensated, undone)
    case Undoing(undone) => Events(StepCompensated, undone)
    case GivenUp(undone) => Events(StepCompensated, undone) + [Event(SagaAborted, "")]
  }

  function UndoneOf(e: Ending): seq<StepName> {
    match e
    case Open => []
    case AllDone => []
    case StepFails(_, undone) => undone
    case Undoing(undone) => undone
    case GivenUp(undone) => undone
  }

  ghost predicate NoRepeats(s: seq<StepName>) {
    forall i, j :: 0 <= i < j < |s| ==> s[i] != s[j]
  }

  /** The session emitted `done` completions and ended as e. */
  ghost predicate Emits(s: Session, done: seq<StepName>, e: Ending) {
    && s.base <= |s.completed| && NoRepeats(s.completed[..s.base] + done)
    && s.events == Trace(done, e)
    && Subsequence(UndoneOf(e), Reversed(done))
    && (e.StepFails? ==> e.failed !in s.completed)
    && done[..Min(|done|, |s.completed| - s.base)] == s.completed[s.base..]
  }

  /** How the ending and the status go together; only a broken transaction may stop halfway. */
  predicate EndsAs(status: Status, broken: bool, e: Ending) {
    match e
    case Open => status == Running
    case AllDone => status == Completed || (broken && status == Running)
    case StepFails(_, undone) =>
      (status == (if undone == [] then Failed else Compensated)) || (broken && status == Running)
    case Undoing(_) => broken && status == Running
    case GivenUp(_) => status == Aborted || (broken && status == Running)
  }

  /** What every call keeps. */
  ghost predicate Inv(s: Session, done: seq<StepName>, e: Ending) {
    && Emits(s, done, e) && EndsAs(s.status, s.broken, e)
    && (s.status == Running && !s.broken ==> e == Open && done == s.completed[s.base..] && s.compensations == done)
    && (!s.broken ==> s.row == Row(s.status, s.completed, s.outputs) && done == s.completed[s.base..])
    && NoRepeats(s.completed) && (forall x :: x in s.completed <==> x in s.outputs)
  }

  // ---------------------------------------------------------------------------------------------
  // Compensation
  // ---------------------------------------------------------------------------------------------

  /** Compensating a chain emits one event per successful compensation, last registered first; it stops
      early only by breaking the transaction. */
  lemma {:induction false} UnwindEmits(s: Session, chain: seq<StepName>, w: World) returns (k: nat)
    ensures var u := Unwind(s, chain, w); var all := Undone(chain, w);
      && k <= |all| && (u.ok ==> k == |all|)
      && u.session == s.(events := s.events + Events(StepCompensated, all[..k]), broken := s.broken || !u.ok)
      && (u.ok ==> (u.ran <==> all != []))
      && (s.broken ==> k == 0)
    decreases |chain|
  {
    var all := Undone(chain, w);
    if chain == [] {
      k := 0;
      assert s.events + [] == s.events;
    } else {
      var n := |chain| - 1;
      var step := chain[n];
      var rest := Undone(chain[..n], w);
      if !w.undoes(step) {
        k := UnwindEmits(s, chain[..n], w);
        assert all == rest;
      } else if !CanEmit(s, w.emitsUndo(step)) {
        k := 0;
        assert s.events + [] == s.events;
      } else {
        var s' := Emitted(s, StepCompensated, step);
        var m := UnwindEmits(s', chain[..n], w);
        k := m + 1;
        assert all == [step] + rest && all[..k] == [step] + rest[..m];
        assert Events(StepCompensated, all[..k]) == [Event(StepCompensated, step)] + Events(StepCompensated, rest[..m]);
        assert s'.events + Events(StepCompensated, rest[..m]) == s.events + Events(StepCompensated, all[..k]);
      }
    }
  }

  /** The compensated steps follow the reverse of the registration order. */
  lemma {:induction false} UndoneIsReversed(chain: seq<StepName>, w: World, k: nat)
    requires k <= |Undone(chain, w)|
    ensures Subsequence(Undone(chain, w)[..k], Reversed(chain))
    decreases |chain|
  {
    if chain != [] && k > 0 {
      var n := |chain| - 1;
      var rest := Undone(chain[..n], w);
      var all := Undone(chain, w);
      var rev := Reversed(chain);
      assert rev[1..] == Reversed(chain[..n]);
      if w.undoes(chain[n]) {
        UndoneIsReversed(chain[..n], w, k - 1);
        assert all == [chain[n]] + rest && all[..k][1..] == rest[..k - 1];
      } else {
        UndoneIsReversed(chain[..n], w, k);
        assert all == rest;
      }
    }
  }

  // ---------------------------------------------------------------------------------------------
  // Every call keeps the invariant
  // ---------------------------------------------------------------------------------------------

  lemma BreakKeeps(s: Session, done: seq<StepName>, e: Ending)
    requires Inv(s, done, e)
    ensures Inv(Break(s), done, e)
  {
  }

  lemma NothingUndone(done: seq<StepName>)
    ensures Subsequence([], Reversed(done))
  {
  }

  /** A step completes: emitted, and then recorded or broken. */
  lemma CompletionKeeps(s: Session, done: seq<StepName>, step: StepName, output: Json)
    requires Inv(s, done, Open) && s.status == Running && !s.broken && step !in s.completed
    ensures Inv(Recorded(Emitted(s, StepCompleted, step), step, output), done + [step], Open)
    ensures Inv(Break(Emitted(s, StepCompleted, step)), done + [step], Open)
  {
    hide Subsequence, Reversed, NoRepeats, Trace, Events;
    var more := done + [step];
    var before := s.completed[..s.base];
    assert s.completed == before + done;
    assert before + more == s.completed + [step];
    TraceGrows(done, step);
    NothingUndone(more);
    OneMoreStep(s.completed, step);
    assert (s.completed + [step])[..s.base] == before && (s.completed + [step])[s.base..] == more;
    assert more[..|more|] == more && more[..|done|] == done;
  }

  lemma TraceGrows(done: seq<StepName>, step: StepName)
    ensures Trace(done + [step], Open) == Trace(done, Open) + [Event(StepCompleted, step)]
  {
    assert Events(StepCompleted, done + [step]) == Events(StepCompleted, done) + [Event(StepCompleted, step)];
  }

  lemma OneMoreStep(steps: seq<StepName>, step: StepName)
    requires NoRepeats(steps) && step !in steps
    ensures NoRepeats(steps + [step])
  {
  }

  /** What compensating a running session leaves, as one record update. */
  lemma CompensationLeaves(s: Session, w: World) returns (undone: seq<StepName>)
    ensures var u := CompensateAll(s, w);
      && u.session == s.(compensations := [], events := s.events + Events(StepCompensated, undone),
                         broken := s.broken || !u.ok)
      && Subsequence(undone, Reversed(s.compensations))
      && (u.ok ==> (u.ran <==> undone != []))
      && (s.broken ==> undone == [])
  {
    hide Unwind, Subsequence, Reversed, Undone;
    var k := UnwindEmits(s.(compensations := []), s.compensations, w);
    undone := Undone(s.compensations, w)[..k];
    UndoneIsReversed(s.compensations, w, k);
  }

  /** An open session may end: the trace grows by the ending, nothing else about it moves. */
  lemma EndingKeeps(s: Session, t: Session, done: seq<StepName>, e: Ending)
    requires Inv(s, done, Open) && s.status == Running && !s.broken
    requires t.base == s.base && t.completed == s.completed && t.outputs == s.outputs
    requires t.events == Trace(done, e) && Subsequence(UndoneOf(e), Reversed(done))
    requires e.StepFails? ==> e.failed !in s.completed
    requires EndsAs(t.status, t.broken, e) && (t.broken || (t.status != Running && t.row == s.row.(status := t.status)))
    ensures Inv(t, done, e)
  {
    hide Trace, Subsequence, Reversed, EndsAs;
  }

  lemma FailureKeeps(s: Session, done: seq<StepName>, step: StepName, w: World) returns (e: Ending)
    requires Inv(s, done, Open) && s.status == Running && !s.broken && step !in s.completed
    ensures
      var u := CompensateAll(Emitted(s, StepFailed, step), w);
      && Inv(Break(u.session), done, e)
      && (u.session.broken <==> !u.ok)
      && (u.ok ==> Inv(WithStatus(u.session, if u.ran then Compensated else Failed), done, e))
  {
    hide Unwind, Subsequence, Reversed;
    var start := Emitted(s, StepFailed, step);
    var undone := CompensationLeaves(start, w);
    e := StepFails(step, undone);
    var u := CompensateAll(start, w);
    assert Trace(done, e) == start.events + Events(StepCompensated, undone) by {
      assert s.events == Trace(done, Open);
    }
    EndingKeeps(s, Break(u.session), done, e);
    if u.ok {
      EndingKeeps(s, WithStatus(u.session, if u.ran then Compensated else Failed), done, e);
    }
  }

  lemma AbortKeeps(s: Session, done: seq<StepName>, w: World) returns (partial: Ending, full: Ending)
    requires Inv(s, done, Open) && s.status == Running && !s.broken
    ensures
      var u := CompensateAll(s, w);
      && Inv(Break(u.session), done, partial)
      && (u.session.broken <==> !u.ok)
      && (u.ok ==> Inv(Break(Emitted(u.session, SagaAborted, "")), done, full))
      && (u.ok ==> Inv(WithStatus(Emitted(u.session, SagaAborted, ""), Aborted), done, full))
  {
    hide Unwind, Subsequence, Reversed;
    var undone := CompensationLeaves(s, w);
    partial, full := Undoing(undone), GivenUp(undone);
    var u := CompensateAll(s, w);
    assert Trace(done, partial) == s.events + Events(StepCompensated, undone) by {
      assert s.events == Trace(done, Open);
    }
    assert Trace(done, full) == Trace(done, partial) + [Event(SagaAborted, "")];
    EndingKeeps(s, Break(u.session), done, partial);
    if u.ok {
      EndingKeeps(s, Break(Emitted(u.session, SagaAborted, "")), done, full);
      EndingKeeps(s, WithStatus(Emitted(u.session, SagaAborted, ""), Aborted), done, full);
    }
  }

  lemma BrokenAbortKeeps(s: Session, done: seq<StepName>, e: Ending, w: World)
    requires Inv(s, done, e) && s.status == Running && s.broken
    ensures var u := CompensateAll(s, w); u.session.broken && Inv(u.session, done, e)
  {
    var k := UnwindEmits(s.(compensations := []), s.compensations, w);
    assert s.events + [] == s.events;
  }

  lemma FinishKeeps(s: Session, done: seq<StepName>)
    requires Inv(s, done, Open) && s.status == Running && !s.broken
    ensures Inv(Break(Emitted(s, SagaCompleted, "")), done, AllDone)
    ensures Inv(WithStatus(Emitted(s, SagaCompleted, ""), Completed), done, AllDone)
  {
    assert Trace(done, AllDone) == Trace(done, Open) + [Event(SagaCompleted, "")];
  }

  lemma StepKeepsInv(s: Session, c: Call, done: seq<StepName>, e: Ending) returns (done': seq<StepName>, e': Ending)
    requires Inv(s, done, e)
    ensures Inv(Step(s, c), done', e')
  {
    hide Inv, Unwind, Recorded;
    done', e' := done, e;
    if s.status == Running {
      BreakKeeps(s, done, e);
      match c
      case Execute(step, outcome, w) =>
        if step !in s.completed && !s.broken && w.marks {
          OpenWhileRunning(s, done, e);
          match outcome
          case Unencodable =>
          case Succeeded(output) =>
            if w.emits {
              CompletionKeeps(s, done, step, output);
              done' := done + [step];
            }
          case Errored =>
            if w.emits {
              e' := FailureKeeps(s, done, step, w);
            }
        }
      case Finish(w) =>
        if CanEmit(s, w.emits) {
          OpenWhileRunning(s, done, e);
          FinishKeeps(s, done);
          e' := AllDone;
        }
      case Abort(w) =>
        var u := CompensateAll(s, w);
        if s.broken {
          BrokenAbortKeeps(s, done, e, w);
          BreakKeeps(u.session, done, e);
          assert Break(u.session) == u.session;
        } else {
          OpenWhileRunning(s, done, e);
          var partial, full := AbortKeeps(s, done, w);
          e' := if u.ok && w.emits then full else partial;
          assert !u.ok ==> Break(u.session) == u.session;
        }
    }
  }

  lemma OpenWhileRunning(s: Session, done: seq<StepName>, e: Ending)
    requires Inv(s, done, e) && s.status == Running && !s.broken
    ensures e == Open
  {
  }

  // ---------------------------------------------------------------------------------------------
  // Whole sessions
  // ---------------------------------------------------------------------------------------------

  /** What the runner itself leaves in the table: distinct steps, each with its output. */
  ghost predicate RowOk(row: Row) {
    NoRepeats(row.completed) && forall x :: x in row.completed <==> x in row.outputs
  }

  lemma StartIsOpen(db: Option<Row>)
    requires db.Some? ==> RowOk(db.value)
    ensures Started(db).Some? ==> Inv(Started(db).value, [], Open)
  {
    if Started(db).Some? {
      var s := Started(db).value;
      assert s.completed[..s.base] + [] == s.completed && s.completed[s.base..] == [];
      assert Trace([], Open) == [];
    }
  }

  lemma {:induction false} RunKeepsInv(s: Session, calls: seq<Call>, done: seq<StepName>, e: Ending)
    returns (done': seq<StepName>, e': Ending)
    requires Inv(s, done, e)
    ensures Inv(Run(s, calls), done', e')
    decreases |calls|
  {
    hide Inv, Step;
    if calls == [] {
      done', e' := done, e;
    } else {
      var d, f := StepKeepsInv(s, calls[0], done, e);
      done', e' := RunKeepsInv(Step(s, calls[0]), calls[1..], d, f);
    }
  }

  /** What the invariant says about the trace. */
  lemma InvMeans(s: Session, done: seq<StepName>, e: Ending)
    requires Inv(s, done, e)
    ensures s.events == Trace(done, e) && NoRepeats(done) && s.base <= |s.completed|
    ensures Subsequence(UndoneOf(e), Reversed(done)) && EndsAs(s.status, s.broken, e)
    ensures e.StepFails? ==> e.failed !in s.completed
    ensures !s.broken ==>
      done == s.completed[s.base..] && s.row == Row(s.status, s.completed, s.outputs) && RowOk(s.row)
  {
    hide Trace, Subsequence, Reversed, EndsAs;
    var before := s.completed[..s.base];
    forall i, j | 0 <= i < j < |done|
      ensures done[i] != done[j]
    {
      assert (before + done)[s.base + i] == done[i] && (before + done)[s.base + j] == done[j];
    }
  }

  /** Every run of a session, under any statement failures, emits a trace of one of the listed forms, with
      the compensated steps in the reverse order of the completed ones. */
  lemma EveryRunHasATraceForm(db: Option<Row>, calls: seq<Call>)
    returns (done: seq<StepName>, e: Ending)
    requires (db.Some? ==> RowOk(db.value)) && Started(db).Some?
    ensures
      var s := Run(Started(db).value, calls);
      && s.events == Trace(done, e) && NoRepeats(done) && s.base <= |s.completed|
      && Subsequence(UndoneOf(e), Reversed(done)) && EndsAs(s.status, s.broken, e)
      && (!s.broken ==>
            !e.Undoing? && done == s.completed[s.base..] && s.row == Row(s.status, s.completed, s.outputs))
  {
    StartIsOpen(db);
    hide Inv, Run, Started, Trace, Subsequence, Reversed, NoRepeats;
    done, e := RunKeepsInv(Started(db).value, calls, [], Open);
    InvMeans(Run(Started(db).value, calls), done, e);
  }

  /** After a terminal status nothing changes any more. */
  lemma {:induction false} TerminalIsFinal(s: Session, calls: seq<Call>)
    requires s.status != Running
    ensures Run(s, calls) == s
    decreases |calls|
  {
    if calls != [] {
      assert Step(s, calls[0]) == s;
      TerminalIsFinal(s, calls[1..]);
    }
  }
}
