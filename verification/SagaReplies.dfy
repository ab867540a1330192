/**
 What the callers of a saga see (libs/saga/saga.go:376-450): the answer of a step is the output of its body, and
 asking for the step again, in the same session or a later one, gives that answer back.  Everything here is said
 about replies and step bodies; the saved state between them is not mentioned.
 */
module SagaReplies {
  import opened Common
  import opened Saga
  import opened SagaHistory

  /** The session in which call i of the calls is made. */
  function Before(start: Session, calls: seq<Call>, i: nat): Session
    requires i <= |calls|
  {
    Run(start, calls[..i])
  }

  predicate AsksFor(calls: seq<Call>, i: nat, step: StepName) {
    i < |calls| && calls[i].Execute? && calls[i].step == step
  }

  /** What call i is answered. */
  function Answer(start: Session, calls: seq<Call>, i: nat): Reply
    requires i < |calls| && calls[i].Execute?
  {
    ExecuteStep(Before(start, calls, i), calls[i].step, calls[i].outcome, calls[i].world).1
  }

  /** What sitting m is started on, if it is. */
  function Opened(sittings: seq<Sitting>, m: nat): Option<Session>
    requires m < |sittings|
  {
    if sittings[m].starts then Started(History(EMPTY, sittings[..m]).row) else None
  }

  /** The sitting ends with a commit that works. */
  predicate Commits(sittings: seq<Sitting>, m: nat)
    requires m < |sittings|
  {
    Opened(sittings, m).Some? && sittings[m].commits && !Run(Opened(sittings, m).value, sittings[m].calls).broken
  }

  lemma {:induction false} RunConcat(s: Session, a: seq<Call>, b: seq<Call>)
    ensures Run(s, a + b) == Run(Run(s, a), b)
    decreases |a|
  {
    hide Step;
    if a == [] {
      assert a + b == b;
    } else {
      assert (a + b)[0] == a[0] && (a + b)[1..] == a[1..] + b;
      RunConcat(Step(s, a[0]), a[1..], b);
    }
  }

  lemma {:induction false} HistoryConcat(db: Database, a: seq<Sitting>, b: seq<Sitting>)
    ensures History(db, a + b) == History(History(db, a), b)
    decreases |a|
  {
    hide Hold;
    if a == [] {
      assert a + b == b;
    } else {
      assert (a + b)[0] == a[0] && (a + b)[1..] == a[1..] + b;
      HistoryConcat(Hold(db, a[0]), a[1..], b);
    }
  }

  lemma NextCall(s: Session, calls: seq<Call>, i: nat)
    requires i < |calls|
    ensures Before(s, calls, i + 1) == Step(Before(s, calls, i), calls[i])
  {
    hide Step;
    assert calls[..i + 1] == calls[..i] + [calls[i]];
    RunConcat(s, calls[..i], [calls[i]]);
    assert [calls[i]][1..] == [];
  }

  ghost predicate Known(s: Session, step: StepName, output: Json) {
    step in s.completed && step in s.outputs && s.outputs[step] == output
  }

  /** A fresh answer is the output of the body, and the session knows it from then on. */
  lemma FreshAnswer(s: Session, step: StepName, outcome: Outcome, w: World)
    requires ExecuteStep(s, step, outcome, w).1.Output?
    ensures outcome == Succeeded(ExecuteStep(s, step, outcome, w).1.json)
    ensures Known(ExecuteStep(s, step, outcome, w).0, step, ExecuteStep(s, step, outcome, w).1.json)
  {
    hide Unwind;
  }

  lemma KnownAnswer(s: Session, step: StepName, output: Json, outcome: Outcome, w: World)
    requires Known(s, step, output) && ExecuteStep(s, step, outcome, w).1 != Terminal
    ensures ExecuteStep(s, step, outcome, w) == (s, if w.decodes then Replayed(output) else SerializeError)
  {
    hide Unwind;
  }

  /** What is known after call i is known at every later call of the session. */
  lemma KnownStays(s: Session, calls: seq<Call>, i: nat, j: nat, step: StepName, output: Json)
    requires i <= j <= |calls| && forall x :: x in s.outputs ==> x in s.completed
    requires Known(Before(s, calls, i), step, output)
    ensures Known(Before(s, calls, j), step, output)
  {
    hide Run;
    RunContinues(s, calls[..i]);
    assert calls[..j] == calls[..i] + calls[i..j];
    RunConcat(s, calls[..i], calls[i..j]);
    RunContinues(Before(s, calls, i), calls[i..j]);
  }

  lemma OpenedIsWellFormed(sittings: seq<Sitting>, m: nat)
    requires m < |sittings| && Opened(sittings, m).Some?
    ensures Sound(History(EMPTY, sittings[..m]))
    ensures forall x :: x in Opened(sittings, m).value.outputs ==> x in Opened(sittings, m).value.completed
  {
    hide History, Sound;
    StartsSound();
    HistoryIsSound(EMPTY, sittings[..m]);
    var db := History(EMPTY, sittings[..m]);
    if db.row.Some? {
      SoundRow(db);
    }
  }

  lemma HistorySplits(sittings: seq<Sitting>, m: nat, n: nat)
    requires m < n <= |sittings|
    ensures
      History(EMPTY, sittings[..n]) ==
        History(Hold(History(EMPTY, sittings[..m]), sittings[m]), sittings[m + 1..n])
  {
    hide Hold, History;
    var db := History(EMPTY, sittings[..m]);
    assert sittings[..m + 1] == sittings[..m] + [sittings[m]];
    HistoryConcat(EMPTY, sittings[..m], [sittings[m]]);
    OneSitting(db, sittings[m]);
    assert sittings[..n] == sittings[..m + 1] + sittings[m + 1..n];
    HistoryConcat(EMPTY, sittings[..m + 1], sittings[m + 1..n]);
  }

  /** What is known at the end of a sitting that commits is known at the start of every later one. */
  lemma KnownInLaterSittings(sittings: seq<Sitting>, m: nat, n: nat, step: StepName, output: Json)
    requires m < n < |sittings| && Commits(sittings, m) && Opened(sittings, n).Some?
    requires Known(Run(Opened(sittings, m).value, sittings[m].calls), step, output)
    ensures Known(Opened(sittings, n).value, step, output)
  {
    OpenedIsWellFormed(sittings, m);
    HistorySplits(sittings, m, n);
    hide Sound, Run, Known, History, Hold, Started, SagaHistory.Recorded;
    var db := History(EMPTY, sittings[..m]);
    HoldRecords(db, sittings[m], step, output);
    HoldKeepsSound(db, sittings[m]);
    RecordStays(Hold(db, sittings[m]), sittings[m + 1..n], step, output);
    StartedKnows(History(EMPTY, sittings[..n]), step, output);
  }

  lemma OneSitting(db: Database, sitting: Sitting)
    ensures History(db, [sitting]) == Hold(db, sitting)
  {
    hide Hold;
    assert [sitting][1..] == [];
  }

  lemma HoldRecords(db: Database, sitting: Sitting, step: StepName, output: Json)
    requires Sound(db) && sitting.starts && sitting.commits && Started(db.row).Some?
    requires !Run(Started(db.row).value, sitting.calls).broken
    requires Known(Run(Started(db.row).value, sitting.calls), step, output)
    ensures SagaHistory.Recorded(Hold(db, sitting), step, output)
  {
    hide Run, Subsequence, Reversed, Trace, Successes, Bodies, Unencoded;
    var s0 := Started(db.row).value;
    if db.row.Some? {
      SoundRow(db);
    }
    StartIsOpen(db.row);
    var done, e := RunKeepsInv(s0, sitting.calls, [], Open);
    InvMeans(Run(s0, sitting.calls), done, e);
  }

  lemma StartedKnows(db: Database, step: StepName, output: Json)
    requires SagaHistory.Recorded(db, step, output) && Started(db.row).Some?
    ensures Known(Started(db.row).value, step, output)
  {
  }

  /** Through replies only: a call that is answered with an output got it from its step's body.  Every later call for
      that step in the session, and, if the session commits, in any later session of the saga, is answered with the
      same output as long as the saga has not ended; only an output that no longer decodes is an error instead. */
  lemma AnsweredIsReplayed(sittings: seq<Sitting>, m: nat, i: nat, n: nat, j: nat, step: StepName)
    requires m <= n < |sittings| && Opened(sittings, m).Some? && Opened(sittings, n).Some?
    requires AsksFor(sittings[m].calls, i, step) && AsksFor(sittings[n].calls, j, step)
    requires if m == n then i < j else Commits(sittings, m)
    requires Answer(Opened(sittings, m).value, sittings[m].calls, i).Output?
    requires Answer(Opened(sittings, n).value, sittings[n].calls, j) != Terminal
    ensures
      var first := Answer(Opened(sittings, m).value, sittings[m].calls, i).json;
      && sittings[m].calls[i].outcome == Succeeded(first)
      && Answer(Opened(sittings, n).value, sittings[n].calls, j) ==
           if sittings[n].calls[j].world.decodes then Replayed(first) else SerializeError
  {
    hide Run, ExecuteStep, Known, Started;
    var s, calls := Opened(sittings, m).value, sittings[m].calls;
    var s', calls' := Opened(sittings, n).value, sittings[n].calls;
    var call, call' := calls[i], calls'[j];
    OpenedIsWellFormed(sittings, m);
    OpenedIsWellFormed(sittings, n);
    hide History;
    var first := Answer(s, calls, i).json;
    FreshAnswer(Before(s, calls, i), step, call.outcome, call.world);
    NextCall(s, calls, i);
    if m == n {
      KnownStays(s, calls, i + 1, j, step, first);
    } else {
      KnownStays(s, calls, i + 1, |calls|, step, first);
      assert calls[..|calls|] == calls;
      KnownInLaterSittings(sittings, m, n, step, first);
      assert calls'[..0] == [];
      KnownAtStart(s', calls', step, first);
      KnownStays(s', calls', 0, j, step, first);
    }
    KnownAnswer(Before(s', calls', j), step, first, call'.outcome, call'.world);
  }

  lemma KnownAtStart(s: Session, calls: seq<Call>, step: StepName, output: Json)
    requires Known(s, step, output)
    ensures Known(Before(s, calls, 0), step, output)
  {
    assert calls[..0] == [];
  }

  /** The other way round: whatever a call replays was the fresh answer of an earlier call for the step in the same
      session, or was known when the session was opened. */
  lemma ReplayWasAnswered(s: Session, calls: seq<Call>, j: nat, step: StepName)
    requires AsksFor(calls, j, step) && Answer(s, calls, j).Replayed? && step !in s.outputs
    ensures exists i ::
      0 <= i < j && AsksFor(calls, i, step) && Answer(s, calls, i) == Output(Answer(s, calls, j).json)
  {
    var i := FirstKnown(s, calls, j, step);
  }

  lemma {:induction false} FirstKnown(s: Session, calls: seq<Call>, j: nat, step: StepName) returns (i: nat)
    requires j <= |calls| && step in Before(s, calls, j).outputs && step !in s.outputs
    ensures i < j && AsksFor(calls, i, step)
    ensures Answer(s, calls, i) == Output(Before(s, calls, j).outputs[step])
    decreases j
  {
    hide Run;
    BeforeAny(s, calls);
    NextCall(s, calls, j - 1);
    OutputsGrow(Before(s, calls, j - 1), calls[j - 1], step);
    if step in Before(s, calls, j - 1).outputs && !Answers(s, calls, j - 1, step) {
      i := FirstKnown(s, calls, j - 1, step);
    } else {
      i := j - 1;
    }
  }

  predicate Answers(s: Session, calls: seq<Call>, i: nat, step: StepName) {
    AsksFor(calls, i, step) && Answer(s, calls, i).Output?
  }

  lemma BeforeAny(s: Session, calls: seq<Call>)
    ensures Before(s, calls, 0) == s
  {
    assert calls[..0] == [];
  }

  /** Only a fresh answer of its step changes an output. */
  lemma OutputsGrow(s: Session, c: Call, step: StepName)
    ensures
      var answers := c.Execute? && c.step == step && ExecuteStep(s, c.step, c.outcome, c.world).1.Output?;
      && (answers ==>
            && step in Step(s, c).outputs
            && ExecuteStep(s, step, c.outcome, c.world).1 == Output(Step(s, c).outputs[step]))
      && (!answers ==>
            && (step in Step(s, c).outputs <==> step in s.outputs)
            && (step in s.outputs ==> Step(s, c).outputs[step] == s.outputs[step]))
  {
    hide Unwind;
    match c
    case Execute(x, outcome, w) =>
      var undone := CompensationLeaves(Emitted(s, StepFailed, x), w);
    case Finish(w) =>
    case Abort(w) =>
      var undone := CompensationLeaves(s, w);
  }

  // ---------------------------------------------------------------------------------------------
  // What a failure or an abort undoes
  // ---------------------------------------------------------------------------------------------

  lemma {:induction false} UndoneMeaning(chain: seq<StepName>, w: World, x: StepName)
    ensures x in Undone(chain, w) <==> x in chain && w.undoes(x)
    decreases |chain|
  {
    if chain != [] {
      var n := |chain| - 1;
      UndoneMeaning(chain[..n], w, x);
      assert chain == chain[..n] + [chain[n]];
    }
  }

  lemma CompensationIsComplete(s: Session, w: World)
    requires CompensateAll(s, w).ok
    ensures
      var u, all := CompensateAll(s, w), Undone(s.compensations, w);
      && u.session == s.(compensations := [], events := s.events + Events(StepCompensated, all))
      && (u.ran <==> all != [])
  {
    hide Unwind, Undone;
    var k := UnwindEmits(s.(compensations := []), s.compensations, w);
    var all := Undone(s.compensations, w);
    assert all[..k] == all;
  }

  /** The steps answered in the session are the ones its compensation chain holds. */
  lemma ChainIsAnswered(db: Option<Row>, calls: seq<Call>)
    requires (db.Some? ==> RowOk(db.value)) && Started(db).Some?
    requires
      var s := Run(Started(db).value, calls);
      s.status == Running && !s.broken
    ensures
      var s := Run(Started(db).value, calls);
      s.compensations == Successes(Started(db).value, calls)
  {
    hide Run, Trace, Subsequence, Reversed, Successes;
    var start := Started(db).value;
    StartIsOpen(db);
    var done, e := RunKeepsInv(start, calls, [], Open);
    RunContinues(start, calls);
    var s := Run(start, calls);
    assert s.completed[s.base..] == Successes(start, calls);
  }

  /** When a step fails or the saga is aborted and the transaction survives, every step answered in this session is
      compensated if and only if its compensation works, in the reverse of the order of their answers. */
  lemma EverythingIsUndone(db: Option<Row>, calls: seq<Call>, c: Call, x: StepName)
    requires (db.Some? ==> RowOk(db.value)) && Started(db).Some?
    requires
      var s := Run(Started(db).value, calls);
      && s.status == Running && !s.broken && !Step(s, c).broken
      && (c.Abort? || (c.Execute? && c.outcome.Errored? && c.step !in s.completed))
    ensures
      var start, s := Started(db).value, Run(Started(db).value, calls);
      var t, undone := Step(s, c), Undone(Successes(start, calls), c.world);
      && (x in undone <==> x in Successes(start, calls) && c.world.undoes(x))
      && Subsequence(undone, Reversed(Successes(start, calls)))
      && t.events == s.events
           + (if c.Abort? then [] else [Event(StepFailed, c.step)])
           + Events(StepCompensated, undone)
           + (if c.Abort? then [Event(SagaAborted, "")] else [])
      && t.status == if c.Abort? then Aborted else if undone == [] then Failed else Compensated
  {
    hide Run, Successes, Unwind, Undone, Subsequence, Reversed, CompensateAll;
    ChainIsAnswered(db, calls);
    var s := Run(Started(db).value, calls);
    var chain, w := Successes(Started(db).value, calls), c.world;
    UndoneMeaning(chain, w, x);
    UndoneIsReversed(chain, w, |Undone(chain, w)|);
    assert Undone(chain, w)[..|Undone(chain, w)|] == Undone(chain, w);
    var first := if c.Abort? then s else Emitted(s, StepFailed, c.step);
    UnbrokenMeansOk(s, c, first);
    CompensationIsComplete(first, w);
    assert s.events + [] == s.events;
  }

  lemma UnbrokenMeansOk(s: Session, c: Call, first: Session)
    requires s.status == Running && !s.broken && !Step(s, c).broken
    requires c.Abort? || (c.Execute? && c.outcome.Errored? && c.step !in s.completed)
    requires first == if c.Abort? then s else Emitted(s, StepFailed, c.step)
    ensures CompensateAll(first, c.world).ok && c.world.emits && c.world.setsStatus
    ensures c.Execute? ==> c.world.marks
  {
    hide Unwind;
    var k := UnwindEmits(first.(compensations := []), first.compensations, c.world);
  }
}
