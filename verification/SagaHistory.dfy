/**
 A saga over its whole life: sequential sessions, each of which commits or rolls back
 (libs/saga/saga.go:291-338, 386-450), and the identity of the events they put in the outbox.
 */
module SagaHistory {
  import opened Common
  import opened Saga

  /** One session: whether Start's statements work, the calls made, and whether the caller commits. */
  datatype Sitting = Sitting(starts: bool, calls: seq<Call>, commits: bool)

  /** The committed state; `executed` logs the steps that ExecuteStep recorded and answered with their output,
      `previous` counts those of the sessions before the last committed one.  `bodies` logs every step whose
      Execute body returned success in a committed session, `unencodable` those of them whose output could
      not be encoded. */
  datatype Database = Database(
    row: Option<Row>, outbox: seq<Event>, executed: seq<StepName>, previous: nat,
    bodies: seq<StepName>, unencodable: seq<StepName>)

  const EMPTY := Database(None, [], [], 0, [], [])

  /** The steps that were executed and answered with a fresh output, in order. */
  function Successes(s: Session, calls: seq<Call>): seq<StepName>
    decreases |calls|
  {
    if calls == [] then [] else
    var c := calls[0];
    (if c.Execute? && ExecuteStep(s, c.step, c.outcome, c.world).1.Output? then [c.step] else [])
    + Successes(Step(s, c), calls[1..])
  }

  /** The call reaches the step's Execute body, and the body returns success. */
  predicate BodySucceeds(s: Session, c: Call) {
    && c.Execute? && s.status == Running && c.step !in s.completed
    && !s.broken && c.world.marks && !c.outcome.Errored?
  }

  /** The steps whose Execute body returned success, in order, whatever became of their output. */
  function Bodies(s: Session, calls: seq<Call>): seq<StepName>
    decreases |calls|
  {
    if calls == [] then [] else
    (if BodySucceeds(s, calls[0]) then [calls[0].step] else []) + Bodies(Step(s, calls[0]), calls[1..])
  }

  /** Those whose output could not be encoded. */
  function Unencoded(s: Session, calls: seq<Call>): seq<StepName>
    decreases |calls|
  {
    if calls == [] then [] else
    (if BodySucceeds(s, calls[0]) && calls[0].outcome.Unencodable? then [calls[0].step] else [])
    + Unencoded(Step(s, calls[0]), calls[1..])
  }

  /** A broken transaction cannot commit; a refused Start leaves nothing behind. */
  function Hold(db: Database, sitting: Sitting): Database {
    var started := Started(db.row);
    if !sitting.starts || !sitting.commits || started.None? then db else
    var s := Run(started.value, sitting.calls);
    if s.broken then db
    else Database(Some(s.row), db.outbox + s.events,
                  db.executed + Successes(started.value, sitting.calls), |started.value.completed|,
                  db.bodies + Bodies(started.value, sitting.calls),
                  db.unencodable + Unencoded(started.value, sitting.calls))
  }

  function History(db: Database, sittings: seq<Sitting>): Database
    decreases |sittings|
  {
    if sittings == [] then db else History(Hold(db, sittings[0]), sittings[1..])
  }

  // ---------------------------------------------------------------------------------------------
  // Progress within a session
  // ---------------------------------------------------------------------------------------------

  /** t continues s: steps are only appended and recorded outputs stay. */
  ghost predicate Continues(s: Session, t: Session) {
    && t.base == s.base && s.completed <= t.completed
    && (forall x :: x in s.outputs ==> x in t.outputs && t.outputs[x] == s.outputs[x])
    && (forall x :: x in t.outputs ==> x in t.completed)
  }

  lemma StepContinues(s: Session, c: Call)
    requires forall x :: x in s.outputs ==> x in s.completed
    ensures Continues(s, Step(s, c))
    ensures Step(s, c).completed ==
      s.completed + if c.Execute? && ExecuteStep(s, c.step, c.outcome, c.world).1.Output? then [c.step] else []
  {
    hide Unwind, Subsequence, Reversed;
    match c
    case Execute(step, outcome, w) =>
      var undone := CompensationLeaves(Emitted(s, StepFailed, step), w);
    case Finish(w) =>
    case Abort(w) =>
      var undone := CompensationLeaves(s, w);
  }

  lemma {:induction false} RunContinues(s: Session, calls: seq<Call>)
    requires forall x :: x in s.outputs ==> x in s.completed
    ensures Continues(s, Run(s, calls))
    ensures Run(s, calls).completed == s.completed + Successes(s, calls)
    decreases |calls|
  {
    hide Step, ExecuteStep;
    if calls != [] {
      StepContinues(s, calls[0]);
      var next := Step(s, calls[0]);
      RunContinues(next, calls[1..]);
      ContinuesIsTransitive(s, next, Run(next, calls[1..]));
      hide Continues;
    }
  }

  lemma ContinuesIsTransitive(a: Session, b: Session, c: Session)
    requires Continues(a, b) && Continues(b, c)
    ensures Continues(a, c)
  {
  }

  // ---------------------------------------------------------------------------------------------
  // The committed state
  // ---------------------------------------------------------------------------------------------

  /** The outbox holds one trace over all sessions, ended as e, and the row mirrors it. */
  ghost predicate Mirrors(db: Database, row: Row, e: Ending) {
    && db.row == Some(row) && RowOk(row)
    && db.executed == row.completed && db.previous <= |row.completed|
    && db.outbox == Trace(row.completed, e) && EndsAs(row.status, false, e)
    && (e.StepFails? ==> e.failed !in row.completed)
    && Subsequence(UndoneOf(e), Reversed(row.completed[db.previous..]))
  }

  ghost predicate Sound(db: Database) {
    if db.row.None? then db == EMPTY else exists e :: Mirrors(db, db.row.value, e)
  }

  lemma EventsConcat(kind: EventKind, a: seq<StepName>, b: seq<StepName>)
    ensures Events(kind, a + b) == Events(kind, a) + Events(kind, b)
  {
  }

  lemma TraceConcat(before: seq<StepName>, done: seq<StepName>, e: Ending)
    ensures Trace(before, Open) + Trace(done, e) == Trace(before + done, e)
  {
    EventsConcat(StepCompleted, before, done);
  }

  lemma HoldKeepsSound(db: Database, sitting: Sitting)
    requires Sound(db)
    ensures Sound(Hold(db, sitting))
    ensures db.executed <= Hold(db, sitting).executed
  {
    hide Run, Subsequence, Reversed, Trace, Successes;
    var started := Started(db.row);
    if sitting.starts && sitting.commits && started.Some? {
      var s0 := started.value;
      var s := Run(s0, sitting.calls);
      StartIsOpen(db.row);
      RunContinues(s0, sitting.calls);
      if !s.broken {
        var before := s0.completed;
        assert db.outbox == Trace(before, Open) && db.executed == before by {
          OpenBefore(db);
        }
        var done, e := RunKeepsInv(s0, sitting.calls, [], Open);
        InvMeans(s, done, e);
        assert s.completed == before + done;
        TraceConcat(before, done, e);
        assert Mirrors(Hold(db, sitting), s.row, e);
      }
    }
  }

  /** A row that can be resumed has only completions in its outbox. */
  lemma OpenBefore(db: Database)
    requires Sound(db) && Started(db.row).Some?
    ensures db.outbox == Trace(Started(db.row).value.completed, Open)
    ensures db.executed == Started(db.row).value.completed
  {
    hide Subsequence, Reversed, Trace;
    if db.row.None? {
      NoTrace();
    } else {
      var e :| Mirrors(db, db.row.value, e);
      assert e == Open;
    }
  }

  lemma NoTrace()
    ensures Trace([], Open) == []
  {
  }

  /** Across any sequence of sessions, whatever fails: the persisted row mirrors the steps executed in
      committed sessions, in order, and the outbox holds a single trace of one of the listed forms. */
  lemma {:induction false} HistoryIsSound(db: Database, sittings: seq<Sitting>)
    requires Sound(db)
    ensures Sound(History(db, sittings)) && db.executed <= History(db, sittings).executed
    decreases |sittings|
  {
    hide Sound, Hold;
    if sittings != [] {
      HoldKeepsSound(db, sittings[0]);
      HistoryIsSound(Hold(db, sittings[0]), sittings[1..]);
    }
  }

  /** A step is recorded as executed in at most one committed session, and only once there. */
  lemma ExecutedAtMostOnce(sittings: seq<Sitting>)
    ensures var db := History(EMPTY, sittings);
      NoRepeats(db.executed) && db.executed == if db.row.Some? then db.row.value.completed else []
  {
    hide Subsequence, Reversed, Trace, History;
    HistoryIsSound(EMPTY, sittings);
  }

  // ---------------------------------------------------------------------------------------------
  // How often a step's Execute body succeeds
  // ---------------------------------------------------------------------------------------------

  function Count(steps: seq<StepName>, x: StepName): nat
    decreases |steps|
  {
    if steps == [] then 0 else (if steps[0] == x then 1 else 0) + Count(steps[1..], x)
  }

  lemma {:induction false} CountConcat(a: seq<StepName>, b: seq<StepName>, x: StepName)
    ensures Count(a + b, x) == Count(a, x) + Count(b, x)
    decreases |a|
  {
    if a == [] {
      assert a + b == b;
    } else {
      assert (a + b)[0] == a[0] && (a + b)[1..] == a[1..] + b;
      CountConcat(a[1..], b, x);
    }
  }

  lemma {:induction false} CountDistinct(steps: seq<StepName>, x: StepName)
    requires NoRepeats(steps)
    ensures Count(steps, x) == if x in steps then 1 else 0
    decreases |steps|
  {
    if steps != [] {
      assert NoRepeats(steps[1..]) && steps[0] !in steps[1..];
      CountDistinct(steps[1..], x);
    }
  }

  /** A broken transaction stays broken. */
  lemma StepStaysBroken(s: Session, c: Call)
    requires s.broken
    ensures Step(s, c).broken
  {
    hide Unwind;
    match c
    case Execute(step, outcome, w) =>
    case Finish(w) =>
    case Abort(w) => var undone := CompensationLeaves(s, w);
  }

  lemma {:induction false} RunStaysBroken(s: Session, calls: seq<Call>)
    requires s.broken
    ensures Run(s, calls).broken
    decreases |calls|
  {
    hide Step;
    if calls != [] {
      StepStaysBroken(s, calls[0]);
      RunStaysBroken(Step(s, calls[0]), calls[1..]);
    }
  }

  /** Unless it breaks the transaction, a body that succeeds is recorded and answered, or unencodable. */
  lemma BodyIsRecordedOrUnencodable(s: Session, c: Call)
    requires !Step(s, c).broken
    ensures BodySucceeds(s, c) <==>
      && c.Execute?
      && (ExecuteStep(s, c.step, c.outcome, c.world).1.Output? || (BodySucceeds(s, c) && c.outcome.Unencodable?))
    ensures BodySucceeds(s, c) && c.outcome.Unencodable? ==>
      Step(s, c) == s && ExecuteStep(s, c.step, c.outcome, c.world).1 == SerializeError
    ensures c.Execute? && ExecuteStep(s, c.step, c.outcome, c.world).1.Output? ==> !c.outcome.Unencodable?
  {
    hide Unwind;
  }

  lemma {:induction false} SessionBodies(s: Session, calls: seq<Call>, x: StepName)
    requires !Run(s, calls).broken
    ensures Count(Bodies(s, calls), x) == Count(Successes(s, calls), x) + Count(Unencoded(s, calls), x)
    decreases |calls|
  {
    hide Step, ExecuteStep, BodySucceeds, Count;
    NothingCounts(x);
    if calls != [] {
      var c, next := calls[0], Step(s, calls[0]);
      if next.broken {
        RunStaysBroken(next, calls[1..]);
      }
      BodyIsRecordedOrUnencodable(s, c);
      SessionBodies(next, calls[1..], x);
      var first: seq<StepName> := if BodySucceeds(s, c) then [c.step] else [];
      var odd: seq<StepName> := if BodySucceeds(s, c) && c.outcome.Unencodable? then [c.step] else [];
      var answered: seq<StepName> :=
        if c.Execute? && ExecuteStep(s, c.step, c.outcome, c.world).1.Output? then [c.step] else [];
      CountConcat(first, Bodies(next, calls[1..]), x);
      CountConcat(odd, Unencoded(next, calls[1..]), x);
      CountConcat(answered, Successes(next, calls[1..]), x);
    }
  }

  lemma NothingCounts(x: StepName)
    ensures Count([], x) == 0
  {
  }

  /** The committed logs agree: a body that succeeded was recorded or was unencodable. */
  ghost predicate Tallied(db: Database, x: StepName) {
    Count(db.bodies, x) == Count(db.executed, x) + Count(db.unencodable, x)
  }

  lemma {:induction false} HistoryIsTallied(db: Database, sittings: seq<Sitting>, x: StepName)
    requires Tallied(db, x)
    ensures Tallied(History(db, sittings), x)
    decreases |sittings|
  {
    hide Count, Bodies, Successes, Unencoded, Run, Started;
    if sittings != [] {
      var sitting := sittings[0];
      var started := Started(db.row);
      if sitting.starts && sitting.commits && started.Some? && !Run(started.value, sitting.calls).broken {
        SessionBodies(started.value, sitting.calls, x);
        CountConcat(db.bodies, Bodies(started.value, sitting.calls), x);
        CountConcat(db.executed, Successes(started.value, sitting.calls), x);
        CountConcat(db.unencodable, Unencoded(started.value, sitting.calls), x);
      }
      HistoryIsTallied(Hold(db, sitting), sittings[1..], x);
    }
  }

  /** Exactly how often the Execute body of a step succeeds over all committed sessions: once if the step is
      recorded, and once more for every call whose output could not be encoded. */
  lemma BodyCount(sittings: seq<Sitting>, x: StepName)
    ensures
      var db := History(EMPTY, sittings);
      Count(db.bodies, x) == (if x in db.executed then 1 else 0) + Count(db.unencodable, x)
  {
    hide History;
    NothingCounts(x);
    HistoryIsTallied(EMPTY, sittings, x);
    ExecutedAtMostOnce(sittings);
    CountDistinct(History(EMPTY, sittings).executed, x);
  }

  /** A step's Execute body succeeds at most once over all committed sessions if and only if its output was
      always encodable, or failed to be encoded once and the step was never run again with success. */
  lemma BodySucceedsAtMostOnceIff(sittings: seq<Sitting>, x: StepName)
    ensures
      var db := History(EMPTY, sittings);
      Count(db.bodies, x) <= 1 <==>
        x !in db.unencodable || (Count(db.unencodable, x) == 1 && x !in db.executed)
  {
    hide History;
    BodyCount(sittings, x);
    CountMembers(History(EMPTY, sittings).unencodable, x);
  }

  lemma {:induction false} CountMembers(steps: seq<StepName>, x: StepName)
    ensures x in steps <==> Count(steps, x) >= 1
    decreases |steps|
  {
    if steps != [] {
      CountMembers(steps[1..], x);
    }
  }

  /** A call that works: its statements succeed. */
  predicate Works(w: World) {
    w.marks && w.emits && w.updates
  }

  /** The failure is real for every step, in every saga that can be resumed: a body whose output cannot be encoded
      runs again when its step is asked for again, in the same session or in a later one. */
  lemma UnencodableRunsAgain(db: Database, x: StepName, w: World, outcome: Outcome)
    requires Started(db.row).Some? && x !in Started(db.row).value.completed && Works(w) && !outcome.Errored?
    ensures
      var first, again := Execute(x, Unencodable, w), Execute(x, outcome, w);
      && Hold(db, Sitting(true, [first, again], true)).bodies == db.bodies + [x, x]
      && Hold(Hold(db, Sitting(true, [first], true)), Sitting(true, [again], true)).bodies == db.bodies + [x, x]
  {
    var s0 := Started(db.row).value;
    var first, again := Execute(x, Unencodable, w), Execute(x, outcome, w);
    hide Unwind;
    assert Step(s0, first) == s0 && !Step(s0, again).broken;
    OneCall(s0, first);
    OneCall(s0, again);
    TwoCalls(s0, first, again);
    hide Run, Bodies;
    var mid := Hold(db, Sitting(true, [first], true));
    assert mid.row == Some(s0.row) && Started(mid.row) == Started(db.row);
    assert db.bodies + [x] + [x] == db.bodies + [x, x];
    assert [x] + [x] == [x, x];
  }

  lemma OneCall(s: Session, c: Call)
    ensures Run(s, [c]) == Step(s, c)
    ensures Bodies(s, [c]) == if BodySucceeds(s, c) then [c.step] else []
  {
    hide Step, BodySucceeds;
    assert [c][1..] == [];
  }

  lemma TwoCalls(s: Session, a: Call, b: Call)
    ensures Run(s, [a, b]) == Step(Step(s, a), b)
    ensures Bodies(s, [a, b]) ==
      (if BodySucceeds(s, a) then [a.step] else []) + (if BodySucceeds(Step(s, a), b) then [b.step] else [])
  {
    hide Step, BodySucceeds;
    assert [a, b][1..] == [b];
    OneCall(Step(s, a), b);
  }

  // ---------------------------------------------------------------------------------------------
  // Replay
  // ---------------------------------------------------------------------------------------------

  predicate Recorded(db: Database, step: StepName, output: Json) {
    && db.row.Some? && step in db.row.value.completed
    && step in db.row.value.outputs && db.row.value.outputs[step] == output
  }

  lemma HoldKeepsRecord(db: Database, sitting: Sitting, step: StepName, output: Json)
    requires Sound(db) && Recorded(db, step, output)
    ensures Recorded(Hold(db, sitting), step, output)
  {
    hide Run, Subsequence, Reversed, Trace, Successes;
    var started := Started(db.row);
    if sitting.starts && sitting.commits && started.Some? {
      var s := Run(started.value, sitting.calls);
      StartIsOpen(db.row);
      RunContinues(started.value, sitting.calls);
      var done, e := RunKeepsInv(started.value, sitting.calls, [], Open);
      InvMeans(s, done, e);
    }
  }

  lemma {:induction false} RecordStays(db: Database, sittings: seq<Sitting>, step: StepName, output: Json)
    requires Sound(db) && Recorded(db, step, output)
    ensures Recorded(History(db, sittings), step, output)
    decreases |sittings|
  {
    hide Sound, Hold, Recorded;
    if sittings != [] {
      HoldKeepsSound(db, sittings[0]);
      HoldKeepsRecord(db, sittings[0], step, output);
      RecordStays(Hold(db, sittings[0]), sittings[1..], step, output);
    }
  }

  /** Once a step is committed, asking for it again in any later session, at any point of that session
      before it ends, returns the recorded output and changes nothing: no event, no compensation. */
  lemma ReplayIsSilent(first: seq<Sitting>, later: seq<Sitting>, step: StepName, output: Json,
                       calls: seq<Call>, outcome: Outcome, w: World)
    requires Recorded(History(EMPTY, first), step, output)
    requires Started(History(History(EMPTY, first), later).row).Some?
    requires Run(Started(History(History(EMPTY, first), later).row).value, calls).status == Running
    requires w.decodes
    ensures
      var s := Run(Started(History(History(EMPTY, first), later).row).value, calls);
      ExecuteStep(s, step, outcome, w) == (s, Replayed(output))
  {
    hide Run, History, Sound;
    assert Sound(EMPTY) by { StartsSound(); }
    HistoryIsSound(EMPTY, first);
    var db1 := History(EMPTY, first);
    RecordStays(db1, later, step, output);
    HistoryIsSound(db1, later);
    var db := History(db1, later);
    SoundRow(db);
    var s0 := Started(db.row).value;
    RunContinues(s0, calls);
    var s := Run(s0, calls);
    assert step in s0.outputs && s0.outputs[step] == output;
    assert step in s.outputs && step in s.completed;
  }

  lemma StartsSound()
    ensures Sound(EMPTY)
  {
  }

  lemma SoundRow(db: Database)
    requires Sound(db) && db.row.Some?
    ensures RowOk(db.row.value)
  {
    hide Subsequence, Reversed, Trace;
  }

  // ---------------------------------------------------------------------------------------------
  // Event identities
  // ---------------------------------------------------------------------------------------------

  function Discriminator(kind: EventKind): string {
    match kind
    case StepCompleted => "step.completed"
    case StepFailed => "step.failed"
    case StepCompensated => "step.compensated"
    case SagaCompleted => "saga.completed"
    case SagaAborted => "saga.aborted"
  }

  /** The name the event id is derived from; step names may contain any character. */
  function IdInput(saga: string, e: Event): string {
    saga + ":" + e.step + ":" + Discriminator(e.kind)
  }

  lemma ColonInside(a: string, x: string, b: string, y: string)
    requires a + ":" + x == b + ":" + y && |a| < |b|
    ensures ':' in x
  {
    assert (b + ":" + y)[|b|] == ':' && (a + ":" + x)[|b|] == x[|b| - |a| - 1];
  }

  /** Two texts that end in a colon and a colon-free tail split in the same place. */
  lemma LastColonSplits(a: string, x: string, b: string, y: string)
    requires a + ":" + x == b + ":" + y && ':' !in x && ':' !in y
    ensures a == b && x == y
  {
    assert |a| == |b| by {
      if |a| < |b| {
        ColonInside(a, x, b, y);
      } else if |b| < |a| {
        ColonInside(b, y, a, x);
      }
    }
    var all := a + ":" + x;
    assert all[..|a|] == a && all[..|b|] == b && all[|a| + 1..] == x && all[|b| + 1..] == y;
  }

  lemma IdInputIsInjective(saga: string, a: Event, b: Event)
    requires IdInput(saga, a) == IdInput(saga, b)
    ensures a == b
  {
    LastColonSplits(saga + ":" + a.step, Discriminator(a.kind), saga + ":" + b.step, Discriminator(b.kind));
    var cut := |saga + ":"|;
    assert (saga + ":" + a.step)[cut..] == a.step && (saga + ":" + b.step)[cut..] == b.step;
    assert |Discriminator(a.kind)| == |Discriminator(b.kind)|;
    assert Discriminator(a.kind)[5..7] == Discriminator(b.kind)[5..7];
    assert Discriminator(a.kind)[1..3] == Discriminator(b.kind)[1..3];
  }

  ghost predicate DistinctEvents(es: seq<Event>) {
    forall i, j :: 0 <= i < j < |es| ==> es[i] != es[j]
  }

  lemma {:induction false} SubsequenceMembers(a: seq<StepName>, b: seq<StepName>)
    requires Subsequence(a, b) && NoRepeats(b)
    ensures NoRepeats(a) && forall x :: x in a ==> x in b
    decreases |b|
  {
    if a != [] {
      assert NoRepeats(b[1..]) && b[0] !in b[1..];
      if a[0] == b[0] && Subsequence(a[1..], b[1..]) {
        SubsequenceMembers(a[1..], b[1..]);
        assert a == [a[0]] + a[1..];
        forall x | x in a
          ensures x in b
        {
          assert x == a[0] || x in a[1..];
        }
      } else {
        SubsequenceMembers(a, b[1..]);
      }
    }
  }

  lemma {:induction false} ReversedMembers(s: seq<StepName>)
    requires NoRepeats(s)
    ensures |Reversed(s)| == |s| && NoRepeats(Reversed(s))
    ensures forall i :: 0 <= i < |s| ==> Reversed(s)[i] == s[|s| - 1 - i]
    decreases |s|
  {
    if s != [] {
      ReversedMembers(s[..|s| - 1]);
    }
  }

  lemma TraceIsDistinct(done: seq<StepName>, e: Ending)
    requires NoRepeats(done) && NoRepeats(UndoneOf(e))
    ensures DistinctEvents(Trace(done, e))
  {
  }

  lemma TailHasNoRepeats(s: seq<StepName>, k: nat)
    requires k <= |s| && NoRepeats(s)
    ensures NoRepeats(s[k..])
  {
  }

  /** With an injective name-based UUID, all event ids a saga ever commits are distinct, across all its
      sessions. */
  lemma EventIdsAreDistinct<Uuid>(sittings: seq<Sitting>, saga: string, uuid: string -> Uuid)
    requires forall x, y :: uuid(x) == uuid(y) ==> x == y
    ensures
      var es := History(EMPTY, sittings).outbox;
      forall i, j :: 0 <= i < j < |es| ==> uuid(IdInput(saga, es[i])) != uuid(IdInput(saga, es[j]))
  {
    var db := History(EMPTY, sittings);
    var es := db.outbox;
    assert DistinctEvents(es) by {
      OutboxIsDistinct(sittings);
    }
    hide History, IdInput;
    forall i, j | 0 <= i < j < |es|
      ensures uuid(IdInput(saga, es[i])) != uuid(IdInput(saga, es[j]))
    {
      if IdInput(saga, es[i]) == IdInput(saga, es[j]) {
        IdInputIsInjective(saga, es[i], es[j]);
      }
    }
  }

  lemma OutboxIsDistinct(sittings: seq<Sitting>)
    ensures DistinctEvents(History(EMPTY, sittings).outbox)
  {
    hide History, Subsequence, Reversed, Trace;
    HistoryIsSound(EMPTY, sittings);
    var db := History(EMPTY, sittings);
    if db.row.Some? {
      var row := db.row.value;
      var e :| Mirrors(db, row, e);
      var last := row.completed[db.previous..];
      TailHasNoRepeats(row.completed, db.previous);
      ReversedMembers(last);
      SubsequenceMembers(UndoneOf(e), Reversed(last));
      TraceIsDistinct(row.completed, e);
    }
  }

  /** What a resumed saga cannot do: the steps of earlier committed sessions are never compensated,
      because their compensations were registered in a runner that no longer exists. */
  lemma EarlierSessionsAreNotCompensated(sittings: seq<Sitting>, step: StepName)
    requires
      var db := History(EMPTY, sittings);
      db.previous <= |db.executed| && step in db.executed[..db.previous]
    ensures Event(StepCompensated, step) !in History(EMPTY, sittings).outbox
  {
    hide History, Subsequence, Reversed, Trace;
    HistoryIsSound(EMPTY, sittings);
    var db := History(EMPTY, sittings);
    if db.row.Some? {
      var row := db.row.value;
      var e :| Mirrors(db, row, e);
      var last := row.completed[db.previous..];
      TailHasNoRepeats(row.completed, db.previous);
      ReversedMembers(last);
      SubsequenceMembers(UndoneOf(e), Reversed(last));
      assert step !in last;
      assert step !in Reversed(last);
      TraceCompensations(row.completed, e, step);
    }
  }

  lemma TraceCompensations(done: seq<StepName>, e: Ending, step: StepName)
    ensures Event(StepCompensated, step) in Trace(done, e) <==> step in UndoneOf(e)
  {
    var undo := Event(StepCompensated, step);
    var undone := UndoneOf(e);
    EventsMembers(StepCompensated, undone, step);
    assert undo !in Events(StepCompleted, done);
  }

  lemma EventsMembers(kind: EventKind, steps: seq<StepName>, step: StepName)
    ensures Event(kind, step) in Events(kind, steps) <==> step in steps
  {
    if step in steps {
      var i :| 0 <= i < |steps| && steps[i] == step;
      assert Events(kind, steps)[i] == Event(kind, step);
    }
  }
}
