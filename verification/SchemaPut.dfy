/**
 Put of libs/cassandra-kernel/schema_store.go as the source writes it: the method is a run of the protocol of
 SchemaStore, against an adversary that runs other clients between any two statements and a driver that gives any
 answers.  What one Put does on its own, and what a Put that was refused leaves behind, is said here as well.
 */
module SchemaPut {
  import opened Common
  import opened SchemaStore

  // ---------------------------------------------------------------------------------------------
  // A Put on its own
  // ---------------------------------------------------------------------------------------------

  /** `n` statements of `me`, all answered, with nobody in between. */
  function Alone(sys: System, me: ClientId, n: nat): System {
    if n == 0 then sys else DoStep(Alone(sys, me, n - 1), me, Delivered)
  }

  /** After some number of its own statements `me` brought `sys` to `sys'`. */
  ghost predicate Undisturbed(sys: System, me: ClientId, sys': System) {
    exists n: nat :: sys' == Alone(sys, me, n)
  }

  lemma OneMoreAlone(sys: System, me: ClientId, sys': System)
    requires Undisturbed(sys, me, sys')
    ensures Undisturbed(sys, me, DoStep(sys', me, Delivered))
  {
    var n: nat :| sys' == Alone(sys, me, n);
    assert Alone(sys, me, n + 1) == DoStep(sys', me, Delivered);
  }

  lemma NothingAlone(sys: System, me: ClientId)
    ensures Undisturbed(sys, me, sys)
  {
    assert Alone(sys, me, 0) == sys;
  }

  lemma {:induction false} DoneStays(sys: System, me: ClientId, n: nat, m: nat)
    requires n <= m && me in Alone(sys, me, n).clients && Alone(sys, me, n).clients[me].pc.Done?
    ensures Alone(sys, me, m) == Alone(sys, me, n)
    decreases m
  {
    hide DoStep;
    if n < m {
      DoneStays(sys, me, n, m - 1);
      FinishedIsIdle(Alone(sys, me, n), me);
    }
  }

  lemma FinishedIsIdle(sys: System, me: ClientId)
    requires me in sys.clients && sys.clients[me].pc.Done?
    ensures DoStep(sys, me, Delivered) == sys
  {
  }

  /** The end of an undisturbed Put does not depend on how many of its statements were counted. */
  lemma EndIsUnique(sys: System, me: ClientId, done: System, n: nat)
    requires Undisturbed(sys, me, done) && me in done.clients && done.clients[me].pc.Done?
    requires me in Alone(sys, me, n).clients && Alone(sys, me, n).clients[me].pc.Done?
    ensures done == Alone(sys, me, n)
  {
    hide Alone;
    var m: nat :| done == Alone(sys, me, m);
    if m <= n {
      DoneStays(sys, me, m, n);
    } else {
      DoneStays(sys, me, n, m);
    }
  }

  /** What a Put needs of the tables it finds. */
  predicate Acceptable(st: Store, s: Schema) {
    && 1 <= s.version <= 0x7fff_ffff && s.json.Some?
    && (s.typeId in st.latest ==> st.latest[s.typeId].version < s.version)
    && (s.typeId, s.version) !in st.versions
  }

  /** The tables with the caller's version, payload and creation time in both. */
  ghost predicate PublishedIn(st: Store, s: Schema, st': Store) {
    exists row: Row ::
      && row.version == s.version && Some(row.json) == s.json && row.createdAt == s.createdAt
      && st'.versions == st.versions[(s.typeId, s.version) := row] && st'.latest == st.latest[s.typeId := row]
  }

  lemma FiveAlone(sys: System, me: ClientId)
    ensures
      var three := DoStep(DoStep(DoStep(sys, me, Delivered), me, Delivered), me, Delivered);
      Alone(sys, me, 5) == DoStep(DoStep(three, me, Delivered), me, Delivered)
  {
    hide DoStep;
    assert Alone(sys, me, 0) == sys;
    assert Alone(sys, me, 2) == DoStep(Alone(sys, me, 1), me, Delivered);
    assert Alone(sys, me, 4) == DoStep(Alone(sys, me, 3), me, Delivered);
  }

  /** The first two statements refuse the Put or store its version row. */
  lemma InsertAlone(sys: System, me: ClientId, s: Schema, read: System, inserted: System)
    requires me in sys.clients && sys.clients[me].schema == s && sys.clients[me].pc == StartPc(s)
    requires read == DoStep(sys, me, Delivered) && inserted == DoStep(read, me, Delivered)
    ensures me in inserted.clients && inserted.clients[me].schema == s
    ensures !Acceptable(sys.store, s) ==> inserted.clients[me].pc == Done(Invalid) && inserted.store == sys.store
    ensures Acceptable(sys.store, s) ==>
      && inserted.clients[me].pc == InsertLatest
      && inserted.store == sys.store.(versions := sys.store.versions[KeyOf(s) := RowOf(s)])
  {
    assert read.store == sys.store && me in read.clients && read.clients[me].schema == s;
  }

  /** The next three move the pointer. */
  lemma PromoteAlone(sys: System, me: ClientId, s: Schema)
    requires me in sys.clients && sys.clients[me].schema == s && sys.clients[me].pc == InsertLatest && s.json.Some?
    requires s.typeId in sys.store.latest ==> sys.store.latest[s.typeId].version < s.version
    ensures
      var end := DoStep(DoStep(DoStep(sys, me, Delivered), me, Delivered), me, Delivered);
      && me in end.clients && end.clients[me].pc == Done(Success)
      && end.store == sys.store.(latest := sys.store.latest[s.typeId := RowOf(s)])
  {
    var tried := DoStep(sys, me, Delivered);
    assert me in tried.clients && tried.clients[me].schema == s;
    if s.typeId in sys.store.latest {
      assert tried.store == sys.store && tried.clients[me].pc == CasRead(0);
      var read := DoStep(tried, me, Delivered);
      assert read.store == sys.store && read.clients[me].schema == s;
      assert read.clients[me].pc == CasWrite(0, sys.store.latest[s.typeId].version);
    } else {
      FinishedIsIdle(tried, me);
    }
  }

  lemma PublishedByBoth(st: Store, s: Schema, row: Row)
    requires row.version == s.version && Some(row.json) == s.json && row.createdAt == s.createdAt
    ensures PublishedIn(st, s, Store(st.versions[(s.typeId, s.version) := row], st.latest[s.typeId := row]))
  {
  }

  /** A Put that nobody disturbs is over after five statements. It returns success if and only if its tables were
      acceptable, and then it has published the caller's schema and changed nothing else; otherwise it has changed
      nothing at all. */
  lemma AloneSucceedsIff(sys: System, me: ClientId, s: Schema)
    requires me in sys.clients && sys.clients[me].schema == s && sys.clients[me].pc == StartPc(s)
    ensures
      var end := Alone(sys, me, 5);
      && me in end.clients && end.clients[me].pc.Done?
      && (end.clients[me].pc == Done(Success) <==> Acceptable(sys.store, s))
      && if Acceptable(sys.store, s) then PublishedIn(sys.store, s, end.store) else end.store == sys.store
  {
    hide Alone, DoStep, PublishedIn;
    FiveAlone(sys, me);
    var read := DoStep(sys, me, Delivered);
    var inserted := DoStep(read, me, Delivered);
    InsertAlone(sys, me, s, read, inserted);
    if Acceptable(sys.store, s) {
      PromoteAlone(inserted, me, s);
      PublishedByBoth(sys.store, s, RowOf(s));
    } else {
      FinishedIsIdle(inserted, me);
    }
  }

  /** The same of a run from any state of the cluster, whatever other Puts have left behind in it. */
  lemma QuietPutSucceedsIff(sys: System, me: ClientId, s: Schema)
    requires me !in sys.clients
    ensures
      var step := Step(me, Delivered);
      var end := Exec(sys, [Begin(me, s), step, step, step, step, step]);
      && me in end.clients && end.clients[me].pc.Done?
      && (end.clients[me].pc == Done(Success) <==> Acceptable(sys.store, s))
      && if Acceptable(sys.store, s) then PublishedIn(sys.store, s, end.store) else end.store == sys.store
  {
    var step := Step(me, Delivered);
    var begun := Apply(sys, Begin(me, s));
    AloneSucceedsIff(begun, me, s);
    FiveAlone(begun, me);
    hide Acceptable, PublishedIn, Apply, DoStep, Exec, Alone, FaithfulRun, Faithful;
    assert [Begin(me, s), step, step, step, step, step] == [Begin(me, s)] + [step, step, step, step, step];
    FirstThenRest(sys, Begin(me, s), [step, step, step, step, step]);
    FiveSteps(begun, me);
  }

  lemma FiveSteps(sys: System, me: ClientId)
    ensures
      var step := Step(me, Delivered);
      Exec(sys, [step, step, step, step, step]) == Alone(sys, me, 5)
  {
    hide DoStep;
    var step := Step(me, Delivered);
    FiveAlone(sys, me);
    var one := DoStep(sys, me, Delivered);
    var two := DoStep(one, me, Delivered);
    var three := DoStep(two, me, Delivered);
    var four := DoStep(three, me, Delivered);
    hide Alone, Exec, FaithfulRun, Faithful;
    assert [step, step, step, step, step] == [step] + [step, step, step, step];
    assert [step, step, step, step] == [step] + [step, step, step] && [step, step, step] == [step] + [step, step];
    assert [step, step] == [step] + [step] && [step] == [step] + [];
    FirstThenRest(sys, step, [step, step, step, step]);
    FirstThenRest(one, step, [step, step, step]);
    FirstThenRest(two, step, [step, step]);
    FirstThenRest(three, step, [step]);
    FirstThenRest(four, step, []);
    NothingRuns(DoStep(four, me, Delivered));
  }

  // ---------------------------------------------------------------------------------------------
  // What a Put that did not succeed leaves behind
  // ---------------------------------------------------------------------------------------------

  /** The acknowledgement of the version row is lost, or the rollback delete fails. */
  predicate LeavesRow(sys: System, a: Action, me: ClientId) {
    && a.Step? && a.id == me && me in sys.clients
    && var c := sys.clients[me];
       || (c.pc.InsertVersion? && a.reply == LostAck && Applies(sys.store, c.schema, c.pc))
       || (c.pc.Rollback? && a.reply == Failed)
  }

  predicate EverLeavesRow(sys: System, run: seq<Action>, me: ClientId)
    decreases |run|
  {
    run != [] && (LeavesRow(sys, run[0], me) || EverLeavesRow(Apply(sys, run[0]), run[1..], me))
  }

  /** A Put owns no version row before its insert. */
  ghost predicate NoRowYet(sys: System, me: ClientId)
    requires me in sys.clients
  {
    sys.clients[me].pc.SelectLatest? || sys.clients[me].pc.InsertVersion? || Refused(sys, me) ==> !Owns(sys, me)
  }

  predicate Refused(sys: System, me: ClientId) {
    me in sys.clients && sys.clients[me].pc.Done? && sys.clients[me].pc.outcome != Success
  }

  lemma StepLeavesRowIff(sys: System, a: Action, me: ClientId)
    requires Core(sys) && me in sys.clients && NoRowYet(sys, me)
    ensures me in Apply(sys, a).clients
    ensures !LeavesRow(sys, a, me) ==> NoRowYet(Apply(sys, a), me)
    ensures LeavesRow(sys, a, me) ==> Refused(Apply(sys, a), me) && Owns(Apply(sys, a), me)
  {
    hide RowsInv, LoopInv;
    assert OwnershipInv(sys, me);
  }

  /** Nobody deletes a row that was left behind. */
  lemma LeftRowStays(sys: System, a: Action, me: ClientId)
    requires Core(sys) && Refused(sys, me) && Owns(sys, me)
    ensures Refused(Apply(sys, a), me) && Owns(Apply(sys, a), me)
  {
    hide RowsInv, LoopInv;
    if a.Step? && a.id in sys.clients {
      assert OwnershipInv(sys, a.id);
    }
  }

  lemma {:induction false} LeftRowRemains(sys: System, run: seq<Action>, me: ClientId)
    requires Core(sys) && Refused(sys, me) && Owns(sys, me)
    ensures Refused(Exec(sys, run), me) && Owns(Exec(sys, run), me)
    decreases |run|
  {
    hide Core, Refused, Owns, Apply;
    if run != [] {
      LeftRowStays(sys, run[0], me);
      StepKeepsCore(sys, run[0]);
      LeftRowRemains(Apply(sys, run[0]), run[1..], me);
    }
  }

  lemma {:induction false} RunLeavesRowIff(sys: System, run: seq<Action>, me: ClientId)
    requires Core(sys) && me in sys.clients && NoRowYet(sys, me)
    ensures
      var end := Exec(sys, run);
      Refused(end, me) ==> (Owns(end, me) <==> EverLeavesRow(sys, run, me))
    decreases |run|
  {
    hide Core, Owns, Apply, LeavesRow;
    if run != [] {
      var next := Apply(sys, run[0]);
      StepLeavesRowIff(sys, run[0], me);
      StepKeepsCore(sys, run[0]);
      if LeavesRow(sys, run[0], me) {
        LeftRowRemains(next, run[1..], me);
      } else {
        RunLeavesRowIff(next, run[1..], me);
      }
    }
  }

  /** For every run under any driver: a Put that did not succeed has left its version row behind, for good, if and
      only if the acknowledgement of its insert was lost or its rollback delete failed. */
  lemma RefusedPutLeavesRowIff(before: seq<Action>, me: ClientId, s: Schema, run: seq<Action>)
    requires me !in Exec(INIT, before).clients && Refused(Exec(INIT, before + [Begin(me, s)] + run), me)
    ensures
      var begun := Exec(INIT, before + [Begin(me, s)]);
      Owns(Exec(INIT, before + [Begin(me, s)] + run), me) <==> EverLeavesRow(begun, run, me)
  {
    var sys := Exec(INIT, before);
    StartIsCore();
    RunKeepsCore(INIT, before);
    BeginOwnsNothing(sys, me, s);
    StepKeepsCore(sys, Begin(me, s));
    hide Core, Owns, Apply, LeavesRow, EverLeavesRow, Refused;
    ExecConcat(INIT, before, [Begin(me, s)]);
    ExecConcat(INIT, before + [Begin(me, s)], run);
    assert [Begin(me, s)] == [Begin(me, s)] + [];
    FirstThenRest(sys, Begin(me, s), []);
    NothingRuns(Apply(sys, Begin(me, s)));
    RunLeavesRowIff(Apply(sys, Begin(me, s)), run, me);
  }

  lemma BeginOwnsNothing(sys: System, me: ClientId, s: Schema)
    requires Core(sys) && me !in sys.clients
    ensures me in Apply(sys, Begin(me, s)).clients && NoRowYet(Apply(sys, Begin(me, s)), me)
  {
  }

  // ---------------------------------------------------------------------------------------------
  // Put as the source writes it, with arbitrary interference between its statements
  // ---------------------------------------------------------------------------------------------

  predicate OthersOnly(run: seq<Action>, me: ClientId) {
    forall i :: 0 <= i < |run| ==> run[i].id != me
  }

  /** The other clients ran, in any interleaving, between two statements of `me`. */
  ghost predicate Interferes(me: ClientId, sys: System, sys': System) {
    exists run :: OthersOnly(run, me) && sys' == Exec(sys, run)
  }

  /** An adversary: what the rest of the cluster does in the k-th pause of `me`. */
  type Adversary = (nat, System) -> System

  /** Nobody else runs and every statement is answered. */
  ghost predicate Calm(env: Adversary, answers: nat -> Reply) {
    (forall k, sys :: env(k, sys) == sys) && (forall k :: answers(k) == Delivered)
  }

  ghost predicate Admissible(env: Adversary, me: ClientId) {
    forall k, sys :: Interferes(me, sys, env(k, sys))
  }

  lemma {:induction false} OthersLeaveMeAlone(sys: System, run: seq<Action>, me: ClientId)
    requires OthersOnly(run, me) && me in sys.clients
    ensures me in Exec(sys, run).clients && Exec(sys, run).clients[me] == sys.clients[me]
    decreases |run|
  {
    if run == [] {
    } else {
      assert run[0].id != me;
      assert OthersOnly(run[1..], me) by {
        forall i | 0 <= i < |run[1..]|
          ensures run[1..][i].id != me
        {
          assert run[1..][i] == run[i + 1];
        }
      }
      OthersLeaveMeAlone(Apply(sys, run[0]), run[1..], me);
    }
  }

  /** The cluster as one Put sees it.  `trace` is the run so far, kept only for the proof. */
  class Cluster {
    var sys: System
    var clock: nat
    ghost var trace: seq<Action>

    ghost predicate Valid()
      reads this
    {
      sys == Exec(INIT, trace)
    }

    constructor ()
      ensures Valid() && sys == INIT && trace == []
    {
      sys, clock, trace := INIT, 0, [];
    }

    /** The other clients run. */
    method Pause(me: ClientId, env: Adversary)
      requires Valid() && Admissible(env, me) && me in sys.clients
      modifies this
      ensures Valid() && old(trace) <= trace
      ensures me in sys.clients && sys.clients[me] == old(sys).clients[me]
      ensures sys == env(old(clock), old(sys))
    {
      ghost var run :| OthersOnly(run, me) && env(clock, sys) == Exec(sys, run);
      OthersLeaveMeAlone(sys, run, me);
      ExecConcat(INIT, trace, run);
      trace := trace + run;
      sys, clock := env(clock, sys), clock + 1;
    }

    /** One statement of `me`, with any of the driver's answers. */
    method Send(me: ClientId, answers: nat -> Reply) returns (ok: bool, ghost reply: Reply)
      requires Valid() && me in sys.clients
      modifies this
      ensures Valid() && old(trace) <= trace
      ensures sys == DoStep(old(sys), me, reply) && ok == (reply == Delivered) && reply == answers(old(clock))
    {
      var answer := answers(clock);
      reply := answer;
      ok := answer == Delivered;
      ExecConcat(INIT, trace, [Step(me, answer)]);
      assert [Step(me, answer)][1..] == [];
      assert Exec(sys, [Step(me, answer)]) == Apply(sys, Step(me, answer));
      trace := trace + [Step(me, answer)];
      sys, clock := DoStep(sys, me, answer), clock + 1;
    }

    /** selectLatestRaw */
    method SelectLatestRaw(me: ClientId, t: TypeId, env: Adversary, answers: nat -> Reply, ghost start: System)
      returns (ok: bool, row: Option<Row>)
      requires Valid() && Admissible(env, me) && me in sys.clients
      requires sys.clients[me].schema.typeId == t
      requires Reads(sys.clients[me].pc)
      modifies this
      ensures Valid() && old(trace) <= trace && me in sys.clients
      ensures sys.clients[me].schema == old(sys).clients[me].schema
      ensures sys.clients[me].pc == AfterRead(old(sys).clients[me].schema, old(sys).clients[me].pc, ok, row)
      ensures Calm(env, answers) && Undisturbed(start, me, old(sys)) ==> Undisturbed(start, me, sys)
    {
      ghost var before := sys;
      Pause(me, env);
      row := LatestRow(sys.store, t);
      ghost var reply;
      ok, reply := Send(me, answers);
      if Calm(env, answers) && Undisturbed(start, me, before) {
        OneMoreAlone(start, me, before);
      }
    }

    /** A lightweight transaction (MapScanCAS) or the plain delete. */
    method Write(me: ClientId, env: Adversary, answers: nat -> Reply, ghost start: System)
      returns (ok: bool, applied: bool)
      requires Valid() && Admissible(env, me) && me in sys.clients
      requires !Reads(sys.clients[me].pc) && !sys.clients[me].pc.Done?
      modifies this
      ensures Valid() && old(trace) <= trace && me in sys.clients
      ensures sys.clients[me].schema == old(sys).clients[me].schema
      ensures sys.clients[me].pc == AfterWrite(old(sys).clients[me].pc, ok, applied)
      ensures Calm(env, answers) && Undisturbed(start, me, old(sys)) ==> Undisturbed(start, me, sys)
    {
      ghost var before := sys;
      Pause(me, env);
      applied := Applies(sys.store, sys.clients[me].schema, sys.clients[me].pc);
      ghost var reply;
      ok, reply := Send(me, answers);
      if Calm(env, answers) && Undisturbed(start, me, before) {
        OneMoreAlone(start, me, before);
      }
    }

    /** promoteLatest: INSERT IF NOT EXISTS, then up to eight read-and-CAS attempts.  It ends
        in success or before the rollback delete with that cause. */
    method PromoteLatest(me: ClientId, schema: Schema, env: Adversary, answers: nat -> Reply, ghost start: System)
      returns (out: Outcome)
      requires Valid() && Admissible(env, me) && me in sys.clients
      requires sys.clients[me].schema == schema && sys.clients[me].pc == InsertLatest
      modifies this
      ensures Valid() && old(trace) <= trace && me in sys.clients && sys.clients[me].schema == schema
      ensures sys.clients[me].pc == if out == Success then Done(Success) else Rollback(out)
      ensures Calm(env, answers) && Undisturbed(start, me, old(sys)) ==> Undisturbed(start, me, sys)
    {
      hide Calm, Undisturbed;
      var ok, applied := Write(me, env, answers, start);
      if !ok {
        return Backend;
      }
      if applied {
        return Success;
      }
      var attempt := 0;
      while attempt < MAX_ATTEMPTS
        invariant 0 <= attempt <= MAX_ATTEMPTS
        invariant Valid() && old(trace) <= trace && me in sys.clients && sys.clients[me].schema == schema
        invariant Calm(env, answers) && Undisturbed(start, me, old(sys)) ==> Undisturbed(start, me, sys)
        invariant sys.clients[me].pc ==
          if attempt < MAX_ATTEMPTS then CasRead(attempt) else Rollback(NotConverged)
      {
        var read, current := SelectLatestRaw(me, schema.typeId, env, answers, start);
        if !read {
          return Backend;
        }
        if current.None? {
          attempt := attempt + 1;
          continue;
        }
        if schema.version <= current.value.version {
          return Invalid;
        }
        ok, applied := Write(me, env, answers, start);
        if !ok {
          return Backend;
        }
        if applied {
          return Success;
        }
        attempt := attempt + 1;
      }
      return NotConverged;
    }

    /** The statements of Put.  The client ends with the answer, and `start` is where it would be had it run alone. */
    method PutStatements(me: ClientId, schema: Schema, env: Adversary, answers: nat -> Reply, ghost start: System)
      returns (out: Outcome)
      requires Valid() && Admissible(env, me) && me in sys.clients
      requires sys.clients[me].schema == schema && sys.clients[me].pc == StartPc(schema)
      modifies this
      ensures Valid() && old(trace) <= trace
      ensures me in sys.clients && sys.clients[me].schema == schema && sys.clients[me].pc == Done(out)
      ensures Calm(env, answers) && Undisturbed(start, me, old(sys)) ==> Undisturbed(start, me, sys)
    {
      hide Core, OthersOnly, Admissible, Applies, Calm, Undisturbed;
      if !ValidVersion(schema.version) {
        return Invalid;
      }
      var read, current := SelectLatestRaw(me, schema.typeId, env, answers, start);
      if !read {
        return Backend;
      }
      if current.Some? && schema.version <= current.value.version {
        return Invalid;
      }
      if schema.json.None? {
        return Invalid;
      }
      var ok, applied := Write(me, env, answers, start);
      if !ok {
        return Backend;
      }
      if !applied {
        return Invalid;
      }
      out := PromoteLatest(me, schema, env, answers, start);
      if out != Success {
        ok, applied := Write(me, env, answers, start);
      }
    }

    /** Put, against any adversary and any answers of the driver, lost acknowledgements included: it is a run of the
        protocol, and a Success leaves the caller's version, payload and creation time published.  When nobody
        disturbs it, it succeeds if and only if the tables it finds are acceptable, and a refusal changes nothing. */
    method Put(me: ClientId, schema: Schema, env: Adversary, answers: nat -> Reply) returns (out: Outcome)
      requires Valid() && Admissible(env, me) && me !in sys.clients
      modifies this
      ensures Valid() && old(trace) <= trace
      ensures me in sys.clients && sys.clients[me].schema == schema && sys.clients[me].pc == Done(out)
      ensures out == Success ==>
        var key, st := (schema.typeId, schema.version), sys.store;
        && key in st.versions && st.versions[key].version == schema.version
        && Some(st.versions[key].json) == schema.json && st.versions[key].createdAt == schema.createdAt
        && schema.typeId in st.latest && schema.version <= st.latest[schema.typeId].version
      ensures Calm(env, answers) ==>
        && (out == Success <==> Acceptable(old(sys).store, schema))
        && if out == Success then PublishedIn(old(sys).store, schema, sys.store) else sys.store == old(sys).store
    {
      hide Core, OthersOnly, Admissible, Calm, Undisturbed, Alone, DoStep, Acceptable, PublishedIn;
      ExecConcat(INIT, trace, [Begin(me, schema)]);
      assert [Begin(me, schema)][1..] == [];
      assert Exec(sys, [Begin(me, schema)]) == Apply(sys, Begin(me, schema));
      trace := trace + [Begin(me, schema)];
      sys := Apply(sys, Begin(me, schema));
      ghost var begun := sys;
      NothingAlone(begun, me);
      out := PutStatements(me, schema, env, answers, begun);
      if out == Success {
        StartIsCore();
        RunKeepsCore(INIT, trace);
        SuccessIsPublished(sys, me);
      }
      AloneSucceedsIff(begun, me, schema);
      if Calm(env, answers) {
        EndIsUnique(begun, me, sys, 5);
      }
    }
  }

  lemma StartIsCore()
    ensures Core(INIT)
  {
  }
}
