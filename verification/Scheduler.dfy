/**
 The scheduler tick (libs/event-scheduler/scheduler.go): concurrent runners claim due rows with FOR UPDATE
 SKIP LOCKED, publish, and advance the row in one transaction per row.

 Every statement and the publish are atomic steps; any number of runners interleave, may fail at any
 statement and may crash at any point.  A row lock is held from the claim to the end of the transaction.
 Instants are in nanoseconds.
 */
module Scheduler {
  import opened Common
  import opened CronSchedule
  import opened NextFire

  const NANOS := 1_000_000_000

  type Id = nat
  type RunnerId = nat

  /** The parsed cron expression and its zone. */
  datatype Plan = Plan(schedule: Schedule, zone: Zone)

  /** A row of schedules.definitions; `plan` is None when flavor, zone or expression is invalid. */
  datatype Def = Def(plan: Option<Plan>, enabled: bool, nextRunAt: int, lastRunAt: Option<int>)

  /** Where a runner is within the transaction of one row. */
  datatype Phase =
    | Idle
    | Claimed(id: Id, due: int)
    | Computed(id: Id, due: int, next: int)
    | Published(id: Id, due: int, next: int)
    | Updated(id: Id, due: int, next: int)
    | Stopped

  /** `now` is the instant the runner's Tick was given. */
  datatype Runner = Runner(now: Instant, phase: Phase)

  datatype Message = Message(id: Id, due: int)

  datatype Fire = Fire(id: Id, due: int, next: int, now: Instant, runner: RunnerId)

  /** `published` is what the broker accepted, `committed` what the database committed, in order. */
  datatype System = System(
    rows: map<Id, Def>, runners: map<RunnerId, Runner>,
    published: seq<Message>, committed: seq<Fire>)

  /** The broker accepts, refuses, or accepts without the runner learning it. */
  datatype Delivery = Acked | Refused | Unknown

  datatype Action =
    | StartTick(r: RunnerId, now: Instant)
    | Claim(r: RunnerId, id: Id)
    | Compute(r: RunnerId, answer: Option<int>)
    | Publish(r: RunnerId, delivery: Delivery)
    | Update(r: RunnerId, works: bool)
    | Commit(r: RunnerId, works: bool)
    | Stop(r: RunnerId)
    | Add(id: Id, def: Def)
    | SetEnabled(id: Id, enabled: bool)

  // ---------------------------------------------------------------------------------------------
  // Steps
  // ---------------------------------------------------------------------------------------------

  function Stamp(t: Instant): int {
    t.seconds * NANOS + t.nanos
  }

  predicate Holds(p: Phase) {
    p.Claimed? || p.Computed? || p.Published? || p.Updated?
  }

  /** The runner's open transaction holds the row lock of `id`. */
  predicate HoldsRow(sys: System, r: RunnerId, id: Id) {
    r in sys.runners && Holds(sys.runners[r].phase) && sys.runners[r].phase.id == id
  }

  predicate Locked(sys: System, id: Id) {
    exists r | r in sys.runners :: HoldsRow(sys, r, id)
  }

  predicate Due(def: Def, now: Instant) {
    def.enabled && def.nextRunAt <= Stamp(now)
  }

  predicate Claimable(sys: System, id: Id, now: Instant) {
    id in sys.rows && Due(sys.rows[id], now) && !Locked(sys, id)
  }

  function InPhase(sys: System, r: RunnerId, p: Phase): System
    requires r in sys.runners
  {
    sys.(runners := sys.runners[r := sys.runners[r].(phase := p)])
  }

  /** One step of a runner that exists. */
  function RunnerStep(sys: System, a: Action): System
    requires !a.Add? && !a.SetEnabled? && a.r in sys.runners
  {
    var me := sys.runners[a.r];
    var p := me.phase;
    match a
    case StartTick(r, now) => if p.Stopped? then sys.(runners := sys.runners[r := Runner(now, Idle)]) else sys
    case Claim(r, id) =>
      if p.Idle? && Claimable(sys, id, me.now) then InPhase(sys, r, Claimed(id, sys.rows[id].nextRunAt)) else sys
    case Compute(r, answer) =>
      if !p.Claimed? then sys
      else InPhase(sys, r, if answer.None? then Stopped else Computed(p.id, p.due, answer.value * NANOS))
    case Publish(r, delivery) =>
      if !p.Computed? then sys else
      var sent := if delivery == Refused then sys else sys.(published := sys.published + [Message(p.id, p.due)]);
      InPhase(sent, r, if delivery == Acked then Published(p.id, p.due, p.next) else Stopped)
    case Update(r, works) =>
      if !p.Published? then sys else InPhase(sys, r, if works then Updated(p.id, p.due, p.next) else Stopped)
    case Commit(r, works) =>
      if !p.Updated? then sys
      else if !works || p.id !in sys.rows then InPhase(sys, r, Stopped)
      else
        var written := sys.(
          rows := sys.rows[p.id := sys.rows[p.id].(nextRunAt := p.next, lastRunAt := Some(p.due))],
          committed := sys.committed + [Fire(p.id, p.due, p.next, me.now, r)]);
        InPhase(written, r, Idle)
    case Stop(r) => InPhase(sys, r, Stopped)
  }

  function Step(sys: System, a: Action): System {
    match a
    case Add(id, def) => if id in sys.rows then sys else sys.(rows := sys.rows[id := def.(lastRunAt := None)])
    case SetEnabled(id, enabled) =>
      if id !in sys.rows || Locked(sys, id) then sys
      else sys.(rows := sys.rows[id := sys.rows[id].(enabled := enabled)])
    case StartTick(r, now) =>
      if r !in sys.runners then sys.(runners := sys.runners[r := Runner(now, Idle)]) else RunnerStep(sys, a)
    case _ => if a.r in sys.runners then RunnerStep(sys, a) else sys
  }

  /** Clocks are well formed, and the next fire is the one the cron evaluator computes from `now`. */
  ghost predicate Legal(sys: System, a: Action) {
    match a
    case StartTick(_, now) => now.nanos < NANOS
    case Compute(r, answer) =>
      r in sys.runners && sys.runners[r].phase.Claimed? && sys.runners[r].phase.id in sys.rows ==>
        IsNextFire(sys.rows[sys.runners[r].phase.id], sys.runners[r].now, answer)
    case _ => true
  }

  /** ComputeNextFire */
  ghost predicate IsNextFire(def: Def, now: Instant, answer: Option<int>) {
    if def.plan.None? then answer.None? else IsAnswer(def.plan.value.schedule, def.plan.value.zone, now, answer)
  }

  function Exec(sys: System, run: seq<Action>): System
    decreases |run|
  {
    if run == [] then sys else Exec(Step(sys, run[0]), run[1..])
  }

  ghost predicate LegalRun(sys: System, run: seq<Action>)
    decreases |run|
  {
    run != [] ==> Legal(sys, run[0]) && LegalRun(Step(sys, run[0]), run[1..])
  }

  const INIT := System(map[], map[], [], [])

  // ---------------------------------------------------------------------------------------------
  // The invariant
  // ---------------------------------------------------------------------------------------------

  /** What a runner's transaction knows about the row it locked. */
  ghost predicate RunnerInv(sys: System, r: RunnerId)
    requires r in sys.runners
  {
    var me := sys.runners[r];
    var p := me.phase;
    && me.now.nanos < NANOS
    && (Holds(p) ==> p.id in sys.rows && Due(sys.rows[p.id], me.now) && sys.rows[p.id].nextRunAt == p.due)
    && (p.Computed? || p.Published? || p.Updated? ==> Stamp(me.now) < p.next)
    && (p.Published? || p.Updated? ==> Message(p.id, p.due) in sys.published)
  }

  /** No row is locked twice. */
  ghost predicate LockInv(sys: System) {
    forall r, q, id :: HoldsRow(sys, r, id) && HoldsRow(sys, q, id) ==> r == q
  }

  /** A commit fires a published instant that was due, and moves the row past its clock; the commits of
      one schedule follow each other. */
  ghost predicate FireInv(sys: System, i: nat)
    requires i < |sys.committed|
  {
    var f := sys.committed[i];
    && f.due <= Stamp(f.now) < f.next
    && Message(f.id, f.due) in sys.published
    && f.id in sys.rows && f.next <= sys.rows[f.id].nextRunAt
    && forall j :: i < j < |sys.committed| && sys.committed[j].id == f.id ==> f.next <= sys.committed[j].due
  }

  function LastFire(log: seq<Fire>, id: Id): Option<Fire>
    decreases |log|
  {
    if log == [] then None
    else if log[|log| - 1].id == id then Some(log[|log| - 1])
    else LastFire(log[..|log| - 1], id)
  }

  /** The row's two time columns are those of its last commit. */
  ghost predicate RowInv(sys: System, id: Id)
    requires id in sys.rows
  {
    var last := LastFire(sys.committed, id);
    if last.None? then sys.rows[id].lastRunAt.None?
    else sys.rows[id].lastRunAt == Some(last.value.due) && sys.rows[id].nextRunAt == last.value.next
  }

  ghost predicate Inv(sys: System) {
    && LockInv(sys)
    && (forall r :: r in sys.runners ==> RunnerInv(sys, r))
    && (forall i :: 0 <= i < |sys.committed| ==> FireInv(sys, i))
    && (forall id :: id in sys.rows ==> RowInv(sys, id))
  }

  lemma NextIsPastNow(def: Def, now: Instant, u: int)
    requires IsNextFire(def, now, Some(u)) && now.nanos < NANOS
    ensures Stamp(now) < u * NANOS
  {
    assert u > now.seconds;
  }

  lemma {:induction false} LastFireAt(log: seq<Fire>, id: Id) returns (i: nat)
    requires LastFire(log, id).Some?
    ensures i < |log| && log[i].id == id && LastFire(log, id) == Some(log[i])
    decreases |log|
  {
    if log[|log| - 1].id == id {
      i := |log| - 1;
    } else {
      i := LastFireAt(log[..|log| - 1], id);
    }
  }

  lemma LastFireGrows(log: seq<Fire>, f: Fire, id: Id)
    ensures LastFire(log + [f], id) == if f.id == id then Some(f) else LastFire(log, id)
  {
    assert (log + [f])[..|log|] == log;
  }

  lemma StepKeepsLocks(sys: System, a: Action)
    requires LockInv(sys)
    ensures LockInv(Step(sys, a))
  {
    var sys' := Step(sys, a);
    forall r, q, id | HoldsRow(sys', r, id) && HoldsRow(sys', q, id)
      ensures r == q
    {
      assert HoldsRow(sys, r, id) || (a == Claim(r, id) && !Locked(sys, id));
      assert HoldsRow(sys, q, id) || (a == Claim(q, id) && !Locked(sys, id));
    }
  }

  /** Only its holder changes a locked row. */
  lemma LockedRowStays(sys: System, a: Action, r: RunnerId, id: Id)
    requires LockInv(sys) && HoldsRow(sys, r, id) && id in sys.rows
    requires (a.Add? || a.SetEnabled? || a.r != r)
    ensures id in Step(sys, a).rows && Step(sys, a).rows[id] == sys.rows[id]
  {
    assert Locked(sys, id);
    if !a.Add? && !a.SetEnabled? && HoldsRow(sys, a.r, id) {
      assert false;
    }
  }

  lemma StepKeepsRunner(sys: System, a: Action, r: RunnerId)
    requires LockInv(sys) && Legal(sys, a) && r in Step(sys, a).runners
    requires r in sys.runners ==> RunnerInv(sys, r)
    ensures RunnerInv(Step(sys, a), r)
  {
    hide IsNextFire;
    var sys' := Step(sys, a);
    assert sys.published <= sys'.published;
    if r in sys.runners {
      var p := sys.runners[r].phase;
      if a.Add? || a.SetEnabled? || a.r != r {
        assert sys'.runners[r] == sys.runners[r];
        if Holds(p) {
          LockedRowStays(sys, a, r, p.id);
        }
      } else if a.Compute? && p.Claimed? && a.answer.Some? {
        NextIsPastNow(sys.rows[p.id], sys.runners[r].now, a.answer.value);
      } else if a.Publish? && a.delivery == Acked && p.Computed? {
        assert sys'.published[|sys.published|] == Message(p.id, p.due);
      }
    }
  }

  lemma StepKeepsFire(sys: System, a: Action, i: nat)
    requires i < |sys.committed| && FireInv(sys, i)
    requires forall r :: r in sys.runners ==> RunnerInv(sys, r)
    ensures i < |Step(sys, a).committed| && FireInv(Step(sys, a), i)
  {
    var sys' := Step(sys, a);
    assert sys.published <= sys'.published && sys.committed <= sys'.committed;
    var f := sys.committed[i];
    if a.Commit? && a.r in sys.runners {
      assert RunnerInv(sys, a.r);
      forall j | i < j < |sys'.committed| && sys'.committed[j].id == f.id
        ensures f.next <= sys'.committed[j].due
      {
        if j < |sys.committed| {
          assert sys'.committed[j] == sys.committed[j];
        }
      }
    }
  }

  lemma NewFire(sys: System, a: Action)
    requires forall r :: r in sys.runners ==> RunnerInv(sys, r)
    requires |Step(sys, a).committed| > |sys.committed|
    ensures |Step(sys, a).committed| == |sys.committed| + 1 && FireInv(Step(sys, a), |sys.committed|)
  {
    assert RunnerInv(sys, a.r);
  }

  lemma FiredRowsExist(sys: System, id: Id)
    requires forall i :: 0 <= i < |sys.committed| ==> FireInv(sys, i)
    requires LastFire(sys.committed, id).Some?
    ensures id in sys.rows
  {
    var i := LastFireAt(sys.committed, id);
    assert FireInv(sys, i);
  }

  lemma StepKeepsRow(sys: System, a: Action, id: Id)
    requires id in Step(sys, a).rows
    requires id in sys.rows ==> RowInv(sys, id)
    requires forall i :: 0 <= i < |sys.committed| ==> FireInv(sys, i)
    ensures RowInv(Step(sys, a), id)
  {
    hide LastFire;
    var sys' := Step(sys, a);
    if id !in sys.rows {
      if LastFire(sys.committed, id).Some? {
        FiredRowsExist(sys, id);
      }
    } else if a.Commit? && a.r in sys.runners && sys.runners[a.r].phase.Updated? {
      var p, me := sys.runners[a.r].phase, sys.runners[a.r];
      LastFireGrows(sys.committed, Fire(p.id, p.due, p.next, me.now, a.r), id);
    }
  }

  lemma StepKeepsInv(sys: System, a: Action)
    requires Inv(sys) && Legal(sys, a)
    ensures Inv(Step(sys, a))
  {
    var sys' := Step(sys, a);
    StepKeepsLocks(sys, a);
    hide LockInv, RunnerInv, FireInv, RowInv, Step, Legal;
    forall r | r in sys'.runners
      ensures RunnerInv(sys', r)
    {
      StepKeepsRunner(sys, a, r);
    }
    forall i | 0 <= i < |sys'.committed|
      ensures FireInv(sys', i)
    {
      if i < |sys.committed| {
        StepKeepsFire(sys, a, i);
      } else {
        NewFire(sys, a);
      }
    }
    forall id | id in sys'.rows
      ensures RowInv(sys', id)
    {
      StepKeepsRow(sys, a, id);
    }
  }

  /** What no step takes back: rows stay, and their next run only moves forward. */
  ghost predicate Later(sys: System, sys': System) {
    && sys.published <= sys'.published && sys.committed <= sys'.committed
    && forall id :: id in sys.rows ==> id in sys'.rows && sys.rows[id].nextRunAt <= sys'.rows[id].nextRunAt
  }

  lemma StepMovesForward(sys: System, a: Action)
    requires Inv(sys)
    ensures Later(sys, Step(sys, a))
  {
    hide LockInv, FireInv, RowInv, Locked;
    if a.Commit? && a.r in sys.runners {
      assert RunnerInv(sys, a.r);
    }
  }

  // ---------------------------------------------------------------------------------------------
  // Whole runs
  // ---------------------------------------------------------------------------------------------

  lemma {:induction false} RunKeepsInv(sys: System, run: seq<Action>)
    requires Inv(sys) && LegalRun(sys, run)
    ensures Inv(Exec(sys, run)) && Later(sys, Exec(sys, run))
    decreases |run|
  {
    hide Inv, Step, Legal;
    if run != [] {
      var next := Step(sys, run[0]);
      StepKeepsInv(sys, run[0]);
      StepMovesForward(sys, run[0]);
      RunKeepsInv(next, run[1..]);
      forall id | id in sys.rows
        ensures id in Exec(next, run[1..]).rows && sys.rows[id].nextRunAt <= Exec(next, run[1..]).rows[id].nextRunAt
      {
        assert id in next.rows;
      }
    }
  }

  lemma {:induction false} ExecConcat(sys: System, first: seq<Action>, second: seq<Action>)
    ensures Exec(sys, first + second) == Exec(Exec(sys, first), second)
    ensures LegalRun(sys, first + second) <==> LegalRun(sys, first) && LegalRun(Exec(sys, first), second)
    decreases |first|
  {
    hide Step, Legal;
    if first == [] {
      assert first + second == second;
    } else {
      assert (first + second)[0] == first[0] && (first + second)[1..] == first[1..] + second;
      ExecConcat(Step(sys, first[0]), first[1..], second);
    }
  }

  /** For every interleaving of ticks, failures and crashes: each due instant of a schedule is committed
      at most once, and only after it was published. */
  lemma DueCommittedOnce(run: seq<Action>, i: nat, j: nat)
    requires LegalRun(INIT, run) && i < j < |Exec(INIT, run).committed|
    ensures
      var sys := Exec(INIT, run);
      && Message(sys.committed[i].id, sys.committed[i].due) in sys.published
      && (sys.committed[i].id == sys.committed[j].id ==> sys.committed[i].due < sys.committed[j].due)
  {
    hide Exec, LegalRun;
    RunKeepsInv(INIT, run);
    assert FireInv(Exec(INIT, run), i);
  }

  lemma CommittedWasPublished(run: seq<Action>, i: nat)
    requires LegalRun(INIT, run) && i < |Exec(INIT, run).committed|
    ensures
      var sys := Exec(INIT, run);
      var f := sys.committed[i];
      Message(f.id, f.due) in sys.published && f.due <= Stamp(f.now) < f.next
  {
    hide Exec, LegalRun;
    RunKeepsInv(INIT, run);
    assert FireInv(Exec(INIT, run), i);
  }

  /** Between any two moments of a run a row's next run moves forward only by committed fires, each past
      its runner's clock, and the row shows the last of them. */
  lemma NextRunMovesForward(first: seq<Action>, second: seq<Action>, id: Id)
    requires LegalRun(INIT, first + second) && id in Exec(INIT, first).rows
    ensures
      var before, after := Exec(INIT, first), Exec(INIT, first + second);
      && id in after.rows && before.committed <= after.committed
      && before.rows[id].nextRunAt <= after.rows[id].nextRunAt
      && var last := LastFire(after.committed, id);
         last.Some? ==>
           && after.rows[id].nextRunAt == last.value.next && after.rows[id].lastRunAt == Some(last.value.due)
           && last.value.due <= Stamp(last.value.now) < last.value.next
  {
    ExecConcat(INIT, first, second);
    hide Exec, LegalRun, LastFire;
    RunKeepsInv(INIT, first);
    RunKeepsInv(Exec(INIT, first), second);
    var after := Exec(INIT, first + second);
    assert RowInv(after, id);
    if LastFire(after.committed, id).Some? {
      var i := LastFireAt(after.committed, id);
      assert FireInv(after, i);
    }
  }
}
