/**
 Tick as the source writes it (libs/event-scheduler/scheduler.go:58-159), with other runners at work between
 its statements: it terminates because every iteration removes one due row.
 */
module SchedulerTick {
  import opened Common
  import opened NextFire
  import opened Scheduler
  import IdOrder

  // ---------------------------------------------------------------------------------------------
  // Interference
  // ---------------------------------------------------------------------------------------------

  /** A step of another runner, or an administrator disabling a schedule. */
  predicate Foreign(a: Action, me: RunnerId) {
    match a
    case Add(_, _) => false
    case SetEnabled(_, enabled) => !enabled
    case _ => a.r != me
  }

  predicate AllForeign(run: seq<Action>, me: RunnerId) {
    forall i :: 0 <= i < |run| ==> Foreign(run[i], me)
  }

  function DueIds(sys: System, now: Instant): set<Id> {
    set id | id in sys.rows && Due(sys.rows[id], now)
  }

  /** How many commits a runner made. */
  function Commits(log: seq<Fire>, me: RunnerId): nat
    decreases |log|
  {
    if log == [] then 0 else
    var n := |log| - 1;
    Commits(log[..n], me) + if log[n].runner == me then 1 else 0
  }

  lemma CommitsGrow(log: seq<Fire>, f: Fire, me: RunnerId)
    ensures Commits(log + [f], me) == Commits(log, me) + if f.runner == me then 1 else 0
  {
    assert (log + [f])[..|log|] == log;
  }

  /** What other runners leave alone: my transaction and my commits; and they never make a row due. */
  ghost predicate Undisturbed(me: RunnerId, sys: System, sys': System) {
    && me in sys.runners && me in sys'.runners && sys'.runners[me] == sys.runners[me]
    && Commits(sys'.committed, me) == Commits(sys.committed, me)
    && DueIds(sys', sys.runners[me].now) <= DueIds(sys, sys.runners[me].now)
  }

  lemma ForeignStep(sys: System, a: Action, me: RunnerId)
    requires Inv(sys) && Foreign(a, me) && me in sys.runners
    ensures Undisturbed(me, sys, Step(sys, a))
  {
    StepMovesForward(sys, a);
    hide Inv, Commits, Locked;
    if a.Commit? && a.r in sys.runners && sys.runners[a.r].phase.Updated? {
      var p, other := sys.runners[a.r].phase, sys.runners[a.r];
      CommitsGrow(sys.committed, Fire(p.id, p.due, p.next, other.now, a.r), me);
    }
  }

  lemma {:induction false} ForeignRun(sys: System, run: seq<Action>, me: RunnerId)
    requires Inv(sys) && LegalRun(sys, run) && AllForeign(run, me) && me in sys.runners
    ensures Undisturbed(me, sys, Exec(sys, run))
    decreases |run|
  {
    hide Inv, Step, Legal, Commits, DueIds, Foreign;
    if run != [] {
      StepKeepsInv(sys, run[0]);
      ForeignStep(sys, run[0], me);
      assert AllForeign(run[1..], me) by {
        forall i | 0 <= i < |run[1..]|
          ensures Foreign(run[1..][i], me)
        {
          assert run[1..][i] == run[i + 1];
        }
      }
      ForeignRun(Step(sys, run[0]), run[1..], me);
    }
  }

  /** What the other runners do in the k-th pause of `me`. */
  type Adversary = (nat, System) -> seq<Action>

  ghost predicate Admissible(env: Adversary, me: RunnerId) {
    forall k, sys :: AllForeign(env(k, sys), me) && LegalRun(sys, env(k, sys))
  }

  // ---------------------------------------------------------------------------------------------
  // The claim query
  // ---------------------------------------------------------------------------------------------

  /** id is a first answer of the claim query: due, enabled, unlocked, and none such is due earlier. */
  ghost predicate FirstClaimable(sys: System, id: Id, now: Instant) {
    && Claimable(sys, id, now)
    && forall other :: Claimable(sys, other, now) ==> sys.rows[id].nextRunAt <= sys.rows[other].nextRunAt
  }

  /** SELECT ... WHERE enabled AND next_run_at <= now ORDER BY next_run_at LIMIT 1 FOR UPDATE SKIP LOCKED */
  method SelectDue(sys: System, now: Instant) returns (r: Option<Id>)
    ensures r.Some? ==> FirstClaimable(sys, r.value, now)
    ensures r.None? ==> forall id :: !Claimable(sys, id, now)
    ensures r.None? ==> forall id ::
      id in sys.rows && sys.rows[id].enabled && sys.rows[id].nextRunAt <= now.seconds * 1_000_000_000 + now.nanos ==>
        Locked(sys, id)
  {
    hide Locked;
    r := None;
    var todo := sys.rows.Keys;
    while todo != {}
      invariant todo <= sys.rows.Keys
      invariant r.Some? ==> Claimable(sys, r.value, now)
      invariant forall id :: id !in todo && Claimable(sys, id, now) ==>
        r.Some? && sys.rows[r.value].nextRunAt <= sys.rows[id].nextRunAt
      decreases |todo|
    {
      var id :| id in todo;
      todo := todo - {id};
      if Claimable(sys, id, now) && (r.None? || sys.rows[id].nextRunAt < sys.rows[r.value].nextRunAt) {
        r := Some(id);
      }
    }
  }

  // ---------------------------------------------------------------------------------------------
  // An undisturbed tick
  // ---------------------------------------------------------------------------------------------

  /** The other runners do nothing during the tick. */
  ghost predicate Still(env: Adversary) {
    forall k, sys :: env(k, sys) == []
  }

  /** The row after a fire: moved to a next fire that the cron evaluator gives for `now`, stamped with its old one. */
  ghost predicate Fired(row: Def, row': Def, now: Instant) {
    && row' == row.(nextRunAt := row'.nextRunAt, lastRunAt := Some(row.nextRunAt))
    && exists u :: IsNextFire(row, now, Some(u)) && row'.nextRunAt == u * 1_000_000_000
  }

  /** Every due row is free and has a next fire. */
  ghost predicate Ready(sys: System, now: Instant) {
    forall id :: id in DueIds(sys, now) ==>
      !Locked(sys, id) && exists u :: IsNextFire(sys.rows[id], now, Some(u))
  }

  predicate Sent(sent: seq<Message>, id: Id) {
    exists k :: 0 <= k < |sent| && sent[k].id == id
  }

  /** Due rows of `start`, each at most once, with their due instants, earliest first. */
  ghost predicate InOrder(start: System, now: Instant, sent: seq<Message>) {
    && (forall k :: 0 <= k < |sent| ==>
          sent[k].id in DueIds(start, now) && sent[k].due == start.rows[sent[k].id].nextRunAt)
    && (forall i, k :: 0 <= i < k < |sent| ==> sent[i].id != sent[k].id && sent[i].due <= sent[k].due)
  }

  /** The rows whose message was sent have fired, and all others are as they were. */
  ghost predicate RowsFired(start: System, sys: System, now: Instant, sent: seq<Message>) {
    && sys.rows.Keys == start.rows.Keys
    && forall id :: id in start.rows ==>
         if Sent(sent, id) then Fired(start.rows[id], sys.rows[id], now) else sys.rows[id] == start.rows[id]
  }

  /** The tick is between two rows. */
  ghost predicate Progress(start: System, sys: System, me: RunnerId, now: Instant, sent: seq<Message>) {
    && sys.runners == start.runners[me := Runner(now, Idle)]
    && InOrder(start, now, sent) && RowsFired(start, sys, now, sent) && sys.published == start.published + sent
    && forall k, id :: 0 <= k < |sent| && id in DueIds(sys, now) ==> sent[k].due <= sys.rows[id].nextRunAt
  }

  /** All due rows have fired, earliest first, each with one message; nothing else has changed. */
  ghost predicate AllFired(start: System, end: System, now: Instant, fired: nat) {
    exists sent :: AllSent(start, end, now, sent) && |sent| == fired == |DueIds(start, now)|
  }

  ghost predicate AllSent(start: System, end: System, now: Instant, sent: seq<Message>) {
    && InOrder(start, now, sent) && (forall id :: id in DueIds(start, now) ==> Sent(sent, id))
    && RowsFired(start, end, now, sent) && end.published == start.published + sent
  }

  lemma FiredIsNotDue(row: Def, row': Def, now: Instant)
    requires Fired(row, row', now) && now.nanos < NANOS
    ensures !Due(row', now)
  {
    hide IsNextFire;
    var u :| IsNextFire(row, now, Some(u)) && row'.nextRunAt == u * NANOS;
    NextIsPastNow(row, now, u);
  }

  /** What is still due was due from the start, has not fired, and is as free as it was. */
  lemma StillDue(start: System, sys: System, me: RunnerId, now: Instant, sent: seq<Message>, id: Id)
    requires Progress(start, sys, me, now, sent) && now.nanos < NANOS && id in DueIds(sys, now)
    requires me in start.runners ==> start.runners[me].phase == Stopped
    ensures id in DueIds(start, now) && !Sent(sent, id) && sys.rows[id] == start.rows[id]
    ensures Locked(sys, id) ==> Locked(start, id)
  {
    hide Fired;
    if Sent(sent, id) {
      FiredIsNotDue(start.rows[id], sys.rows[id], now);
    }
    if Locked(sys, id) {
      var r :| r in sys.runners && HoldsRow(sys, r, id);
      assert r != me && HoldsRow(start, r, id);
    }
  }

  function AfterRow(row: Def, u: int): Def {
    row.(nextRunAt := u * NANOS, lastRunAt := Some(row.nextRunAt))
  }

  /** The state after one row has gone through: claimed, computed, published, updated and committed. */
  function AfterFire(sys: System, me: RunnerId, now: Instant, id: Id, u: int): System
    requires id in sys.rows
  {
    var row := sys.rows[id];
    sys.(rows := sys.rows[id := AfterRow(row, u)],
         published := sys.published + [Message(id, row.nextRunAt)],
         committed := sys.committed + [Fire(id, row.nextRunAt, u * NANOS, now, me)])
  }

  /** The five statements of one row. */
  function Through(sys: System, me: RunnerId, id: Id, answer: Option<int>): System {
    var computed := Step(Step(sys, Claim(me, id)), Compute(me, answer));
    Step(Step(Step(computed, Publish(me, Acked)), Update(me, true)), Commit(me, true))
  }

  lemma ClaimKeepsRows(sys: System, me: RunnerId, id: Id)
    ensures Step(sys, Claim(me, id)).rows == sys.rows
  {
  }

  lemma FiveStatements(sys: System, me: RunnerId, now: Instant, id: Id, u: int)
    requires me in sys.runners && sys.runners[me] == Runner(now, Idle) && Claimable(sys, id, now)
    ensures Through(sys, me, id, Some(u)) == AfterFire(sys, me, now, id, u)
  {
    hide Locked;
    var row := sys.rows[id];
    var s1 := Step(sys, Claim(me, id));
    assert s1 == InPhase(sys, me, Claimed(id, row.nextRunAt));
    var s2 := Step(s1, Compute(me, Some(u)));
    assert s2 == InPhase(sys, me, Computed(id, row.nextRunAt, u * NANOS));
    var s3 := Step(s2, Publish(me, Acked));
    var sent := sys.(published := sys.published + [Message(id, row.nextRunAt)]);
    assert s3 == InPhase(sent, me, Published(id, row.nextRunAt, u * NANOS));
    var s4 := Step(s3, Update(me, true));
    assert s4 == InPhase(sent, me, Updated(id, row.nextRunAt, u * NANOS));
    assert sys.runners[me := Runner(now, Idle)] == sys.runners;
  }

  lemma OneRowFires(start: System, sys: System, me: RunnerId, now: Instant, sent: seq<Message>, id: Id, u: int)
    requires Progress(start, sys, me, now, sent) && now.nanos < NANOS
    requires me in start.runners ==> start.runners[me].phase == Stopped
    requires Ready(start, now) && FirstClaimable(sys, id, now) && IsNextFire(sys.rows[id], now, Some(u))
    ensures Progress(start, AfterFire(sys, me, now, id, u), me, now, sent + [Message(id, sys.rows[id].nextRunAt)])
  {
    hide Fired, IsNextFire, Ready, InOrder, RowsFired, DueIds, Locked;
    var end, row := AfterFire(sys, me, now, id, u), AfterRow(sys.rows[id], u);
    FireIsFired(sys.rows[id], now, u);
    assert id in DueIds(sys, now) by { ClaimableIsDue(sys, id, now); }
    StillDue(start, sys, me, now, sent, id);
    OrderGrows(start, sys, now, sent, id);
    assert id in start.rows by { DueIsARow(start, id, now); }
    RowsGrow(start, sys, end, now, sent, Message(id, sys.rows[id].nextRunAt), row);
    EarliestIsSent(start, sys, me, now, sent, id, end, row);
  }

  lemma ClaimableIsDue(sys: System, id: Id, now: Instant)
    requires Claimable(sys, id, now)
    ensures id in DueIds(sys, now)
  {
  }

  lemma DueIsARow(sys: System, id: Id, now: Instant)
    requires id in DueIds(sys, now)
    ensures id in sys.rows
  {
  }

  lemma FireIsFired(row: Def, now: Instant, u: int)
    requires IsNextFire(row, now, Some(u)) && now.nanos < NANOS
    ensures Fired(row, AfterRow(row, u), now) && !Due(AfterRow(row, u), now)
  {
    hide IsNextFire;
    NextIsPastNow(row, now, u);
  }

  /** One row goes through a tick that nothing disturbs. */
  lemma RowGoesThrough(start: System, sys: System, me: RunnerId, now: Instant, sent: seq<Message>, id: Id,
                       answer: Option<int>, end: System)
    returns (m: Message)
    requires Progress(start, sys, me, now, sent) && now.nanos < NANOS
    requires me in start.runners ==> start.runners[me].phase == Stopped
    requires Ready(start, now) && FirstClaimable(sys, id, now) && IsNextFire(sys.rows[id], now, answer)
    requires end == Through(sys, me, id, answer)
    ensures answer.Some? && Progress(start, end, me, now, sent + [m])
  {
    m := Message(id, sys.rows[id].nextRunAt);
    hide Step, Locked, IsAnswer, InOrder, RowsFired, Fired;
    StillDue(start, sys, me, now, sent, id);
    HasNextFire(start, now, id, answer);
    FiveStatements(sys, me, now, id, answer.value);
    OneRowFires(start, sys, me, now, sent, id, answer.value);
  }

  lemma HasNextFire(start: System, now: Instant, id: Id, answer: Option<int>)
    requires Ready(start, now) && id in DueIds(start, now) && IsNextFire(start.rows[id], now, answer)
    ensures answer.Some?
  {
    hide IsAnswer, Locked;
    var row := start.rows[id];
    var u :| IsNextFire(row, now, Some(u));
    AnswerOrNone(row.plan.value.schedule, row.plan.value.zone, now, u);
  }

  lemma OrderGrows(start: System, sys: System, now: Instant, sent: seq<Message>, id: Id)
    requires InOrder(start, now, sent) && id in DueIds(start, now) && id in DueIds(sys, now) && !Sent(sent, id)
    requires sys.rows[id] == start.rows[id]
    requires forall k, other ::
      0 <= k < |sent| && other in DueIds(sys, now) ==> sent[k].due <= sys.rows[other].nextRunAt
    ensures InOrder(start, now, sent + [Message(id, sys.rows[id].nextRunAt)])
  {
    hide DueIds;
  }

  lemma RowsGrow(start: System, sys: System, end: System, now: Instant, sent: seq<Message>, m: Message,
                 row: Def)
    requires RowsFired(start, sys, now, sent) && m.id in start.rows && !Sent(sent, m.id)
    requires end.rows == sys.rows[m.id := row] && Fired(start.rows[m.id], row, now)
    ensures RowsFired(start, end, now, sent + [m])
  {
    hide Fired;
    forall other | other in start.rows
      ensures Sent(sent + [m], other) <==> Sent(sent, other) || other == m.id
    {
      SentGrows(sent, m, other);
    }
  }

  lemma EarliestIsSent(start: System, sys: System, me: RunnerId, now: Instant, sent: seq<Message>, id: Id, end: System,
                       row: Def)
    requires Progress(start, sys, me, now, sent) && now.nanos < NANOS && Ready(start, now)
    requires me in start.runners ==> start.runners[me].phase == Stopped
    requires FirstClaimable(sys, id, now) && end.rows == sys.rows[id := row] && !Due(row, now)
    ensures
      var sent' := sent + [Message(id, sys.rows[id].nextRunAt)];
      forall k, other :: 0 <= k < |sent'| && other in DueIds(end, now) ==> sent'[k].due <= end.rows[other].nextRunAt
  {
    hide Ready, Locked, RowsFired, InOrder;
    var sent' := sent + [Message(id, sys.rows[id].nextRunAt)];
    forall k, other | 0 <= k < |sent'| && other in DueIds(end, now)
      ensures sent'[k].due <= end.rows[other].nextRunAt
    {
      assert other != id && other in DueIds(sys, now);
      if k == |sent| {
        StillDue(start, sys, me, now, sent, other);
        FreeInStart(start, now, other);
        assert Claimable(sys, other, now);
      }
    }
  }

  lemma SentGrows(sent: seq<Message>, m: Message, id: Id)
    ensures Sent(sent + [m], id) <==> Sent(sent, id) || m.id == id
  {
    if Sent(sent, id) {
      var k :| 0 <= k < |sent| && sent[k].id == id;
      assert (sent + [m])[k] == sent[k];
    }
    if m.id == id {
      assert (sent + [m])[|sent|] == m;
    }
  }

  lemma FreeInStart(start: System, now: Instant, id: Id)
    requires Ready(start, now) && id in DueIds(start, now)
    ensures !Locked(start, id)
  {
  }

  lemma UnsentIsClaimable(start: System, sys: System, me: RunnerId, now: Instant, sent: seq<Message>, id: Id)
    requires Progress(start, sys, me, now, sent) && now.nanos < NANOS && Ready(start, now)
    requires me in start.runners ==> start.runners[me].phase == Stopped
    requires id in DueIds(start, now) && !Sent(sent, id)
    ensures Claimable(sys, id, now)
  {
    hide Ready, Fired, Locked;
    assert id in DueIds(sys, now);
    StillDue(start, sys, me, now, sent, id);
    FreeInStart(start, now, id);
  }

  /** Nothing to claim means that all due rows have fired. */
  lemma NothingLeft(start: System, sys: System, me: RunnerId, now: Instant, sent: seq<Message>)
    requires Progress(start, sys, me, now, sent) && now.nanos < NANOS && Ready(start, now)
    requires me in start.runners ==> start.runners[me].phase == Stopped
    requires forall id :: !Claimable(sys, id, now)
    ensures AllSent(start, sys, now, sent) && |sent| == |DueIds(start, now)|
  {
    hide Ready, Fired, Claimable;
    forall id | id in DueIds(start, now)
      ensures Sent(sent, id)
    {
      if !Sent(sent, id) {
        UnsentIsClaimable(start, sys, me, now, sent, id);
      }
    }
    CountSent(DueIds(start, now), sent);
  }

  lemma NothingDue(sys: System, now: Instant)
    requires forall id :: !Claimable(sys, id, now)
    ensures forall id ::
      id in sys.rows && sys.rows[id].enabled && sys.rows[id].nextRunAt <= now.seconds * 1_000_000_000 + now.nanos ==>
        Locked(sys, id)
  {
    hide Locked;
    forall id | id in sys.rows && sys.rows[id].enabled && !Locked(sys, id)
      ensures sys.rows[id].nextRunAt > now.seconds * 1_000_000_000 + now.nanos
    {
      assert !Claimable(sys, id, now);
    }
  }

  lemma TickBegins(start: System, me: RunnerId, now: Instant)
    requires Inv(start) && now.nanos < NANOS && (me in start.runners ==> start.runners[me].phase == Stopped)
    ensures
      var sys := Step(start, StartTick(me, now));
      && Inv(sys) && me in sys.runners && sys.runners[me] == Runner(now, Idle) && sys.committed == start.committed
      && Progress(start, sys, me, now, [])
  {
    StepKeepsInv(start, StartTick(me, now));
    hide Inv;
    NothingSent(start, Step(start, StartTick(me, now)), me, now);
  }

  lemma NothingSent(start: System, sys: System, me: RunnerId, now: Instant)
    requires sys == Step(start, StartTick(me, now)) && (me in start.runners ==> start.runners[me].phase == Stopped)
    ensures Progress(start, sys, me, now, [])
  {
  }

  /** The tick is over: what has fired stays, and all due rows have. */
  lemma TickEnds(start: System, last: System, end: System, me: RunnerId, now: Instant, sent: seq<Message>)
    requires Progress(start, last, me, now, sent) && now.nanos < NANOS && Ready(start, now)
    requires me in start.runners ==> start.runners[me].phase == Stopped
    requires forall id :: !Claimable(last, id, now)
    requires end.rows == last.rows && end.published == last.published
    ensures AllFired(start, end, now, |sent|)
  {
    hide Ready, Fired, Claimable, InOrder;
    NothingLeft(start, last, me, now, sent);
    assert AllSent(start, end, now, sent);
  }

  lemma {:induction false} CountSent(ids: set<Id>, sent: seq<Message>)
    requires forall k :: 0 <= k < |sent| ==> sent[k].id in ids
    requires forall i, k :: 0 <= i < k < |sent| ==> sent[i].id != sent[k].id
    requires forall id :: id in ids ==> Sent(sent, id)
    ensures |sent| == |ids|
    decreases |sent|
  {
    if sent == [] {
      assert ids == {};
    } else {
      var n := |sent| - 1;
      var fewer := ids - {sent[n].id};
      forall id | id in fewer
        ensures Sent(sent[..n], id)
      {
        var k :| 0 <= k < |sent| && sent[k].id == id;
        assert sent[..n][k] == sent[k];
      }
      CountSent(fewer, sent[..n]);
    }
  }

  // ---------------------------------------------------------------------------------------------
  // The runner
  // ---------------------------------------------------------------------------------------------

  /** How the transaction of one row ends: there was none to claim, an error, or a commit. */
  datatype RowOutcome = NoRow | Aborted | Advanced

  class Ticker {
    const me: RunnerId
    const env: Adversary
    var sys: System
    var clock: nat

    ghost predicate Valid()
      reads this
    {
      Inv(sys) && Admissible(env, me)
    }

    ghost function Now(): Instant
      requires me in sys.runners
      reads this
    {
      sys.runners[me].now
    }

    constructor (me: RunnerId, env: Adversary, sys: System)
      requires Inv(sys) && Admissible(env, me)
      ensures Valid() && this.me == me && this.env == env && this.sys == sys
    {
      this.me, this.env, this.sys, clock := me, env, sys, 0;
    }

    /** The other runners run. */
    method Pause()
      requires Valid() && me in sys.runners
      modifies this
      ensures Valid() && Undisturbed(me, old(sys), sys)
      ensures Still(env) ==> sys == old(sys)
    {
      hide Inv, LegalRun, Undisturbed;
      var run := env(clock, sys);
      ForeignRun(sys, run, me);
      RunKeepsInv(sys, run);
      sys, clock := Exec(sys, run), clock + 1;
    }

    /** A statement of mine, after a pause. */
    method Send(a: Action)
      requires Valid() && me in sys.runners && !a.Add? && !a.SetEnabled? && a.r == me
      requires !a.StartTick? && !a.Claim? && !a.Compute? && !a.Commit?
      modifies this
      ensures Valid() && me in sys.runners && Commits(sys.committed, me) == old(Commits(sys.committed, me))
      ensures Now() == old(Now()) && DueIds(sys, Now()) <= old(DueIds(sys, Now()))
      ensures a.Publish? && old(sys.runners[me].phase).Computed? ==>
        var p := old(sys.runners[me].phase);
        sys.runners[me].phase == if a.delivery == Acked then Published(p.id, p.due, p.next) else Stopped
      ensures a.Update? && old(sys.runners[me].phase).Published? ==>
        var p := old(sys.runners[me].phase);
        sys.runners[me].phase == if a.works then Updated(p.id, p.due, p.next) else Stopped
      ensures a.Stop? ==> sys.runners[me].phase == Stopped
      ensures Still(env) ==> sys == Step(old(sys), a)
    {
      hide Inv, Commits, Locked;
      Pause();
      StepKeepsInv(sys, a);
      sys := Step(sys, a);
    }

    /** The claim: None when every due row is locked or gone. */
    method Claim() returns (r: Option<Id>)
      requires Valid() && me in sys.runners && sys.runners[me].phase == Idle
      modifies this
      ensures Valid() && me in sys.runners && Commits(sys.committed, me) == old(Commits(sys.committed, me))
      ensures Now() == old(Now()) && DueIds(sys, Now()) <= old(DueIds(sys, Now()))
      ensures r.None? ==> sys.runners[me].phase == Idle && forall id :: !Claimable(sys, id, Now())
      ensures r.Some? ==> sys.runners[me].phase.Claimed? && sys.runners[me].phase.id == r.value
      ensures Still(env) ==>
        if r.None? then sys == old(sys)
        else FirstClaimable(old(sys), r.value, old(Now())) && sys == Step(old(sys), Scheduler.Claim(me, r.value))
    {
      hide Inv, Commits, Locked;
      Pause();
      r := SelectDue(sys, sys.runners[me].now);
      if r.Some? {
        StepKeepsInv(sys, Scheduler.Claim(me, r.value));
        sys := Step(sys, Scheduler.Claim(me, r.value));
      }
    }

    /** ComputeNextFire, on the claimed row. */
    method ComputeNextFire() returns (found: bool, ghost answered: Option<int>)
      requires Valid() && me in sys.runners && sys.runners[me].phase.Claimed?
      modifies this
      ensures Valid() && me in sys.runners && Commits(sys.committed, me) == old(Commits(sys.committed, me))
      ensures Now() == old(Now()) && DueIds(sys, Now()) <= old(DueIds(sys, Now()))
      ensures if found then sys.runners[me].phase.Computed? else sys.runners[me].phase == Stopped
      ensures found == answered.Some? && sys == Step(old(sys), Compute(me, answered))
      ensures old(sys).runners[me].phase.id in old(sys).rows
        && IsNextFire(old(sys).rows[old(sys).runners[me].phase.id], old(Now()), answered)
    {
      hide Commits, Locked, LockInv, FireInv, RowInv, IsAnswer;
      assert RunnerInv(sys, me);
      var def := sys.rows[sys.runners[me].phase.id];
      var answer := None;
      if def.plan.Some? {
        answer := NextFireAfter(def.plan.value.schedule, def.plan.value.zone, sys.runners[me].now);
      }
      found, answered := answer.Some?, answer;
      StepKeepsInv(sys, Compute(me, answer));
      hide Inv;
      sys := Step(sys, Compute(me, answer));
    }

    /** The commit takes the row out of the due set. */
    method CommitRow(works: bool) returns (ok: bool)
      requires Valid() && me in sys.runners && sys.runners[me].phase.Updated?
      modifies this
      ensures Valid() && me in sys.runners && Now() == old(Now()) && ok == works
      ensures Commits(sys.committed, me) == old(Commits(sys.committed, me)) + if ok then 1 else 0
      ensures sys.runners[me].phase == if ok then Idle else Stopped
      ensures DueIds(sys, Now()) <= old(DueIds(sys, Now()))
      ensures ok ==> DueIds(sys, Now()) < old(DueIds(sys, Now()))
      ensures Still(env) ==> sys == Step(old(sys), Commit(me, works))
    {
      hide Commits, Locked, LockInv, FireInv, RowInv;
      ghost var before := sys;
      Pause();
      ghost var mid := sys;
      assert RunnerInv(sys, me);
      var p := sys.runners[me].phase;
      CommitsGrow(sys.committed, Fire(p.id, p.due, p.next, sys.runners[me].now, me), me);
      StepKeepsInv(sys, Commit(me, works));
      hide Inv;
      sys := Step(sys, Commit(me, works));
      ok := works;
      assert p.id in DueIds(mid, Now());
      assert works ==> p.id !in DueIds(sys, Now());
    }

    /** One transaction of the tick after it has begun: claim a row, compute its next fire, publish, update, commit. */
    method TickRow(now: Instant, delivery: Delivery, updates: bool, commits: bool)
      returns (out: RowOutcome, ghost id: Id, ghost answer: Option<int>)
      requires Valid() && me in sys.runners && sys.runners[me] == Runner(now, Idle)
      modifies this
      ensures Valid() && me in sys.runners
      ensures sys.runners[me] == Runner(now, if out == Aborted then Stopped else Idle)
      ensures Commits(sys.committed, me) == old(Commits(sys.committed, me)) + if out == Advanced then 1 else 0
      ensures out == NoRow ==> forall other :: !Claimable(sys, other, now)
      ensures out == Advanced ==> |DueIds(sys, now)| < old(|DueIds(sys, now)|)
      ensures Still(env) && out == NoRow ==> sys == old(sys)
      ensures Still(env) && delivery == Acked && updates && commits && out != NoRow ==>
        && FirstClaimable(old(sys), id, now) && IsNextFire(old(sys).rows[id], now, answer)
        && (out == Aborted <==> answer.None?)
        && (out == Advanced ==> sys == Through(old(sys), me, id, answer))
    {
      hide Commits, Locked, Still, Admissible, FirstClaimable, IsNextFire, Inv, Step;
      ghost var start := sys;
      ghost var due := DueIds(sys, now);
      id, answer := 0, None;
      var row := Claim();
      if row.None? {
        return NoRow, id, answer;
      }
      id := row.value;
      assert Still(env) ==> start.rows == sys.rows by {
        ClaimKeepsRows(start, me, id);
      }
      var found;
      found, answer := ComputeNextFire();
      if !found {
        return Aborted, id, answer;
      }
      Send(Publish(me, delivery));
      if sys.runners[me].phase == Stopped {
        return Aborted, id, answer;
      }
      Send(Update(me, updates));
      if sys.runners[me].phase == Stopped {
        return Aborted, id, answer;
      }
      var committed := CommitRow(commits);
      if !committed {
        return Aborted, id, answer;
      }
      IdOrder.SubsetCount(DueIds(sys, now), due);
      return Advanced, id, answer;
    }

    /** Every statement of the tick works. */
    ghost predicate Smooth(begins: nat -> bool, delivers: nat -> Delivery, updates: nat -> bool, commits: nat -> bool) {
      forall k :: begins(k) && delivers(k) == Acked && updates(k) && commits(k)
    }

    /** Tick: `fired` counts its commits; a tick without an error ends when nothing is left to claim.  When every
        statement works, nobody else is active and every due row is free and has a next fire, all due rows fire,
        earliest first, each with one message, and nothing else changes. */
    method Tick(
      now: Instant, begins: nat -> bool, delivers: nat -> Delivery, updates: nat -> bool, commits: nat -> bool)
      returns (fired: nat, ok: bool)
      requires Valid() && now.nanos < NANOS && (me in sys.runners ==> sys.runners[me].phase == Stopped)
      modifies this
      ensures Valid() && me in sys.runners && sys.runners[me].phase == Stopped
      ensures Commits(sys.committed, me) == old(Commits(sys.committed, me)) + fired
      ensures ok ==> forall id ::
        id in sys.rows && sys.rows[id].enabled && sys.rows[id].nextRunAt <= now.seconds * 1_000_000_000 + now.nanos ==>
          Locked(sys, id)
      ensures Still(env) && Smooth(begins, delivers, updates, commits) && Ready(old(sys), now) ==>
        ok && AllFired(old(sys), sys, now, fired)
    {
      hide Inv, Admissible, Commits, Locked, Ready, Still, InOrder, RowsFired, FirstClaimable, IsNextFire, AllFired,
           Progress, Step, DueIds, Through, Claimable;
      ghost var start, sent: seq<Message> := sys, [];
      ghost var easy := Still(env) && Smooth(begins, delivers, updates, commits) && Ready(start, now);
      TickBegins(start, me, now);
      sys := Step(sys, StartTick(me, now));
      fired := 0;
      while true
        invariant Valid() && me in sys.runners && sys.runners[me] == Runner(now, Idle)
        invariant Commits(sys.committed, me) == old(Commits(sys.committed, me)) + fired
        invariant easy ==> Progress(start, sys, me, now, sent) && |sent| == fired
        decreases |DueIds(sys, now)|
      {
        ghost var before := sys;
        if !begins(fired) {
          Send(Stop(me));
          return fired, false;
        }
        var out;
        ghost var id, answer;
        out, id, answer := TickRow(now, delivers(fired), updates(fired), commits(fired));
        if out == NoRow {
          Leave(now);
          assert forall other :: !Claimable(sys, other, now);
          NothingDue(sys, now);
          if easy {
            TickEnds(start, before, sys, me, now, sent);
          }
          return fired, commits(fired);
        }
        ghost var m := Message(0, 0);
        if easy {
          m := RowGoesThrough(start, before, me, now, sent, id, answer, Through(before, me, id, answer));
        }
        if out == Aborted {
          return fired, false;
        }
        fired := fired + 1;
        sent := sent + [m];
      }
    }

    /** The last, empty transaction ends at once. */
    method Leave(now: Instant)
      requires Valid() && me in sys.runners && sys.runners[me] == Runner(now, Idle)
      requires forall id :: !Claimable(sys, id, now)
      modifies this
      ensures Valid() && me in sys.runners && sys.runners[me].phase == Stopped
      ensures sys.committed == old(sys).committed && forall id :: !Claimable(sys, id, now)
      ensures sys.rows == old(sys).rows && sys.published == old(sys).published
    {
      StepKeepsInv(sys, Stop(me));
      hide Inv;
      ghost var before := sys;
      sys := Step(sys, Stop(me));
      forall id
        ensures !Claimable(sys, id, now)
      {
        assert !Claimable(before, id, now);
        if id in sys.rows && Due(sys.rows[id], now) {
          var r :| r in before.runners && HoldsRow(before, r, id);
          assert HoldsRow(sys, r, id);
        }
      }
    }
  }
}
