/**
 Load-then-Apply under WithRetry (libs/state-machine/state_machine.go:266-295): the backoff, and the
 guarantee that the event is committed exactly once if and only if the call succeeds, against any
 interference by other clients between its statements.
 */
module StateMachineRetry {
  import opened Common
  import opened GoInt
  import opened StateMachineStore

  const SECOND := 1_000_000_000
  const TWO62 := 0x4000_0000_0000_0000

  /** A 64-bit signed duration in nanoseconds. */
  type Duration = Int64

  datatype Attempt<T> = Value(value: T) | StaleAttempt | OtherError

  datatype Verdict<T> = Returned(value: T) | Failed | NoAttempts | Cancelled | Panicked

  function NextDelay(delay: Duration): Duration {
    var doubled := Wrap64(2 * delay);
    if doubled > SECOND then SECOND else doubled
  }

  /** The attempts from the k-th on.  The jitter is drawn below a third of the delay (truncated division)
      and the draw panics unless that bound is positive. */
  function RetryFrom<T>(k: nat, op: nat -> Attempt<T>, wakes: nat -> bool, max: nat, delay: Duration): Verdict<T>
    requires 1 <= k <= max
    decreases max - k
  {
    match op(k)
    case Value(v) => Returned(v)
    case OtherError => Failed
    case StaleAttempt =>
      if k == max then Failed
      else if delay < 3 then Panicked
      else if !wakes(k) then Cancelled
      else RetryFrom(k + 1, op, wakes, max, NextDelay(delay))
  }

  function Retry<T>(op: nat -> Attempt<T>, wakes: nat -> bool, max: nat, delay: Duration): Verdict<T> {
    if max == 0 then NoAttempts else RetryFrom(1, op, wakes, max, delay)
  }

  // ---------------------------------------------------------------------------------------------
  // The backoff
  // ---------------------------------------------------------------------------------------------

  /** The configurations under which no run of attempts can hit the panicking draw. */
  predicate SafeBackoff(max: nat, delay: Duration) {
    max <= 1 || (3 <= delay && (max == 2 || delay < TWO62))
  }

  lemma {:induction false} SafeNeverPanics<T>(
    k: nat, op: nat -> Attempt<T>, wakes: nat -> bool, max: nat, delay: Duration)
    requires 1 <= k <= max && (k == max || (3 <= delay && (k + 1 == max || delay < TWO62)))
    ensures RetryFrom(k, op, wakes, max, delay) != Panicked
    decreases max - k
  {
    if op(k).StaleAttempt? && k < max {
      assert delay < TWO62 ==> Wrap64(2 * delay) == 2 * delay;
      if wakes(k) {
        SafeNeverPanics(k + 1, op, wakes, max, NextDelay(delay));
      }
    }
  }

  /** Conflicts can make WithRetry panic exactly when it may retry and its base delay is below three
      nanoseconds, or it may retry twice and doubling the base delay overflows. */
  lemma PanicsIff(max: nat, delay: Duration)
    ensures (exists op: nat -> Attempt<()>, wakes: nat -> bool :: Retry(op, wakes, max, delay) == Panicked)
      <==> !SafeBackoff(max, delay)
  {
    if SafeBackoff(max, delay) {
      if max > 0 {
        forall op: nat -> Attempt<()>, wakes: nat -> bool
          ensures Retry(op, wakes, max, delay) != Panicked
        {
          SafeNeverPanics(1, op, wakes, max, delay);
        }
      }
    } else {
      var op: nat -> Attempt<()> := k => StaleAttempt;
      var wakes: nat -> bool := k => true;
      if delay >= 3 {
        assert NextDelay(delay) < 3;
        assert RetryFrom(2, op, wakes, max, NextDelay(delay)) == Panicked;
      }
      assert Retry(op, wakes, max, delay) == Panicked;
    }
  }

  /** The delay before the k-th retry, counting from zero. */
  function DelayAt(base: Duration, k: nat): Duration {
    if k == 0 then base else NextDelay(DelayAt(base, k - 1))
  }

  function Pow2(k: nat): nat {
    if k == 0 then 1 else 2 * Pow2(k - 1)
  }

  /** From the second delay on the backoff is the doubled base, capped at one second; only the first delay can be
      longer. */
  lemma {:induction false} DelayIsCappedDoubling(base: Duration, k: nat)
    requires 3 <= base < TWO62 && k >= 1
    ensures DelayAt(base, k) == Min(base * Pow2(k), 1_000_000_000)
    decreases k
  {
    if k == 1 {
      assert Pow2(1) == 2 * Pow2(0);
    } else {
      DelayIsCappedDoubling(base, k - 1);
      var x := base * Pow2(k - 1);
      Twice(base, Pow2(k - 1));
      NextOfCapped(x);
    }
  }

  lemma Twice(a: int, b: int)
    ensures a * (2 * b) == 2 * (a * b)
  {
  }

  lemma NextOfCapped(x: nat)
    ensures NextDelay(Min(x, SECOND)) == Min(2 * x, SECOND)
  {
  }

  // ---------------------------------------------------------------------------------------------
  // Interference
  // ---------------------------------------------------------------------------------------------

  function Actor<M, E>(a: Action<M, E>): ClientId {
    match a
    case Insert(ptr, _, _, _) => ptr.owner
    case Load(ptr, _, _) => ptr.owner
    case Send(l, _, _) => l.ptr.owner
  }

  predicate OthersOnly<M, E>(run: seq<Action<M, E>>, me: ClientId) {
    forall i :: 0 <= i < |run| ==> Actor(run[i]) != me
  }

  /** Nothing that belongs to `me` differs: its objects, its handles, its commits. */
  ghost predicate SameFor<M, E>(me: ClientId, sys: System<M, E>, sys': System<M, E>) {
    && (forall p: Ptr :: p.owner == me ==> (p in sys.heap <==> p in sys'.heap))
    && (forall p: Ptr :: p.owner == me && p in sys.heap && p in sys'.heap ==> sys'.heap[p] == sys.heap[p])
    && (forall l: Loaded :: l.ptr.owner == me ==> (l in sys.handed <==> l in sys'.handed))
    && By(sys'.log, me) == By(sys.log, me)
  }

  lemma OtherStep<M, E>(sys: System<M, E>, d: Transition<M, E>, a: Action<M, E>, me: ClientId)
    requires Actor(a) != me
    ensures SameFor(me, sys, Step(sys, d, a))
  {
    hide By;
    if a.Send? && Usable(sys, a.loaded) {
      LogGrows(sys.log, Entry(sys.heap[a.loaded.ptr].id, a.event, a.loaded.ptr.owner), 0, me);
    }
  }

  lemma {:induction false} OthersLeaveMeAlone<M, E>(
    sys: System<M, E>, d: Transition<M, E>, run: seq<Action<M, E>>, me: ClientId)
    requires OthersOnly(run, me)
    ensures SameFor(me, sys, Exec(sys, d, run))
    decreases |run|
  {
    hide Step, By;
    if run != [] {
      var next := Step(sys, d, run[0]);
      OtherStep(sys, d, run[0], me);
      assert OthersOnly(run[1..], me) by {
        forall i | 0 <= i < |run[1..]|
          ensures Actor(run[1..][i]) != me
        {
          assert run[1..][i] == run[i + 1];
        }
      }
      OthersLeaveMeAlone(next, d, run[1..], me);
      assert forall p: Ptr :: p.owner == me && p in sys.heap ==> p in next.heap && next.heap[p] == sys.heap[p];
    }
  }

  /** The k-th pause of `me`: what the other clients do. */
  type Adversary<!M, !E> = (nat, System<M, E>) -> seq<Action<M, E>>

  ghost predicate Admissible<M(!new), E(!new)>(env: Adversary<M, E>, me: ClientId) {
    forall k, sys :: OthersOnly(env(k, sys), me)
  }

  /** Nobody else does anything. */
  ghost predicate Still<M(!new), E(!new)>(env: Adversary<M, E>) {
    forall k, sys :: env(k, sys) == []
  }

  /** The row of `id` is still there, under the same or a later version. */
  ghost predicate RowAdvances<M, E>(id: Id, sys: System<M, E>, sys': System<M, E>) {
    id in sys.rows ==> id in sys'.rows && sys.rows[id].version <= sys'.rows[id].version
  }

  // ---------------------------------------------------------------------------------------------
  // The client
  // ---------------------------------------------------------------------------------------------

  class Client<M(!new), E(!new)> {
    const d: Transition<M, E>
    const me: ClientId
    const env: Adversary<M, E>
    var sys: System<M, E>
    var clock: nat
    var serial: nat

    /** The cluster is reachable and this client has fresh object names left. */
    ghost predicate Valid()
      reads this
    {
      Inv(sys, d) && Admissible(env, me) && forall p: Ptr :: p in sys.heap && p.owner == me ==> p.serial < serial
    }

    constructor (d: Transition<M, E>, me: ClientId, env: Adversary<M, E>)
      requires Admissible(env, me)
      ensures Valid() && sys == Empty() && this.d == d && this.me == me && this.env == env
    {
      this.d, this.me, this.env := d, me, env;
      sys, clock, serial := Empty(), 0, 0;
      new;
      EmptyInv(d);
    }

    ghost function Mine(): seq<Entry<E>>
      reads this
    {
      By(sys.log, me)
    }

    method Pause()
      requires Valid()
      modifies this
      ensures Valid() && SameFor(me, old(sys), sys) && serial == old(serial)
      ensures forall id :: RowAdvances(id, old(sys), sys)
      ensures Still(env) ==> sys == old(sys)
    {
      hide Inv, By;
      var run := env(clock, sys);
      OthersLeaveMeAlone(sys, d, run, me);
      RunKeepsInv(sys, d, run);
      forall id
        ensures RowAdvances(id, sys, Exec(sys, d, run))
      {
        RowsAdvance(sys, Exec(sys, d, run), d, id);
      }
      sys := Run(run);
      clock := clock + 1;
    }

    function Run(run: seq<Action<M, E>>): System<M, E>
      reads this
    {
      Exec(sys, d, run)
    }

    /** Load, into a new object that is level with its row; it fails only when the row is missing or the driver does. */
    method Load(id: Id, works: bool) returns (r: Option<Loaded>)
      requires Valid()
      modifies this
      ensures Valid() && Mine() == old(Mine())
      ensures r.Some? ==> r.value.ptr.owner == me && Usable(sys, r.value) && sys.heap[r.value.ptr].id == id
      ensures r.Some? ==> sys.heap[r.value.ptr].pending == []
      ensures r.Some? ==>
        works && r.value.version == sys.rows[id].version && sys.heap[r.value.ptr].machine == sys.rows[id].machine
      ensures works && id in old(sys).rows ==> r.Some?
      ensures RowAdvances(id, old(sys), sys)
      ensures Still(env) ==> sys.rows == old(sys).rows
    {
      hide Inv, By;
      ghost var before := sys;
      Pause();
      assert RowAdvances(id, before, sys);
      var ptr := Ptr(me, serial);
      if id !in sys.rows || !works {
        return None;
      }
      var version := sys.rows[id].version;
      StepKeepsInv(sys, d, StateMachineStore.Load(ptr, id, true));
      sys := Step(sys, d, StateMachineStore.Load(ptr, id, true));
      serial := serial + 1;
      return Some(Loaded(ptr, version));
    }

    /** Apply, on a machine this client loaded: it commits exactly when it answers Committed.  The machine decides
        about a rejection, the driver about an error, and the row's version about the rest. */
    method Apply(l: Loaded, event: E, works: bool) returns (out: Outcome)
      requires Valid() && l.ptr.owner == me && Usable(sys, l)
      modifies this
      ensures Valid()
      ensures Mine() == old(Mine()) + if out == Committed then [Entry(old(sys).heap[l.ptr].id, event, me)] else []
      ensures
        var obj := old(sys).heap[l.ptr];
        && (out == Rejected <==> !d(obj.machine, event).1)
        && (out == DriverError <==> d(obj.machine, event).1 && !works)
        && obj.id in sys.rows
        && (out == Committed ==>
              && sys.rows[obj.id].machine == d(obj.machine, event).0 && sys.rows[obj.id].version == l.version + 1
              && old(sys).rows[obj.id].version == l.version)
        && (out == Stale ==> l.version < sys.rows[obj.id].version)
      ensures RowAdvances(old(sys).heap[l.ptr].id, old(sys), sys)
      ensures
        var obj := old(sys).heap[l.ptr];
        Still(env) && old(sys).rows[obj.id].version == l.version && d(obj.machine, event).1 && works ==>
          out == Committed && sys.rows.Keys == old(sys).rows.Keys
          && forall other :: other in sys.rows && other != obj.id ==> sys.rows[other] == old(sys).rows[other]
    {
      hide Inv, By;
      ghost var before := sys;
      HandleIsNotAhead(sys, d, l);
      Pause();
      assert Usable(sys, l) by {
        HandedStaysUsable(sys, d, l);
      }
      assert sys.heap[l.ptr] == before.heap[l.ptr];
      HandleIsNotAhead(sys, d, l);
      assert RowAdvances(sys.heap[l.ptr].id, before, sys);
      out := Answer(sys, d, l, event, works);
      LogGrows(sys.log, Entry(sys.heap[l.ptr].id, event, me), 0, me);
      StepKeepsInv(sys, d, Send(l, event, works));
      sys := Step(sys, d, Send(l, event, works));
    }

    /** Nothing stands in the way of an attempt. */
    ghost predicate Unhindered(id: Id, event: E, start: System<M, E>, loads: bool, sends: bool) {
      Still(env) && id in start.rows && loads && sends && d(start.rows[id].machine, event).1
    }

    /** The row has moved to the machine's next state, and no other row has changed. */
    ghost predicate Advanced(id: Id, event: E, start: System<M, E>, end: System<M, E>)
      requires id in start.rows
    {
      && end.rows.Keys == start.rows.Keys
      && end.rows[id].machine == d(start.rows[id].machine, event).0
      && end.rows[id].version == start.rows[id].version + 1
      && forall other :: other in end.rows && other != id ==> end.rows[other] == start.rows[other]
    }

    /** One attempt: Load, then Apply to what was loaded.  Unless it failed for another reason, the row is under a
        later version than before. */
    method TryOnce(id: Id, event: E, loads: bool, sends: bool) returns (seen: Attempt<()>)
      requires Valid()
      modifies this
      ensures Valid()
      ensures seen.Value? ==> seen == Value(())
      ensures Mine() == old(Mine()) + if seen.Value? then [Entry(id, event, me)] else []
      ensures RowAdvances(id, old(sys), sys)
      ensures id in old(sys).rows && !seen.OtherError? ==> sys.rows[id].version > old(sys).rows[id].version
      ensures id in old(sys).rows && loads && sends && (forall m :: d(m, event).1) ==> !seen.OtherError?
      ensures Unhindered(id, event, old(sys), loads, sends) ==> seen.Value? && Advanced(id, event, old(sys), sys)
    {
      hide Inv, By, Still, Admissible;
      var loaded := Load(id, loads);
      if loaded.None? {
        return OtherError;
      }
      var out := Apply(loaded.value, event, sends);
      seen := if out == Committed then Value(()) else if out == Stale then StaleAttempt else OtherError;
    }

    /** WithRetry around Load and Apply, for any driver failures and any interference: the event is
        committed exactly once if the call returns a value and not at all otherwise, and the verdict is
        that of the attempts it made.  Every attempt that did not fail otherwise, stale or not, comes with a commit to
        the row: a call with a working driver and an event that is always accepted can only run out of attempts while
        others make progress.  Undisturbed it succeeds at the first attempt, with the row's next state. */
    method WithRetry(id: Id, event: E, max: nat, baseDelay: Duration,
                     loads: nat -> bool, sends: nat -> bool, wakes: nat -> bool)
      returns (r: Verdict<()>, ghost attempts: seq<Attempt<()>>)
      requires Valid()
      modifies this
      ensures Valid()
      ensures Mine() == old(Mine()) + if r.Returned? then [Entry(id, event, me)] else []
      ensures |attempts| <= max
      ensures forall op: nat -> Attempt<()> :: Agrees(op, attempts) ==> Retry(op, wakes, max, baseDelay) == r
      ensures id in old(sys).rows ==>
        id in sys.rows && sys.rows[id].version >= old(sys).rows[id].version + Settled(attempts)
      ensures id in old(sys).rows && (forall k :: loads(k) && sends(k)) && (forall m :: d(m, event).1) ==>
        Settled(attempts) == |attempts|
      ensures forall k :: 0 <= k < |attempts| - 1 ==> attempts[k] == StaleAttempt
      ensures r == NoAttempts <==> max == 0
      ensures r.Returned? <==> attempts != [] && attempts[|attempts| - 1].Value?
      ensures r == Failed <==>
        attempts != [] && (attempts[|attempts| - 1].OtherError?
          || (attempts[|attempts| - 1].StaleAttempt? && |attempts| == max))
      ensures r == Cancelled ==> 1 <= |attempts| < max && !wakes(|attempts|)
      ensures max >= 1 && Unhindered(id, event, old(sys), loads(1), sends(1)) ==>
        r == Returned(()) && Advanced(id, event, old(sys), sys)
    {
      hide Inv, By, Unhindered, Advanced, Admissible;
      attempts := [];
      if max == 0 {
        return NoAttempts, attempts;
      }
      var delay := baseDelay;
      var attempt := 1;
      while attempt <= max
        invariant 1 <= attempt <= max && Valid() && Mine() == old(Mine())
        invariant |attempts| == attempt - 1 && forall k :: 0 <= k < |attempts| ==> attempts[k] == StaleAttempt
        invariant id in old(sys).rows ==>
          id in sys.rows && sys.rows[id].version >= old(sys).rows[id].version + (attempt - 1)
        invariant if attempt == 1 then sys == old(sys)
                  else !Unhindered(id, event, old(sys), loads(1), sends(1))
        invariant forall op: nat -> Attempt<()> :: Agrees(op, attempts) ==>
          Retry(op, wakes, max, baseDelay) == RetryFrom(attempt, op, wakes, max, delay)
        decreases max - attempt
      {
        ghost var earlier := attempts;
        var seen := TryOnce(id, event, loads(attempt), sends(attempt));
        attempts := attempts + [seen];
        AgreesMore(earlier, seen);
        if seen.Value? {
          return Returned(()), attempts;
        }
        if seen.OtherError? || attempt == max {
          return Failed, attempts;
        }
        if delay < 3 {
          return Panicked, attempts;
        }
        if !wakes(attempt) {
          return Cancelled, attempts;
        }
        delay := NextDelay(delay);
        attempt := attempt + 1;
      }
    }
  }

  lemma RowsAdvance<M, E>(sys: System<M, E>, sys': System<M, E>, d: Transition<M, E>, id: Id)
    requires Inv(sys, d) && Inv(sys', d) && Later(sys, sys')
    ensures RowAdvances(id, sys, sys')
  {
    hide Inv;
    if id in sys.rows {
      VersionsGrow(sys, sys', d, id);
    }
  }

  /** A handle is never ahead of its row. */
  lemma HandleIsNotAhead<M, E>(sys: System<M, E>, d: Transition<M, E>, l: Loaded)
    requires Inv(sys, d) && Usable(sys, l)
    ensures l.version <= sys.rows[sys.heap[l.ptr].id].version
  {
    assert HandleInv(sys, d, l);
  }

  /** The attempts that ended in a commit or a conflict; only the last one can have failed otherwise. */
  function Settled<T>(attempts: seq<Attempt<T>>): int {
    if attempts != [] && attempts[|attempts| - 1].OtherError? then |attempts| - 1 else |attempts|
  }

  /** The recorded attempts are the first answers of op. */
  ghost predicate Agrees<T>(op: nat -> Attempt<T>, attempts: seq<Attempt<T>>) {
    forall k :: 1 <= k <= |attempts| ==> op(k) == attempts[k - 1]
  }

  lemma AgreesMore<T>(attempts: seq<Attempt<T>>, next: Attempt<T>)
    ensures forall op: nat -> Attempt<T> :: Agrees(op, attempts + [next]) ==>
      Agrees(op, attempts) && op(|attempts| + 1) == next
  {
    forall op: nat -> Attempt<T> | Agrees(op, attempts + [next])
      ensures Agrees(op, attempts) && op(|attempts| + 1) == next
    {
      forall k | 1 <= k <= |attempts|
        ensures op(k) == attempts[k - 1]
      {
        assert (attempts + [next])[k - 1] == attempts[k - 1];
      }
    }
  }

  lemma HandedStaysUsable<M, E>(sys: System<M, E>, d: Transition<M, E>, l: Loaded)
    requires Inv(sys, d) && l in sys.handed
    ensures Usable(sys, l)
  {
    assert HandleInv(sys, d, l);
  }
}
