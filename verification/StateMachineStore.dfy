/**
 The optimistic state-machine store (libs/state-machine/state_machine.go).

 Every statement is one atomic step; any number of clients interleave.  The machine of a Loaded is an
 object in its client's memory that Apply mutates before it talks to the database, so it stays mutated
 when the write fails.  A driver error has no effect on the table.
 */
module StateMachineStore {

  type Id = nat
  type ClientId = nat

  /** A machine object; clients only touch objects of their own. */
  datatype Ptr = Ptr(owner: ClientId, serial: nat)

  /** A table row.  `birth`, `events` and `effects` are bookkeeping: the inserted machine, the events whose
      Apply returned success, and all events whose mutations reached the row. */
  datatype Row<M, E> = Row(machine: M, version: int, birth: M, events: seq<E>, effects: seq<E>)

  /** `pending`: the events applied in memory since the object last agreed with the row it came from. */
  datatype Object<M, E> = Object(id: Id, machine: M, pending: seq<E>)

  datatype Loaded = Loaded(ptr: Ptr, version: int)

  datatype Entry<E> = Entry(id: Id, event: E, client: ClientId)

  datatype System<M, E> = System(
    rows: map<Id, Row<M, E>>,
    heap: map<Ptr, Object<M, E>>,
    handed: set<Loaded>,
    log: seq<Entry<E>>)

  /** `works` is false when the driver fails or the payload cannot be encoded or decoded. */
  datatype Action<M, E> =
    | Insert(ptr: Ptr, id: Id, machine: M, works: bool)
    | Load(ptr: Ptr, id: Id, works: bool)
    | Send(loaded: Loaded, event: E, works: bool)

  datatype Outcome = Committed | Rejected | DriverError | Stale

  /** Aggregate.Apply: the machine afterwards, and whether the event was accepted. */
  type Transition<!M, !E> = (M, E) -> (M, bool)

  function Empty<M, E>(): System<M, E> {
    System(map[], map[], {}, [])
  }

  // ---------------------------------------------------------------------------------------------
  // The store
  // ---------------------------------------------------------------------------------------------

  /** The machine after mutating it with each event in turn. */
  function Fold<M, E>(d: Transition<M, E>, m: M, events: seq<E>): M
    decreases |events|
  {
    if events == [] then m
    else d(Fold(d, m, events[..|events| - 1]), events[|events| - 1]).0
  }

  predicate Usable<M, E>(sys: System<M, E>, l: Loaded) {
    l in sys.handed && l.ptr in sys.heap && sys.heap[l.ptr].id in sys.rows
  }

  function Answer<M, E>(sys: System<M, E>, d: Transition<M, E>, l: Loaded, event: E, works: bool): Outcome
    requires Usable(sys, l)
  {
    var obj := sys.heap[l.ptr];
    if !d(obj.machine, event).1 then Rejected
    else if !works then DriverError
    else if sys.rows[obj.id].version != l.version then Stale
    else Committed
  }

  function SendEvent<M, E>(sys: System<M, E>, d: Transition<M, E>, l: Loaded, event: E, works: bool): System<M, E>
    requires Usable(sys, l)
  {
    var obj := sys.heap[l.ptr];
    var obj' := Object(obj.id, d(obj.machine, event).0, obj.pending + [event]);
    if Answer(sys, d, l, event, works) != Committed then sys.(heap := sys.heap[l.ptr := obj'])
    else
      var row := sys.rows[obj.id];
      System(
        sys.rows[obj.id :=
          Row(obj'.machine, row.version + 1, row.birth, row.events + [event], row.effects + obj'.pending)],
        sys.heap[l.ptr := obj'.(pending := [])],
        sys.handed + {Loaded(l.ptr, row.version + 1)},
        sys.log + [Entry(obj.id, event, l.ptr.owner)])
  }

  function Step<M, E>(sys: System<M, E>, d: Transition<M, E>, a: Action<M, E>): System<M, E> {
    match a
    case Insert(ptr, id, machine, works) =>
      if ptr in sys.heap || id in sys.rows || !works then sys
      else System(sys.rows[id := Row(machine, 1, machine, [], [])], sys.heap[ptr := Object(id, machine, [])],
                  sys.handed + {Loaded(ptr, 1)}, sys.log)
    case Load(ptr, id, works) =>
      if ptr in sys.heap || id !in sys.rows || !works then sys
      else sys.(heap := sys.heap[ptr := Object(id, sys.rows[id].machine, [])],
                handed := sys.handed + {Loaded(ptr, sys.rows[id].version)})
    case Send(l, event, works) =>
      if !Usable(sys, l) then sys else SendEvent(sys, d, l, event, works)
  }

  function Exec<M, E>(sys: System<M, E>, d: Transition<M, E>, run: seq<Action<M, E>>): System<M, E>
    decreases |run|
  {
    if run == [] then sys else Exec(Step(sys, d, run[0]), d, run[1..])
  }

  // ---------------------------------------------------------------------------------------------
  // The invariant
  // ---------------------------------------------------------------------------------------------

  function EventsOf<E>(log: seq<Entry<E>>, id: Id): seq<E>
    decreases |log|
  {
    if log == [] then [] else
    var n := |log| - 1;
    EventsOf(log[..n], id) + if log[n].id == id then [log[n].event] else []
  }

  function By<E>(log: seq<Entry<E>>, who: ClientId): seq<Entry<E>>
    decreases |log|
  {
    if log == [] then [] else
    var n := |log| - 1;
    By(log[..n], who) + if log[n].client == who then [log[n]] else []
  }

  lemma LogGrows<E>(log: seq<Entry<E>>, entry: Entry<E>, id: Id, who: ClientId)
    ensures EventsOf(log + [entry], id) == EventsOf(log, id) + if entry.id == id then [entry.event] else []
    ensures By(log + [entry], who) == By(log, who) + if entry.client == who then [entry] else []
  {
    assert (log + [entry])[..|log|] == log;
  }

  lemma {:induction false} NoEntryNoEvents<E>(log: seq<Entry<E>>, id: Id)
    requires forall i :: 0 <= i < |log| ==> log[i].id != id
    ensures EventsOf(log, id) == []
    decreases |log|
  {
    if log != [] {
      NoEntryNoEvents(log[..|log| - 1], id);
    }
  }

  lemma {:induction false} FoldConcat<M, E>(d: Transition<M, E>, m: M, a: seq<E>, b: seq<E>)
    ensures Fold(d, m, a + b) == Fold(d, Fold(d, m, a), b)
    decreases |b|
  {
    if b == [] {
      assert a + b == a;
    } else {
      var n := |b| - 1;
      assert (a + b)[..|a + b| - 1] == a + b[..n];
      FoldConcat(d, m, a, b[..n]);
    }
  }

  lemma FoldOne<M, E>(d: Transition<M, E>, m: M, events: seq<E>, e: E)
    ensures Fold(d, m, events + [e]) == d(Fold(d, m, events), e).0
  {
    assert (events + [e])[..|events|] == events;
  }

  /** The row holds its inserted machine with all `effects` applied; the version counts the commits. */
  ghost predicate RowInv<M, E>(sys: System<M, E>, d: Transition<M, E>, id: Id)
    requires id in sys.rows
  {
    var row := sys.rows[id];
    && row.machine == Fold(d, row.birth, row.effects)
    && row.version == 1 + |row.events|
    && row.events == EventsOf(sys.log, id)
    && |row.events| <= |row.effects| && (|row.events| == |row.effects| ==> row.events == row.effects)
  }

  /** A Loaded is never ahead of its row, and one that is level with it differs only by what was applied
      in memory since. */
  ghost predicate HandleInv<M, E>(sys: System<M, E>, d: Transition<M, E>, l: Loaded) {
    && l.ptr in sys.heap && sys.heap[l.ptr].id in sys.rows
    && var obj := sys.heap[l.ptr];
       var row := sys.rows[obj.id];
       l.version <= row.version && (l.version == row.version ==> obj.machine == Fold(d, row.machine, obj.pending))
  }

  ghost predicate Inv<M, E>(sys: System<M, E>, d: Transition<M, E>) {
    && (forall id :: id in sys.rows ==> RowInv(sys, d, id))
    && (forall l :: l in sys.handed ==> HandleInv(sys, d, l))
    && (forall i :: 0 <= i < |sys.log| ==> sys.log[i].id in sys.rows)
  }

  lemma SendKeepsRow<M, E>(sys: System<M, E>, d: Transition<M, E>, l: Loaded, event: E, works: bool, id: Id)
    requires Usable(sys, l) && HandleInv(sys, d, l) && id in sys.rows && RowInv(sys, d, id)
    ensures id in SendEvent(sys, d, l, event, works).rows && RowInv(SendEvent(sys, d, l, event, works), d, id)
  {
    hide Fold, EventsOf;
    var obj := sys.heap[l.ptr];
    if Answer(sys, d, l, event, works) == Committed {
      LogGrows(sys.log, Entry(obj.id, event, l.ptr.owner), id, 0);
      if id == obj.id {
        var row := sys.rows[id];
        FoldOne(d, row.machine, obj.pending, event);
        FoldConcat(d, row.birth, row.effects, obj.pending + [event]);
        assert obj.pending == [] ==> obj.pending + [event] == [event];
      }
    }
  }

  lemma SendKeepsHandle<M, E>(sys: System<M, E>, d: Transition<M, E>, l: Loaded, event: E, works: bool, other: Loaded)
    requires Usable(sys, l) && HandleInv(sys, d, l)
    requires other in SendEvent(sys, d, l, event, works).handed && (other in sys.handed ==> HandleInv(sys, d, other))
    ensures HandleInv(SendEvent(sys, d, l, event, works), d, other)
  {
    var obj := sys.heap[l.ptr];
    hide EventsOf;
    var sys' := SendEvent(sys, d, l, event, works);
    if other in sys.handed {
      FoldOne(d, sys.rows[sys.heap[other.ptr].id].machine, obj.pending, event);
    }
  }

  lemma InsertKeepsInv<M, E>(sys: System<M, E>, d: Transition<M, E>, ptr: Ptr, id: Id, machine: M, works: bool)
    requires Inv(sys, d)
    ensures Inv(Step(sys, d, Insert(ptr, id, machine, works)), d)
  {
    var sys' := Step(sys, d, Insert(ptr, id, machine, works));
    if id !in sys.rows {
      NoEntryNoEvents(sys.log, id);
      forall l | l in sys'.handed
        ensures HandleInv(sys', d, l)
      {
        assert l in sys.handed ==> HandleInv(sys, d, l);
      }
      forall i | i in sys'.rows
        ensures RowInv(sys', d, i)
      {
        assert i in sys.rows ==> RowInv(sys, d, i);
      }
    }
  }

  lemma LoadKeepsInv<M, E>(sys: System<M, E>, d: Transition<M, E>, ptr: Ptr, id: Id, works: bool)
    requires Inv(sys, d)
    ensures Inv(Step(sys, d, Load(ptr, id, works)), d)
  {
    var sys' := Step(sys, d, Load(ptr, id, works));
    hide EventsOf;
    forall i | i in sys'.rows
      ensures RowInv(sys', d, i)
    {
      assert RowInv(sys, d, i);
    }
    forall l | l in sys'.handed
      ensures HandleInv(sys', d, l)
    {
      assert l in sys.handed ==> HandleInv(sys, d, l);
    }
  }

  lemma StepKeepsInv<M, E>(sys: System<M, E>, d: Transition<M, E>, a: Action<M, E>)
    requires Inv(sys, d)
    ensures Inv(Step(sys, d, a), d)
  {
    hide RowInv, HandleInv;
    match a
    case Insert(ptr, id, machine, works) => InsertKeepsInv(sys, d, ptr, id, machine, works);
    case Load(ptr, id, works) => LoadKeepsInv(sys, d, ptr, id, works);
    case Send(l, event, works) =>
      if Usable(sys, l) {
        var sys' := SendEvent(sys, d, l, event, works);
        forall id | id in sys'.rows
          ensures RowInv(sys', d, id)
        {
          SendKeepsRow(sys, d, l, event, works, id);
        }
        forall other | other in sys'.handed
          ensures HandleInv(sys', d, other)
        {
          SendKeepsHandle(sys, d, l, event, works, other);
        }
      }
  }

  /** What no step takes back. */
  ghost predicate Later<M, E>(sys: System<M, E>, sys': System<M, E>) {
    && (forall id :: id in sys.rows ==>
          && id in sys'.rows && sys.rows[id].birth == sys'.rows[id].birth
          && sys.rows[id].events <= sys'.rows[id].events)
    && sys.handed <= sys'.handed
    && (forall p :: p in sys.heap ==> p in sys'.heap && sys'.heap[p].id == sys.heap[p].id)
  }

  lemma StepMovesForward<M, E>(sys: System<M, E>, d: Transition<M, E>, a: Action<M, E>)
    ensures Later(sys, Step(sys, d, a))
  {
  }

  lemma {:induction false} RunKeepsInv<M, E>(sys: System<M, E>, d: Transition<M, E>, run: seq<Action<M, E>>)
    requires Inv(sys, d)
    ensures Inv(Exec(sys, d, run), d) && Later(sys, Exec(sys, d, run))
    decreases |run|
  {
    hide Inv, Step;
    if run != [] {
      StepKeepsInv(sys, d, run[0]);
      StepMovesForward(sys, d, run[0]);
      var next := Step(sys, d, run[0]);
      RunKeepsInv(next, d, run[1..]);
      var end := Exec(next, d, run[1..]);
      forall id | id in sys.rows
        ensures id in end.rows && sys.rows[id].birth == end.rows[id].birth && sys.rows[id].events <= end.rows[id].events
      {
        assert id in next.rows;
      }
    }
  }

  lemma {:induction false} ExecConcat<M, E>(
    sys: System<M, E>, d: Transition<M, E>, first: seq<Action<M, E>>, second: seq<Action<M, E>>)
    ensures Exec(sys, d, first + second) == Exec(Exec(sys, d, first), d, second)
    decreases |first|
  {
    if first == [] {
      assert first + second == second;
    } else {
      assert (first + second)[0] == first[0] && (first + second)[1..] == first[1..] + second;
      ExecConcat(Step(sys, d, first[0]), d, first[1..], second);
    }
  }

  // ---------------------------------------------------------------------------------------------
  // When the row is the fold of the committed events
  // ---------------------------------------------------------------------------------------------

  /** The step commits to row `id` a machine that carries more than its own event. */
  predicate DirtyCommit<M, E>(sys: System<M, E>, d: Transition<M, E>, a: Action<M, E>, id: Id) {
    && a.Send? && Usable(sys, a.loaded) && sys.heap[a.loaded.ptr].id == id
    && Answer(sys, d, a.loaded, a.event, a.works) == Committed && sys.heap[a.loaded.ptr].pending != []
  }

  /** No Apply that commits to row `id` uses a machine that an earlier, uncommitted Apply mutated. */
  predicate CleanRun<M, E>(sys: System<M, E>, d: Transition<M, E>, run: seq<Action<M, E>>, id: Id)
    decreases |run|
  {
    run != [] ==> !DirtyCommit(sys, d, run[0], id) && CleanRun(Step(sys, d, run[0]), d, run[1..], id)
  }

  ghost predicate Faithful<M, E>(sys: System<M, E>, id: Id) {
    id in sys.rows ==> sys.rows[id].effects == sys.rows[id].events
  }

  lemma StepFaithful<M, E>(sys: System<M, E>, d: Transition<M, E>, a: Action<M, E>, id: Id)
    requires Inv(sys, d)
    ensures Faithful(Step(sys, d, a), id) <==> Faithful(sys, id) && !DirtyCommit(sys, d, a, id)
  {
    hide Fold, EventsOf, HandleInv;
    if id in sys.rows {
      assert RowInv(sys, d, id);
      var row := sys.rows[id];
      if a.Send? && Usable(sys, a.loaded) && sys.heap[a.loaded.ptr].id == id
        && Answer(sys, d, a.loaded, a.event, a.works) == Committed {
        var pending := sys.heap[a.loaded.ptr].pending;
        var row' := Step(sys, d, a).rows[id];
        assert row'.effects == row.effects + (pending + [a.event]) && row'.events == row.events + [a.event];
        if pending == [] && row.effects == row.events {
          assert row'.effects == row'.events;
        } else {
          assert |row'.effects| > |row'.events|;
        }
      }
    }
  }

  /** For every interleaving: the mutations in a row are exactly its committed events if and only if every
      committing Apply used a machine nobody had mutated since it was loaded or last saved. */
  lemma {:induction false} ExactlyCommittedIff<M, E>(
    sys: System<M, E>, d: Transition<M, E>, run: seq<Action<M, E>>, id: Id)
    requires Inv(sys, d)
    ensures Faithful(Exec(sys, d, run), id) <==> Faithful(sys, id) && CleanRun(sys, d, run, id)
    decreases |run|
  {
    hide Inv, Step, DirtyCommit, Faithful;
    if run != [] {
      StepFaithful(sys, d, run[0], id);
      StepKeepsInv(sys, d, run[0]);
      ExactlyCommittedIff(Step(sys, d, run[0]), d, run[1..], id);
    }
  }

  lemma EmptyInv<M, E>(d: Transition<M, E>)
    ensures Inv(Empty<M, E>(), d)
  {
  }

  /** For every interleaving of clients: the row's version is one plus the number of commits, its events are
      the committed ones in commit order, and its machine is their fold over the inserted machine. */
  lemma RowIsFoldOfCommits<M, E>(d: Transition<M, E>, run: seq<Action<M, E>>, id: Id)
    requires id in Exec(Empty<M, E>(), d, run).rows && CleanRun(Empty<M, E>(), d, run, id)
    ensures
      var sys := Exec(Empty<M, E>(), d, run);
      var row := sys.rows[id];
      && row.machine == Fold(d, row.birth, row.events) && row.version == 1 + |row.events|
      && row.events == EventsOf(sys.log, id)
  {
    EmptyInv(d);
    hide Fold, EventsOf, Exec, CleanRun;
    RunKeepsInv(Empty<M, E>(), d, run);
    ExactlyCommittedIff(Empty<M, E>(), d, run, id);
    assert RowInv(Exec(Empty<M, E>(), d, run), d, id);
  }

  /** A Loaded that once got a stale answer can never commit later, although its machine was mutated. */
  lemma StaleNeverCommits<M, E>(
    d: Transition<M, E>, first: seq<Action<M, E>>, second: seq<Action<M, E>>, l: Loaded, e: E, e': E, works: bool)
    requires
      var sys := Exec(Empty<M, E>(), d, first);
      Usable(sys, l) && Answer(sys, d, l, e, true) == Stale
    ensures
      var sys' := Exec(Exec(Empty<M, E>(), d, first), d, [Send(l, e, true)] + second);
      Usable(sys', l) && Answer(sys', d, l, e', works) != Committed
  {
    EmptyInv(d);
    hide Exec, RowInv, Fold;
    RunKeepsInv(Empty<M, E>(), d, first);
    var sys := Exec(Empty<M, E>(), d, first);
    assert HandleInv(sys, d, l);
    var id := sys.heap[l.ptr].id;
    RunKeepsInv(sys, d, [Send(l, e, true)] + second);
    var sys' := Exec(sys, d, [Send(l, e, true)] + second);
    assert sys.rows[id].version <= sys'.rows[id].version by {
      VersionsGrow(sys, sys', d, id);
    }
  }

  lemma VersionsGrow<M, E>(sys: System<M, E>, sys': System<M, E>, d: Transition<M, E>, id: Id)
    requires Inv(sys, d) && Inv(sys', d) && Later(sys, sys') && id in sys.rows
    ensures sys.rows[id].version <= sys'.rows[id].version
  {
    assert RowInv(sys, d, id) && RowInv(sys', d, id);
  }

  // ---------------------------------------------------------------------------------------------
  // One writer and two
  // ---------------------------------------------------------------------------------------------

  /** A fresh load followed by an Apply with nobody in between commits if and only if the machine accepts the event
      and the driver works; the row then holds the machine's next state under the next version. */
  lemma LoadThenApply<M, E>(sys: System<M, E>, d: Transition<M, E>, ptr: Ptr, id: Id, event: E, works: bool)
    requires ptr !in sys.heap && id in sys.rows
    ensures
      var loaded, l := Step(sys, d, Load(ptr, id, true)), Loaded(ptr, sys.rows[id].version);
      var end, m := Step(loaded, d, Send(l, event, works)), sys.rows[id].machine;
      && Usable(loaded, l) && loaded.rows == sys.rows
      && Answer(loaded, d, l, event, works) ==
           (if !d(m, event).1 then Rejected else if works then Committed else DriverError)
      && end.rows.Keys == sys.rows.Keys && (forall other :: other in sys.rows && other != id ==>
           end.rows[other] == sys.rows[other])
      && if d(m, event).1 && works
         then end.rows[id].machine == d(m, event).0 && end.rows[id].version == sys.rows[id].version + 1
              && end.rows[id].events == sys.rows[id].events + [event]
         else end.rows[id] == sys.rows[id]
  {
  }

  /** Of two clients that loaded the same version, the second to write gets a stale answer and changes no row. */
  lemma SecondWriterIsStale<M, E>(sys: System<M, E>, d: Transition<M, E>, a: Loaded, b: Loaded, e: E, f: E)
    requires Usable(sys, a) && Usable(sys, b) && a.ptr != b.ptr && sys.heap[a.ptr].id == sys.heap[b.ptr].id
    requires a.version == b.version && Answer(sys, d, a, e, true) == Committed
    requires d(sys.heap[b.ptr].machine, f).1
    ensures
      var mid := Step(sys, d, Send(a, e, true));
      && Usable(mid, b) && Answer(mid, d, b, f, true) == Stale && Step(mid, d, Send(b, f, true)).rows == mid.rows
  {
  }

  /** The condition is needed: after a driver error, passing the same Loaded again writes its event twice. */
  lemma ReusedLoadedAppliesTwice()
    ensures
      var d: Transition<int, int> := (m, e) => (m + e, true);
      var l := Loaded(Ptr(0, 0), 1);
      var run := [Insert(Ptr(0, 0), 7, 10, true), Send(l, 1, false), Send(l, 1, true)];
      var sys := Exec(Empty<int, int>(), d, run);
      && 7 in sys.rows && sys.rows[7].events == [1] && sys.rows[7].machine == 12
      && !CleanRun(Empty<int, int>(), d, run, 7)
  {
    var d: Transition<int, int> := (m, e) => (m + e, true);
    var l := Loaded(Ptr(0, 0), 1);
    var a1, a2, a3 := Insert(Ptr(0, 0), 7, 10, true), Send(l, 1, false), Send(l, 1, true);
    ThreeSteps(Empty<int, int>(), d, a1, a2, a3, 7);
    hide Exec, CleanRun;
    var s1 := Step(Empty<int, int>(), d, a1);
    var s2 := Step(s1, d, a2);
    var s3 := Step(s2, d, a3);
    assert Usable(s1, l) && s2.heap[l.ptr] == Object(7, 11, [1]);
    assert Usable(s2, l) && s3.rows[7] == Row(12, 2, 10, [1], [1, 1]);
    assert DirtyCommit(s2, d, a3, 7);
  }

  lemma ThreeSteps<M, E>(
    sys: System<M, E>, d: Transition<M, E>, a: Action<M, E>, b: Action<M, E>, c: Action<M, E>, id: Id)
    ensures
      var s1 := Step(sys, d, a);
      var s2 := Step(s1, d, b);
      && Exec(sys, d, [a, b, c]) == Step(s2, d, c)
      && (CleanRun(sys, d, [a, b, c], id) ==> !DirtyCommit(s2, d, c, id))
  {
    hide Step, DirtyCommit;
    var run := [a, b, c];
    var s1 := Step(sys, d, a);
    var s2 := Step(s1, d, b);
    assert run[1..] == [b, c] && [b, c][1..] == [c] && [c][1..] == [];
    assert Exec(s2, d, [c]) == Step(s2, d, c);
    assert Exec(s1, d, [b, c]) == Exec(s2, d, [c]);
    assert CleanRun(s2, d, [c], id) ==> !DirtyCommit(s2, d, c, id);
    assert CleanRun(s1, d, [b, c], id) ==> CleanRun(s2, d, [c], id);
  }
}
