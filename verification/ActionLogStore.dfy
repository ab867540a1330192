/** Append as the source writes it (libs/cassandra-kernel/action_log_store.go:388-523), statement by statement
    against any interference by other Appends. */
module ActionLogStore {
  import opened ActionLog
  import opened ActionLogListing

  predicate OthersOnly(run: seq<Action>, me: ClientId) {
    forall i :: 0 <= i < |run| ==> run[i].id != me
  }

  /** What the rest of the cluster does in the k-th pause of `me`. */
  type Adversary = (nat, System) -> seq<Action>

  ghost predicate Admissible(env: Adversary, me: ClientId) {
    forall k, sys :: OthersOnly(env(k, sys), me)
  }

  lemma {:induction false} OthersLeaveMeAlone(sys: System, run: seq<Action>, codec: Codec, me: ClientId)
    requires OthersOnly(run, me) && me in sys.clients
    ensures me in Exec(sys, run, codec).clients && Exec(sys, run, codec).clients[me] == sys.clients[me]
    decreases |run|
  {
    if run != [] {
      assert run[0].id != me;
      assert OthersOnly(run[1..], me) by {
        forall i | 0 <= i < |run[1..]|
          ensures run[1..][i].id != me
        {
          assert run[1..][i] == run[i + 1];
        }
      }
      OthersLeaveMeAlone(Apply(sys, run[0], codec), run[1..], codec, me);
    }
  }

  /** Whoever appends the event of `me` brings the same row. */
  ghost predicate OnlyOneOfItsEvent(sys: System, me: ClientId)
    requires me in sys.clients
  {
    forall id :: id in sys.clients && sys.clients[id].key == sys.clients[me].key ==>
      sys.clients[id].row == sys.clients[me].row
  }

  lemma OwnEventIsFilled(sys: System, me: ClientId, entry: Entry, codec: Codec)
    requires Inv(sys) && Brought(sys) && Proper(codec) && me in sys.clients && OnlyOneOfItsEvent(sys, me)
    requires sys.clients[me] == Client(KeyFor(entry, codec), RowFromEntry(entry, codec), Done(true))
    ensures Filled(sys.tables, entry, DeriveEventId(entry, codec))
  {
    hide Proper, EventsInv, FanInv, RowFromEntry, Filled;
    assert ClientInv(sys.tables, sys.clients[me]);
    var key := sys.clients[me].key;
    var id :| id in sys.clients && sys.clients[id].key == key && sys.clients[id].row == sys.tables.events[key];
    hide Landed;
    LandedIsFilled(sys.tables, entry, codec);
  }

  class Store {
    const codec: Codec
    var sys: System
    var clock: nat

    ghost predicate Valid()
      reads this
    {
      Proper(codec) && Inv(sys) && Brought(sys)
    }

    constructor (codec: Codec)
      requires Proper(codec)
      ensures Valid() && this.codec == codec && sys == INIT
    {
      this.codec, sys, clock := codec, INIT, 0;
    }

    method Pause(me: ClientId, env: Adversary)
      requires Valid() && Admissible(env, me) && me in sys.clients
      modifies this
      ensures Valid() && Later(old(sys).tables, sys.tables)
      ensures me in sys.clients && sys.clients[me] == old(sys).clients[me]
    {
      hide Inv, Proper, Brought;
      var run := env(clock, sys);
      OthersLeaveMeAlone(sys, run, codec, me);
      RunKeepsInv(sys, run, codec);
      RunKeepsBrought(sys, run, codec);
      sys, clock := Exec(sys, run, codec), clock + 1;
    }

    /** One statement; afterwards the Append is where the statement's answer leads. */
    method Send(me: ClientId, env: Adversary, answers: nat -> Reply) returns (ok: bool, ghost seen: Tables)
      requires Valid() && Admissible(env, me) && me in sys.clients && !sys.clients[me].pc.Done?
      modifies this
      ensures Valid() && Later(old(sys).tables, seen) && Later(old(sys).tables, sys.tables) && me in sys.clients
      ensures sys.clients[me] == old(sys).clients[me].(
        pc := if ok then NextPc(seen, old(sys).clients[me], codec) else Done(false))
    {
      hide Inv, Proper, Brought, NextPc, Effect;
      Pause(me, env);
      seen := sys.tables;
      var reply := answers(clock);
      ok := reply == Delivered;
      StepKeepsInv(sys, Step(me, reply), codec);
      StepKeepsBrought(sys, Step(me, reply), codec);
      sys := Apply(sys, Step(me, reply), codec);
    }

    /** putEventRow: whether the canonical row is this client's; then the fan-out or the read follows. */
    method PutEventRow(me: ClientId, env: Adversary, answers: nat -> Reply) returns (ok: bool, applied: bool)
      requires Valid() && Admissible(env, me) && me in sys.clients && sys.clients[me].pc == PutEvent
      modifies this
      ensures Valid() && me in sys.clients
      ensures sys.clients[me] == old(sys).clients[me].(pc :=
        if !ok then Done(false) else if applied then FanOut(old(sys).clients[me].row, codec) else ReadEvent)
    {
      hide Inv, Proper, Brought, FanOut;
      ghost var seen;
      ok, seen := Send(me, env, answers);
      applied := !sys.clients[me].pc.ReadEvent?;
    }

    /** readEventRow: the canonical row as read back. */
    method ReadEventRow(me: ClientId, env: Adversary, answers: nat -> Reply) returns (ok: bool)
      requires Valid() && Admissible(env, me) && me in sys.clients && sys.clients[me].pc == ReadEvent
      modifies this
      ensures Valid() && me in sys.clients
      ensures var c := old(sys).clients[me];
        && c.key in sys.tables.events
        && sys.clients[me] == c.(pc :=
             if ok then FanOut(Reread(sys.tables.events[c.key]), codec) else Done(false))
    {
      hide Proper, Brought, FanOut, FanInv, EventsInv, Reread;
      assert ClientInv(sys.tables, sys.clients[me]);
      hide Inv;
      ghost var seen;
      ok, seen := Send(me, env, answers);
    }

    /** writeActionFanout: the three fan-out statements, the last only for rows with a target. */
    method WriteActionFanout(me: ClientId, env: Adversary, answers: nat -> Reply) returns (ok: bool)
      requires Valid() && Admissible(env, me) && me in sys.clients
      requires sys.clients[me].pc.WriteLog? || sys.clients[me].pc == Done(false)
      modifies this
      ensures Valid() && me in sys.clients
      ensures sys.clients[me] == old(sys).clients[me].(pc := Done(ok))
    {
      hide Inv, Proper, Brought, Reread, FanOut;
      if sys.clients[me].pc.Done? {
        return false;
      }
      var row := sys.clients[me].pc.row;
      ghost var seen;
      ok, seen := Send(me, env, answers);
      if !ok {
        return;
      }
      ok, seen := Send(me, env, answers);
      if !ok || row.target.None? {
        return;
      }
      ok, seen := Send(me, env, answers);
    }

    /** Append: a success means the event has its by-action row, holding the canonical row when that row's
        subject is stable; repeating an Append after any failure is harmless.  When no other client brought another
        row for the event, the stored rows list as the caller's entry, column by column. */
    method Append(me: ClientId, entry: Entry, env: Adversary, answers: nat -> Reply) returns (ok: bool)
      requires Valid() && Admissible(env, me) && me !in sys.clients
      modifies this
      ensures Valid() && me in sys.clients
      ensures sys.clients[me] == Client(KeyFor(entry, codec), RowFromEntry(entry, codec), Done(ok))
      ensures ok ==>
        var key := KeyFor(entry, codec);
        && key in sys.tables.events
        && var at := ActionKeyOf(key, sys.tables.events[key]);
           && at in sys.tables.byAction
           && (Stable(sys.tables.events[key].subject) ==> sys.tables.byAction[at] == sys.tables.events[key])
      ensures ok && OnlyOneOfItsEvent(sys, me) ==> Filled(sys.tables, entry, DeriveEventId(entry, codec))
    {
      hide Proper, Brought, FanInv, EventsInv, Reread, Blank, DeriveEventId, RowFromEntry, FanOut;
      StepKeepsInv(sys, Begin(me, entry), codec);
      StepKeepsBrought(sys, Begin(me, entry), codec);
      sys := Apply(sys, Begin(me, entry), codec);
      hide Inv;
      var applied;
      ok, applied := PutEventRow(me, env, answers);
      if !ok {
        return;
      }
      if !applied {
        ok := ReadEventRow(me, env, answers);
        if !ok {
          return;
        }
      }
      FanOutStarts(sys.clients[me], codec);
      ok := WriteActionFanout(me, env, answers);
      if ok {
        LandedMeansStored(sys, me);
        if OnlyOneOfItsEvent(sys, me) {
          OwnEventIsFilled(sys, me, entry, codec);
        }
      }
    }
  }

  lemma FanOutStarts(c: Client, codec: Codec)
    ensures forall row :: FanOut(row, codec).WriteLog? || FanOut(row, codec) == Done(false)
  {
  }

  lemma LandedMeansStored(sys: System, me: ClientId)
    requires Inv(sys) && me in sys.clients && sys.clients[me].pc == Done(true)
    ensures
      var t, key := sys.tables, sys.clients[me].key;
      && key in t.events
      && var at := ActionKeyOf(key, t.events[key]);
         at in t.byAction && (Stable(t.events[key].subject) ==> t.byAction[at] == t.events[key])
  {
    hide Blank, Reread;
    assert ClientInv(sys.tables, sys.clients[me]);
    var t, key := sys.tables, sys.clients[me].key;
    CopiesShareKeys(t, key, t.byAction[ActionKeyOf(key, t.events[key])]);
  }
}
