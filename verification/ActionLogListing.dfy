/**
 What was appended is what is listed (libs/cassandra-kernel/action_log_store.go): an entry goes through rowFromEntry,
 the canonical row and the fan-out, and comes back through entryFromRow and the walk over day buckets.
 */
module ActionLogListing {
  import opened Common
  import opened ActionLog
  import opened ActionLogPaging
  import opened Text

  // ---------------------------------------------------------------------------------------------
  // Where canonical rows come from
  // ---------------------------------------------------------------------------------------------

  /** The canonical row of every event was brought by a client that appends this event. */
  ghost predicate Brought(sys: System) {
    forall k :: k in sys.tables.events ==>
      exists id :: id in sys.clients && sys.clients[id].key == k && sys.clients[id].row == sys.tables.events[k]
  }

  /** No action changes the event or the row an Append brings. */
  ghost predicate SameWork(sys: System, sys': System) {
    forall id :: id in sys.clients ==>
      && id in sys'.clients
      && sys'.clients[id].key == sys.clients[id].key && sys'.clients[id].row == sys.clients[id].row
  }

  lemma StepKeepsBrought(sys: System, a: Action, codec: Codec)
    requires Brought(sys)
    ensures Brought(Apply(sys, a, codec)) && SameWork(sys, Apply(sys, a, codec))
  {
    hide RowFromEntry, DeriveEventId, NextPc, Brought;
    var sys' := Apply(sys, a, codec);
    assert sys'.tables.events == sys.tables.events ||
      (a.id in sys.clients && sys'.tables.events == sys.tables.events[sys.clients[a.id].key := sys.clients[a.id].row]);
    hide Apply, Effect;
    StillBrought(sys, sys', a.id);
  }

  lemma StillBrought(sys: System, sys': System, id: ClientId)
    requires Brought(sys) && SameWork(sys, sys')
    requires sys'.tables.events == sys.tables.events ||
      (id in sys.clients && sys'.tables.events == sys.tables.events[sys.clients[id].key := sys.clients[id].row])
    ensures Brought(sys')
  {
    forall k | k in sys'.tables.events
      ensures exists i ::
        i in sys'.clients && sys'.clients[i].key == k && sys'.clients[i].row == sys'.tables.events[k]
    {
      if k in sys.tables.events && sys'.tables.events[k] == sys.tables.events[k] {
        var i :| i in sys.clients && sys.clients[i].key == k && sys.clients[i].row == sys.tables.events[k];
        assert i in sys'.clients && sys'.clients[i].key == k;
      } else {
        assert id in sys'.clients && sys'.clients[id].key == k;
      }
    }
  }

  lemma {:induction false} RunKeepsBrought(sys: System, run: seq<Action>, codec: Codec)
    requires Brought(sys)
    ensures Brought(Exec(sys, run, codec)) && SameWork(sys, Exec(sys, run, codec))
    decreases |run|
  {
    hide Apply, Brought;
    if run != [] {
      StepKeepsBrought(sys, run[0], codec);
      RunKeepsBrought(Apply(sys, run[0], codec), run[1..], codec);
    }
  }

  // ---------------------------------------------------------------------------------------------
  // Rows read as the entries they come from
  // ---------------------------------------------------------------------------------------------

  /** The listed entry is the appended one under its derived event id; only a blank subject is lost. */
  ghost predicate ListedAs(listed: Entry, e: Entry, event: EventId) {
    && listed.tenant == e.tenant && listed.eventId == Some(event)
    && listed.actionId == e.actionId && listed.kind == e.kind && listed.target == e.target
    && listed.payload == e.payload && listed.recordedAtMs == e.recordedAtMs
    && listed.subject == if Trim(e.subject) == "" then "" else e.subject
  }

  /** What a listing makes of a stored row. */
  function Read(tenant: Tenant, event: EventId, row: Row, valid: bool): Entry {
    EntryFromRow(tenant, LogRow(Some(event), row, valid))
  }

  /** The columns of a row are the caller's. */
  ghost predicate Columns(row: Row, e: Entry) {
    && row.actionId == e.actionId && row.kind == e.kind && row.target == e.target
    && row.payload == e.payload && row.appliedAt == e.recordedAtMs
  }

  lemma OwnRowReads(e: Entry, codec: Codec, event: EventId, valid: bool)
    requires Proper(codec)
    ensures
      var row := RowFromEntry(e, codec);
      && Columns(row, e) && Columns(Reread(row), e)
      && ListedAs(Read(e.tenant, event, row, valid), e, event)
      && ListedAs(Read(e.tenant, event, Reread(row), valid), e, event)
  {
    BeginIsStored(e, codec);
    RereadIsIdentityIff(RowFromEntry(e, codec));
    hide Reread, MsToDayBucket, Trim;
    assert Blank(e.subject) ==> codec.uuidOf(e.subject).None?;
    assert Trim("") == "" by { EmptyIsBlank(); }
  }

  lemma EmptyIsBlank()
    ensures Trim("") == ""
  {
    assert TrimLeft("") == "";
  }

  /** The caller's own tenant, day, time and action. */
  function LogKeyFor(e: Entry): LogKey {
    LogKey(e.tenant, MsToDayBucket(e.recordedAtMs), e.recordedAtMs, e.actionId)
  }

  function ActionKeyFor(e: Entry, event: EventId): ActionKey {
    ActionKey(e.tenant, e.actionId, MsToDayBucket(e.recordedAtMs), e.recordedAtMs, event)
  }

  /** The by-action row and, unless its millisecond is shared, the actions_log row of the event read as e. */
  ghost predicate Filled(t: Tables, e: Entry, event: EventId) {
    && ActionKeyFor(e, event) in t.byAction && Columns(t.byAction[ActionKeyFor(e, event)], e)
    && ListedAs(Read(e.tenant, event, t.byAction[ActionKeyFor(e, event)], true), e, event)
    && LogKeyFor(e) in t.log
    && (t.log[LogKeyFor(e)].event == event ==>
          ListedAs(Read(e.tenant, event, t.log[LogKeyFor(e)].row, true), e, event))
  }

  /** An event that has landed, whose canonical row is e's. */
  lemma LandedIsFilled(t: Tables, e: Entry, codec: Codec)
    requires Proper(codec) && EventsInv(t) && FanInv(t) && Landed(t, KeyFor(e, codec))
    requires t.events[KeyFor(e, codec)] == RowFromEntry(e, codec)
    ensures Filled(t, e, KeyFor(e, codec).event)
  {
    var key := KeyFor(e, codec);
    OwnRowReads(e, codec, key.event, true);
    hide Proper, EventsInv, Reread, MsToDayBucket, DeriveEventId, ListedAs, Read, Columns;
    var row := t.events[key];
    assert ActionKeyOf(key, row) == ActionKeyFor(e, key.event) && LogKeyOf(key.tenant, row) == LogKeyFor(e);
    assert Canonical(t, key, t.byAction[ActionKeyFor(e, key.event)]);
    if t.log[LogKeyFor(e)].event == key.event {
      assert Canonical(t, key, t.log[LogKeyFor(e)].row);
    }
  }

  // ---------------------------------------------------------------------------------------------
  // Which appends are one event
  // ---------------------------------------------------------------------------------------------

  /** An id the caller gives, blanks around it apart, decides alone which event an entry is; without one the payload's
      id does, and without that the name-based id. */
  lemma EventIdMeaning(e: Entry, f: Entry, codec: Codec)
    ensures e.eventId.Some? && Trim(e.eventId.value) != "" ==> DeriveEventId(e, codec) == Trim(e.eventId.value)
    ensures
      e.tenant == f.tenant && e.eventId.Some? && f.eventId.Some? && Trim(e.eventId.value) != ""
      && Trim(e.eventId.value) == Trim(f.eventId.value) ==>
        KeyFor(e, codec) == KeyFor(f, codec)
    ensures (e.eventId.None? || Trim(e.eventId.value) == "") && codec.payloadId(e.kind, e.payload) != "" ==>
      DeriveEventId(e, codec) == codec.payloadId(e.kind, e.payload)
    ensures (e.eventId.None? || Trim(e.eventId.value) == "") && codec.payloadId(e.kind, e.payload) == "" ==>
      DeriveEventId(e, codec) == codec.derivedId(e)
  {
  }

  // ---------------------------------------------------------------------------------------------
  // Append, then list
  // ---------------------------------------------------------------------------------------------

  /** `id` was begun with e at position j of the run. */
  predicate BegunAt(run: seq<Action>, j: nat, id: ClientId, e: Entry) {
    j < |run| && run[j] == Begin(id, e)
  }

  /** Every client comes from the Begin that named it, with that entry's event and row. */
  ghost predicate FromBegin(run: seq<Action>, sys: System, id: ClientId, codec: Codec)
    requires id in sys.clients
  {
    exists j, e :: BegunAt(run, j, id, e)
      && sys.clients[id].key == KeyFor(e, codec) && sys.clients[id].row == RowFromEntry(e, codec)
  }

  lemma {:induction false} ClientsFromBegin(run: seq<Action>, codec: Codec, id: ClientId)
    requires id in Exec(INIT, run, codec).clients
    ensures FromBegin(run, Exec(INIT, run, codec), id, codec)
    decreases |run|
  {
    hide RowFromEntry, KeyFor, Effect, NextPc;
    if run != [] {
      var front, a := run[..|run| - 1], run[|run| - 1];
      assert run == front + [a];
      ExecConcat(INIT, front, [a], codec);
      assert [a][1..] == [];
      var sys := Exec(INIT, front, codec);
      assert Exec(sys, [a], codec) == Apply(sys, a, codec);
      if id in sys.clients {
        ClientsFromBegin(front, codec, id);
        var j, e :| BegunAt(front, j, id, e)
          && sys.clients[id].key == KeyFor(e, codec) && sys.clients[id].row == RowFromEntry(e, codec);
        assert BegunAt(run, j, id, e);
      } else {
        assert BegunAt(run, |run| - 1, id, a.entry);
        assert KeyFor(a.entry, codec) == EventKey(a.entry.tenant, DeriveEventId(a.entry, codec)) by {
          KeyForMeans(a.entry, codec);
        }
      }
    }
  }

  lemma KeyForMeans(e: Entry, codec: Codec)
    ensures KeyFor(e, codec) == EventKey(e.tenant, DeriveEventId(e, codec))
  {
  }

  /** For every interleaving with crashes, retries and lost answers: once an Append of an event has succeeded, the
      event's by-action row, and its actions_log row unless another event has the same action and millisecond, list
      as an entry that was appended for this event, whichever of its Appends came first. */
  lemma AppendThenRead(run: seq<Action>, codec: Codec, id: ClientId)
    requires Proper(codec)
    requires id in Exec(INIT, run, codec).clients && Exec(INIT, run, codec).clients[id].pc == Done(true)
    ensures
      var sys := Exec(INIT, run, codec);
      exists j, writer, e ::
        BegunAt(run, j, writer, e) && KeyFor(e, codec) == sys.clients[id].key
        && Filled(sys.tables, e, sys.clients[id].key.event)
  {
    var sys := Exec(INIT, run, codec);
    RunKeepsInv(INIT, run, codec);
    RunKeepsBrought(INIT, run, codec);
    assert ClientInv(sys.tables, sys.clients[id]);
    var key := sys.clients[id].key;
    var writer :| writer in sys.clients && sys.clients[writer].key == key
                  && sys.clients[writer].row == sys.tables.events[key];
    ClientsFromBegin(run, codec, writer);
    var j, e :| BegunAt(run, j, writer, e)
      && sys.clients[writer].key == KeyFor(e, codec) && sys.clients[writer].row == RowFromEntry(e, codec);
    hide Proper, EventsInv, FanInv, Landed, RowFromEntry, KeyFor, Filled, Exec;
    LandedIsFilled(sys.tables, e, codec);
  }

  /** The appends of one event all carry the same entry: a first attempt and its retries. */
  ghost predicate OnlyEntryOfItsEvent(run: seq<Action>, e: Entry, codec: Codec) {
    forall j, id, f :: BegunAt(run, j, id, f) && KeyFor(f, codec) == KeyFor(e, codec) ==> f == e
  }

  /** Some other event of the same tenant and action was appended for the same millisecond. */
  ghost predicate MillisecondShared(run: seq<Action>, e: Entry, codec: Codec) {
    exists j, id, f :: BegunAt(run, j, id, f) && KeyFor(f, codec) != KeyFor(e, codec)
      && f.tenant == e.tenant && f.actionId == e.actionId && f.recordedAtMs == e.recordedAtMs
  }

  /** Append, then list: when an Append of e has succeeded, and e is all that was ever appended for its event, then
      the actions_log row under e's own day, time and action lists as e, unless its millisecond is shared. */
  lemma AppendThenList(run: seq<Action>, codec: Codec, id: ClientId, e: Entry)
    requires Proper(codec) && OnlyEntryOfItsEvent(run, e, codec) && !MillisecondShared(run, e, codec)
    requires id in Exec(INIT, run, codec).clients && Exec(INIT, run, codec).clients[id].pc == Done(true)
    requires Exec(INIT, run, codec).clients[id].key == KeyFor(e, codec)
    ensures
      var t, event := Exec(INIT, run, codec).tables, DeriveEventId(e, codec);
      && LogKeyFor(e) in t.log && t.log[LogKeyFor(e)].event == event
      && ListedAs(Read(e.tenant, event, t.log[LogKeyFor(e)].row, true), e, event)
  {
    AppendThenRead(run, codec, id);
    var t := Exec(INIT, run, codec).tables;
    KeyForMeans(e, codec);
    assert Filled(t, e, KeyFor(e, codec).event);
    LogRowFromBegin(run, codec, LogKeyFor(e));
  }

  /** The event an actions_log row names was appended with the tenant, day, time and action of the row's key. */
  lemma LogRowFromBegin(run: seq<Action>, codec: Codec, k: LogKey)
    requires Proper(codec) && k in Exec(INIT, run, codec).tables.log
    ensures exists j, id, f ::
      BegunAt(run, j, id, f) && LogKeyFor(f) == k
      && KeyFor(f, codec) == EventKey(k.tenant, Exec(INIT, run, codec).tables.log[k].event)
  {
    var sys := Exec(INIT, run, codec);
    LogIsCanonical(run, codec, k);
    RunKeepsBrought(INIT, run, codec);
    var key := EventKey(k.tenant, sys.tables.log[k].event);
    var id :| id in sys.clients && sys.clients[id].key == key && sys.clients[id].row == sys.tables.events[key];
    ClientsFromBegin(run, codec, id);
    var j, f :| BegunAt(run, j, id, f)
      && sys.clients[id].key == KeyFor(f, codec) && sys.clients[id].row == RowFromEntry(f, codec);
    hide Exec, DeriveEventId;
    assert LogKeyFor(f) == LogKeyOf(k.tenant, sys.tables.events[key]);
  }

  // ---------------------------------------------------------------------------------------------
  // An Append on its own
  // ---------------------------------------------------------------------------------------------

  /** Five delivered statements, more than any Append needs. */
  function Alone(sys: System, id: ClientId, codec: Codec, n: nat): System {
    if n == 0 then sys else Apply(Alone(sys, id, codec, n - 1), Step(id, Delivered), codec)
  }

  /** The payload of the event's canonical row: the stored one, or the caller's for a new event. */
  function CanonicalPayload(sys: System, e: Entry, codec: Codec): string {
    var key := KeyFor(e, codec);
    if key in sys.tables.events then sys.tables.events[key].payload else e.payload
  }

  lemma StoredAlone(sys: System, id: ClientId, key: EventKey, row: Row, codec: Codec)
    requires id in sys.clients && sys.clients[id] == Client(key, row, PutEvent)
    ensures
      var known := key in sys.tables.events;
      var s2 := if known then Alone(sys, id, codec, 2) else Alone(sys, id, codec, 1);
      var canonical := if known then Reread(sys.tables.events[key]) else row;
      && id in s2.clients && s2.clients[id] == Client(key, row, FanOut(canonical, codec))
      && s2.tables == if known then sys.tables else sys.tables.(events := sys.tables.events[key := row])
  {
    hide FanOut, Reread;
    var s1 := Apply(sys, Step(id, Delivered), codec);
    assert Alone(sys, id, codec, 0) == sys;
    assert Alone(sys, id, codec, 1) == s1;
    assert Alone(sys, id, codec, 2) == Apply(s1, Step(id, Delivered), codec);
  }

  lemma FinishedIsIdle(sys: System, id: ClientId, codec: Codec, n: nat)
    requires id in sys.clients && sys.clients[id].pc.Done?
    ensures Alone(sys, id, codec, n) == sys
  {
  }

  lemma {:induction false} AloneAdds(sys: System, id: ClientId, codec: Codec, n: nat, m: nat)
    ensures Alone(Alone(sys, id, codec, n), id, codec, m) == Alone(sys, id, codec, n + m)
    decreases m
  {
    hide Apply;
    if m > 0 {
      AloneAdds(sys, id, codec, n, m - 1);
    }
  }

  lemma FannedOutAlone(sys: System, id: ClientId, codec: Codec, n: nat)
    requires id in sys.clients && sys.clients[id].pc.WriteLog? && n >= 3
    ensures
      var c, end := sys.clients[id], Alone(sys, id, codec, n);
      && id in end.clients && end.clients[id].pc == Done(true) && end.tables.events == sys.tables.events
      && end.tables.log == sys.tables.log[LogKeyOf(c.key.tenant, c.pc.row) := Filed(c.key.event, c.pc.row)]
      && end.tables.byAction == sys.tables.byAction[ActionKeyOf(c.key, c.pc.row) := c.pc.row]
      && end.tables.byObject ==
           if c.pc.row.target.None? then sys.tables.byObject
           else sys.tables.byObject[ObjectKeyOf(c.key.tenant, c.pc.row) := Filed(c.key.event, c.pc.row)]
  {
    var s1 := Apply(sys, Step(id, Delivered), codec);
    var s2 := Apply(s1, Step(id, Delivered), codec);
    var s3 := Apply(s2, Step(id, Delivered), codec);
    assert Alone(sys, id, codec, 0) == sys;
    assert Alone(sys, id, codec, 2) == Apply(Alone(sys, id, codec, 1), Step(id, Delivered), codec);
    assert Alone(sys, id, codec, 3) == s3;
    AloneAdds(sys, id, codec, 3, n - 3);
    hide Alone, Apply;
    FinishedIsIdle(s3, id, codec, n - 3);
  }

  /** An Append that nobody disturbs is over after five statements at most.  It stores the canonical row of a new
      event with the caller's columns and leaves a known event as it was.  It succeeds if and only if the payload of
      the canonical row decodes as an object; otherwise the three read tables are untouched. */
  lemma AppendAloneIff(sys: System, id: ClientId, e: Entry, codec: Codec)
    requires id !in sys.clients && Proper(codec)
    ensures
      var end := Alone(Apply(sys, Begin(id, e), codec), id, codec, 5);
      var key, t, t' := KeyFor(e, codec), sys.tables, end.tables;
      && id in end.clients && end.clients[id].pc.Done?
      && (end.clients[id].pc == Done(true) <==> codec.isObject(CanonicalPayload(sys, e, codec)))
      && key in t'.events && t'.events == t.events[key := t'.events[key]]
      && (if key in t.events then t'.events[key] == t.events[key] else Columns(t'.events[key], e))
      && (!codec.isObject(CanonicalPayload(sys, e, codec)) ==>
            t'.log == t.log && t'.byAction == t.byAction && t'.byObject == t.byObject)
  {
    var begun := Apply(sys, Begin(id, e), codec);
    var key, row := KeyFor(e, codec), RowFromEntry(e, codec);
    OwnRowReads(e, codec, key.event, true);
    hide Proper, Columns, KeyFor, RowFromEntry, Reread, Alone;
    assert begun.clients[id] == Client(key, row, PutEvent) && begun.tables == sys.tables by { KeyForMeans(e, codec); }
    StoredAlone(begun, id, key, row, codec);
    var n := if key in sys.tables.events then 2 else 1;
    var canonical := if key in sys.tables.events then Reread(sys.tables.events[key]) else row;
    var stored := Alone(begun, id, codec, n);
    AloneAdds(begun, id, codec, n, 5 - n);
    CanonicalPayloadIs(sys, e, codec, canonical);
    hide Apply, CanonicalPayload;
    if codec.isObject(canonical.payload) {
      FannedOutAlone(stored, id, codec, 5 - n);
    } else {
      FinishedIsIdle(stored, id, codec, 5 - n);
    }
  }

  lemma CanonicalPayloadIs(sys: System, e: Entry, codec: Codec, canonical: Row)
    requires
      var key := KeyFor(e, codec);
      canonical == if key in sys.tables.events then Reread(sys.tables.events[key]) else RowFromEntry(e, codec)
    ensures canonical.payload == CanonicalPayload(sys, e, codec)
  {
  }

  // ---------------------------------------------------------------------------------------------
  // The table as the listing walks it
  // ---------------------------------------------------------------------------------------------

  /** The live cells of a day bucket are the rows actions_log holds for the tenant and day. */
  ghost predicate Reflects(data: Buckets, t: Tables, tenant: Tenant, parses: string -> bool) {
    forall day: nat, r: LogRow :: Live(r) in data(day) <==> InLog(t, tenant, day, r, parses)
  }

  ghost predicate InLog(t: Tables, tenant: Tenant, day: nat, r: LogRow, parses: string -> bool) {
    exists k :: k in t.log && k.tenant == tenant && k.day == day
      && r == LogRow(Some(t.log[k].event), t.log[k].row, parses(t.log[k].row.payload))
  }

  lemma {:induction false} WindowHolds(data: Buckets, today: nat, n: nat, day: nat, c: Cell)
    requires n <= today + 1 && today - n < day <= today && c in data(day)
    ensures c in Window(data, today, n)
    decreases n
  {
    if day > today - (n - 1) {
      WindowHolds(data, today, n - 1, day, c);
    }
  }

  lemma {:induction false} LiveRowsHold(cells: seq<Cell>, r: LogRow)
    requires Live(r) in cells
    ensures r in LiveRows(cells)
    decreases |cells|
  {
    var front := cells[..|cells| - 1];
    assert cells == front + [cells[|cells| - 1]];
    if Live(r) in front {
      LiveRowsHold(front, r);
    }
  }

  /** The whole law: an Append that succeeded is in the listing of ListAll as long as its day is in the window. */
  lemma AppendedIsListed(run: seq<Action>, codec: Codec, id: ClientId, e: Entry, data: Buckets, today: nat,
                         parses: string -> bool)
    requires Proper(codec) && OnlyEntryOfItsEvent(run, e, codec) && !MillisecondShared(run, e, codec)
    requires id in Exec(INIT, run, codec).clients && Exec(INIT, run, codec).clients[id].pc == Done(true)
    requires Exec(INIT, run, codec).clients[id].key == KeyFor(e, codec)
    requires Reflects(data, Exec(INIT, run, codec).tables, e.tenant, parses)
    requires today - WindowSize(today) < MsToDayBucket(e.recordedAtMs) <= today
    ensures
      var listing := Entries(e.tenant, LiveRows(Window(data, today, WindowSize(today))));
      exists i :: 0 <= i < |listing| && ListedAs(listing[i], e, DeriveEventId(e, codec))
  {
    AppendThenList(run, codec, id, e);
    FloorDays(e.recordedAtMs);
    hide Exec, Proper, OnlyEntryOfItsEvent, MillisecondShared, MsToDayBucket, DeriveEventId, Window, LiveRows, ListedAs;
    var t, k := Exec(INIT, run, codec).tables, LogKeyFor(e);
    var r := LogRow(Some(t.log[k].event), t.log[k].row, parses(t.log[k].row.payload));
    assert InLog(t, e.tenant, k.day, r, parses);
    WindowHolds(data, today, WindowSize(today), k.day, Live(r));
    var rows := LiveRows(Window(data, today, WindowSize(today)));
    LiveRowsHold(Window(data, today, WindowSize(today)), r);
    var i :| 0 <= i < |rows| && rows[i] == r;
    assert Entries(e.tenant, rows)[i] == Read(e.tenant, t.log[k].event, t.log[k].row, true);
  }
}
