/**
 The idempotent event append of the action log (libs/cassandra-kernel/action_log_store.go): one canonical row
 per event, written with IF NOT EXISTS, fanned out to three read tables by every attempt.

 Every CQL statement is one atomic step.  Any number of Appends interleave, one that crashes takes no
 more steps, and a statement may fail with or without having taken effect.
 */
module ActionLog {
  import opened Common
  import opened GoInt
  import opened Text

  const DAY_MS := 86_400_000
  const EPOCH := 0x8000_0000

  type Tenant = string
  type EventId = string
  type Uuid = string
  type ClientId = nat

  // ---------------------------------------------------------------------------------------------
  // Day buckets
  // ---------------------------------------------------------------------------------------------

  /** msToDayBucket, with the conversion to 32 bits written out. */
  function MsToDayBucket(ms: int): int {
    var days := TruncDiv(ms, DAY_MS);
    var floor := if ms < 0 && TruncMod(ms, DAY_MS) != 0 then days - 1 else days;
    (EPOCH + floor) % TWO32
  }

  /** dayBucketToTime, in milliseconds. */
  function DayBucketToMs(day: int): int {
    (day - EPOCH) * DAY_MS
  }

  /** Reading a stored bucket back gives the same bucket. */
  lemma BucketRoundTrip(day: int)
    requires 0 <= day < TWO32
    ensures MsToDayBucket(DayBucketToMs(day)) == day
  {
    var days := day - EPOCH;
    assert TruncDiv(days * DAY_MS, DAY_MS) == days by {
      if days < 0 {
        assert (-(days * DAY_MS)) == (-days) * DAY_MS;
        assert ((-days) * DAY_MS) / DAY_MS == -days;
      }
    }
  }

  lemma FloorDays(ms: int)
    ensures MsToDayBucket(ms) == (EPOCH + ms / DAY_MS) % TWO32
  {
    var q, r := (-ms) / DAY_MS, (-ms) % DAY_MS;
    if ms < 0 {
      assert -ms == q * DAY_MS + r;
      if r == 0 {
        assert ms == (-q) * DAY_MS;
      } else {
        assert ms == (-q - 1) * DAY_MS + (DAY_MS - r);
      }
    }
  }

  /** A bucket contains the instants filed under it exactly when their day number fits 32 bits. */
  lemma BucketContainsIff(ms: int)
    ensures MsToDayBucket(0) == 0x8000_0000
    ensures var start := DayBucketToMs(MsToDayBucket(ms));
      start <= ms < start + 86_400_000 <==> -0x8000_0000 <= ms / 86_400_000 < 0x8000_0000
  {
    FloorDays(ms);
    var days := ms / DAY_MS;
    var wrapped := (EPOCH + days) % TWO32 - EPOCH;
    assert days * DAY_MS <= ms < days * DAY_MS + DAY_MS;
    if -EPOCH <= days < EPOCH {
      assert wrapped == days;
    } else {
      assert wrapped != days;
    }
  }

  // ---------------------------------------------------------------------------------------------
  // Rows
  // ---------------------------------------------------------------------------------------------

  datatype Entry = Entry(
    tenant: Tenant, eventId: Option<string>, actionId: Uuid, kind: string, subject: string,
    target: Option<Uuid>, payload: string, recordedAtMs: int)

  /** actionLogRow without its key (tenant, event). */
  datatype Row = Row(
    actionId: Uuid, kind: string, actor: Option<Uuid>, subject: string,
    target: Option<Uuid>, payload: string, appliedAt: int, day: int)

  /** Parsers outside the model: UUIDs in subjects, ids in payloads, the name-based id, and whether a payload
      decodes as a JSON object. */
  datatype Codec = Codec(
    uuidOf: string -> Option<Uuid>, payloadId: (string, string) -> string,
    derivedId: Entry -> string, isObject: string -> bool)

  predicate Blank(s: string) {
    Trim(s) == ""
  }

  /** No blank text is a UUID. */
  ghost predicate Proper(codec: Codec) {
    forall s :: Blank(s) ==> codec.uuidOf(s).None?
  }

  function DeriveEventId(e: Entry, codec: Codec): EventId {
    if e.eventId.Some? && !Blank(e.eventId.value) then Trim(e.eventId.value)
    else if codec.payloadId(e.kind, e.payload) != "" then codec.payloadId(e.kind, e.payload)
    else codec.derivedId(e)
  }

  function RowFromEntry(e: Entry, codec: Codec): Row {
    Row(e.actionId, e.kind, codec.uuidOf(e.subject), e.subject, e.target, e.payload,
        e.recordedAtMs, MsToDayBucket(e.recordedAtMs))
  }

  function SubjectFrom(actor: Option<Uuid>, subject: string): string {
    if !Blank(subject) then subject else if actor.Some? then actor.value else ""
  }

  /** What readEventRow makes of a stored row. */
  function Reread(row: Row): Row {
    row.(subject := SubjectFrom(row.actor, row.subject), day := MsToDayBucket(DayBucketToMs(row.day)))
  }

  /** Subjects that survive being stored and read back. */
  predicate Stable(subject: string) {
    !Blank(subject) || subject == ""
  }

  ghost predicate Stored(row: Row) {
    0 <= row.day < TWO32 && (Blank(row.subject) ==> row.actor.None?)
  }

  /** Reading back changes nothing if and only if the subject is empty or not blank. */
  lemma RereadIsIdentityIff(row: Row)
    requires Stored(row)
    ensures Reread(row) == row <==> Stable(row.subject)
    ensures Reread(Reread(row)) == Reread(row)
    ensures Reread(row) == row.(subject := if Stable(row.subject) then row.subject else "")
  {
    BucketRoundTrip(row.day);
    assert TrimLeft("") == "" && Trim("") == "";
  }

  // ---------------------------------------------------------------------------------------------
  // Tables and steps
  // ---------------------------------------------------------------------------------------------

  datatype EventKey = EventKey(tenant: Tenant, event: EventId)
  /** Keys of actions_log: the event is not part of it. */
  datatype LogKey = LogKey(tenant: Tenant, day: int, appliedAt: int, actionId: Uuid)
  datatype ActionKey = ActionKey(tenant: Tenant, actionId: Uuid, day: int, appliedAt: int, event: EventId)
  datatype ObjectKey = ObjectKey(tenant: Tenant, target: Uuid, appliedAt: int, actionId: Uuid)
  datatype Filed = Filed(event: EventId, row: Row)

  datatype Tables = Tables(
    events: map<EventKey, Row>, log: map<LogKey, Filed>,
    byAction: map<ActionKey, Row>, byObject: map<ObjectKey, Filed>)

  function LogKeyOf(t: Tenant, row: Row): LogKey {
    LogKey(t, row.day, row.appliedAt, row.actionId)
  }

  function ActionKeyOf(k: EventKey, row: Row): ActionKey {
    ActionKey(k.tenant, row.actionId, row.day, row.appliedAt, k.event)
  }

  function ObjectKeyOf(t: Tenant, row: Row): ObjectKey
    requires row.target.Some?
  {
    ObjectKey(t, row.target.value, row.appliedAt, row.actionId)
  }

  datatype Pc =
    | PutEvent
    | ReadEvent
    | WriteLog(row: Row)
    | WriteByAction(row: Row)
    | WriteByObject(row: Row)
    | Done(ok: bool)

  datatype Client = Client(key: EventKey, row: Row, pc: Pc)

  datatype System = System(tables: Tables, clients: map<ClientId, Client>)

  /** Delivered, failed without effect, or failed after taking effect. */
  datatype Reply = Delivered | Failed | LostAck

  datatype Action = Begin(id: ClientId, entry: Entry) | Step(id: ClientId, reply: Reply)

  /** writeActionFanout refuses a payload that is not an object before its first statement. */
  function FanOut(row: Row, codec: Codec): Pc {
    if codec.isObject(row.payload) then WriteLog(row) else Done(false)
  }

  function Effect(t: Tables, c: Client): Tables {
    match c.pc
    case PutEvent => if c.key in t.events then t else t.(events := t.events[c.key := c.row])
    case ReadEvent => t
    case WriteLog(row) => t.(log := t.log[LogKeyOf(c.key.tenant, row) := Filed(c.key.event, row)])
    case WriteByAction(row) => t.(byAction := t.byAction[ActionKeyOf(c.key, row) := row])
    case WriteByObject(row) =>
      if row.target.None? then t
      else t.(byObject := t.byObject[ObjectKeyOf(c.key.tenant, row) := Filed(c.key.event, row)])
    case Done(_) => t
  }

  /** Where a delivered statement leads. */
  function NextPc(t: Tables, c: Client, codec: Codec): Pc {
    match c.pc
    case PutEvent => if c.key in t.events then ReadEvent else FanOut(c.row, codec)
    case ReadEvent => if c.key in t.events then FanOut(Reread(t.events[c.key]), codec) else Done(false)
    case WriteLog(row) => WriteByAction(row)
    case WriteByAction(row) => if row.target.Some? then WriteByObject(row) else Done(true)
    case WriteByObject(_) => Done(true)
    case Done(_) => c.pc
  }

  function Apply(sys: System, a: Action, codec: Codec): System {
    match a
    case Begin(id, entry) =>
      if id in sys.clients then sys else
      var key := EventKey(entry.tenant, DeriveEventId(entry, codec));
      sys.(clients := sys.clients[id := Client(key, RowFromEntry(entry, codec), PutEvent)])
    case Step(id, reply) =>
      if id !in sys.clients || sys.clients[id].pc.Done? then sys else
      var c := sys.clients[id];
      System(
        if reply == Failed then sys.tables else Effect(sys.tables, c),
        sys.clients[id := c.(pc := if reply == Delivered then NextPc(sys.tables, c, codec) else Done(false))])
  }

  function Exec(sys: System, run: seq<Action>, codec: Codec): System
    decreases |run|
  {
    if run == [] then sys else Exec(Apply(sys, run[0], codec), run[1..], codec)
  }

  const INIT := System(Tables(map[], map[], map[], map[]), map[])

  // ---------------------------------------------------------------------------------------------
  // The invariant
  // ---------------------------------------------------------------------------------------------

  /** row is the canonical row of the event, as inserted or as read back. */
  ghost predicate Canonical(t: Tables, k: EventKey, row: Row) {
    k in t.events && (row == t.events[k] || row == Reread(t.events[k]))
  }

  ghost predicate EventsInv(t: Tables) {
    forall k :: k in t.events ==> Stored(t.events[k])
  }

  /** Every fan-out row is a copy of its event's canonical row, filed under that row's key. */
  ghost predicate FanInv(t: Tables) {
    LogInv(t) && ByActionInv(t) && ByObjectInv(t)
  }

  ghost predicate LogInv(t: Tables) {
    forall k :: k in t.log ==>
      Canonical(t, EventKey(k.tenant, t.log[k].event), t.log[k].row) && k == LogKeyOf(k.tenant, t.log[k].row)
  }

  ghost predicate ByActionInv(t: Tables) {
    forall k :: k in t.byAction ==>
      && Canonical(t, EventKey(k.tenant, k.event), t.byAction[k])
      && k == ActionKeyOf(EventKey(k.tenant, k.event), t.byAction[k])
  }

  ghost predicate ByObjectInv(t: Tables) {
    forall k :: k in t.byObject ==>
      && Canonical(t, EventKey(k.tenant, t.byObject[k].event), t.byObject[k].row)
      && t.byObject[k].row.target.Some? && k == ObjectKeyOf(k.tenant, t.byObject[k].row)
  }

  ghost predicate ClientInv(t: Tables, c: Client) {
    && Stored(c.row)
    && (c.pc.ReadEvent? ==> c.key in t.events)
    && (c.pc.WriteLog? || c.pc.WriteByAction? || c.pc.WriteByObject? ==> Canonical(t, c.key, c.pc.row))
    && (c.pc.WriteByAction? || c.pc.WriteByObject? ==> LogKeyOf(c.key.tenant, c.pc.row) in t.log)
    && (c.pc.WriteByObject? ==> ActionKeyOf(c.key, c.pc.row) in t.byAction && c.pc.row.target.Some?)
    && (c.pc == Done(true) ==> Landed(t, c.key))
  }

  /** All fan-out keys of the event are present. */
  ghost predicate Landed(t: Tables, k: EventKey) {
    && k in t.events && ActionKeyOf(k, t.events[k]) in t.byAction
    && LogKeyOf(k.tenant, t.events[k]) in t.log
    && (t.events[k].target.Some? ==> ObjectKeyOf(k.tenant, t.events[k]) in t.byObject)
  }

  ghost predicate Inv(sys: System) {
    && EventsInv(sys.tables) && FanInv(sys.tables)
    && forall id :: id in sys.clients ==> ClientInv(sys.tables, sys.clients[id])
  }

  /** Nothing is ever deleted, and canonical rows never change. */
  ghost predicate Later(t: Tables, t': Tables) {
    && (forall k :: k in t.events ==> k in t'.events && t'.events[k] == t.events[k])
    && t.log.Keys <= t'.log.Keys && t.byAction.Keys <= t'.byAction.Keys && t.byObject.Keys <= t'.byObject.Keys
  }

  lemma EffectMovesForward(t: Tables, c: Client)
    ensures Later(t, Effect(t, c))
  {
  }

  /** Copies keep the key columns. */
  lemma CopiesShareKeys(t: Tables, k: EventKey, row: Row)
    requires EventsInv(t) && Canonical(t, k, row)
    ensures row.target == t.events[k].target && row.payload == t.events[k].payload
    ensures ActionKeyOf(k, row) == ActionKeyOf(k, t.events[k])
    ensures LogKeyOf(k.tenant, row) == LogKeyOf(k.tenant, t.events[k])
    ensures row.target.Some? ==> ObjectKeyOf(k.tenant, row) == ObjectKeyOf(k.tenant, t.events[k])
    ensures Stable(t.events[k].subject) ==> row == t.events[k]
  {
    RereadIsIdentityIff(t.events[k]);
  }

  lemma EffectKeepsLog(t: Tables, c: Client)
    requires LogInv(t) && ClientInv(t, c)
    ensures LogInv(Effect(t, c))
  {
    hide Reread, Blank, Stored;
  }

  lemma EffectKeepsByAction(t: Tables, c: Client)
    requires ByActionInv(t) && ClientInv(t, c)
    ensures ByActionInv(Effect(t, c))
  {
    hide Reread, Blank, Stored;
  }

  lemma EffectKeepsByObject(t: Tables, c: Client)
    requires ByObjectInv(t) && ClientInv(t, c)
    ensures ByObjectInv(Effect(t, c))
  {
    hide Reread, Blank, Stored;
  }

  lemma EffectKeepsTables(t: Tables, c: Client)
    requires EventsInv(t) && FanInv(t) && ClientInv(t, c)
    ensures EventsInv(Effect(t, c)) && FanInv(Effect(t, c))
  {
    EffectKeepsLog(t, c);
    EffectKeepsByAction(t, c);
    EffectKeepsByObject(t, c);
    hide LogInv, ByActionInv, ByObjectInv, Reread, Blank, Stored;
  }

  lemma ClientSurvives(t: Tables, t': Tables, c: Client)
    requires Later(t, t') && ClientInv(t, c)
    ensures ClientInv(t', c)
  {
    hide Reread, Blank, Stored;
  }

  lemma ClientMoves(t: Tables, c: Client, codec: Codec)
    requires EventsInv(t) && ClientInv(t, c)
    ensures ClientInv(Effect(t, c), c.(pc := NextPc(t, c, codec)))
  {
    hide Reread, Blank, Stored;
    match c.pc
    case PutEvent =>
    case ReadEvent =>
    case WriteLog(row) =>
    case WriteByAction(row) => CopiesShareKeys(t, c.key, row);
    case WriteByObject(row) => CopiesShareKeys(t, c.key, row);
    case Done(_) =>
  }

  lemma BeginIsStored(entry: Entry, codec: Codec)
    requires Proper(codec)
    ensures Stored(RowFromEntry(entry, codec))
  {
    hide Blank, MsToDayBucket;
    FloorDays(entry.recordedAtMs);
  }

  lemma StepKeepsInv(sys: System, a: Action, codec: Codec)
    requires Inv(sys) && Proper(codec)
    ensures Inv(Apply(sys, a, codec)) && Later(sys.tables, Apply(sys, a, codec).tables)
  {
    hide Proper, FanInv, EventsInv, ClientInv, Reread, Blank, Stored, Effect, NextPc;
    match a
    case Begin(id, entry) =>
      BeginIsStored(entry, codec);
      FreshClient(sys.tables, EventKey(entry.tenant, DeriveEventId(entry, codec)), RowFromEntry(entry, codec));
    case Step(id, reply) =>
      if id in sys.clients && !sys.clients[id].pc.Done? {
        var c := sys.clients[id];
        var t' := Apply(sys, a, codec).tables;
        EffectMovesForward(sys.tables, c);
        EffectKeepsTables(sys.tables, c);
        forall other | other in sys.clients
          ensures ClientInv(t', sys.clients[other])
        {
          ClientSurvives(sys.tables, t', sys.clients[other]);
        }
        ClientMoves(sys.tables, c, codec);
        GivenUp(t', c);
      }
  }

  lemma FreshClient(t: Tables, k: EventKey, row: Row)
    requires Stored(row)
    ensures ClientInv(t, Client(k, row, PutEvent))
  {
  }

  lemma GivenUp(t: Tables, c: Client)
    requires ClientInv(t, c)
    ensures ClientInv(t, c.(pc := Done(false)))
  {
  }

  lemma {:induction false} RunKeepsInv(sys: System, run: seq<Action>, codec: Codec)
    requires Inv(sys) && Proper(codec)
    ensures Inv(Exec(sys, run, codec)) && Later(sys.tables, Exec(sys, run, codec).tables)
    decreases |run|
  {
    hide Inv, Apply, Proper;
    if run != [] {
      var next := Apply(sys, run[0], codec);
      StepKeepsInv(sys, run[0], codec);
      RunKeepsInv(next, run[1..], codec);
      var t, t', t'' := sys.tables, next.tables, Exec(next, run[1..], codec).tables;
      forall k | k in t.events
        ensures k in t''.events && t''.events[k] == t.events[k]
      {
        assert k in t'.events;
      }
    }
  }

  lemma {:induction false} ExecConcat(sys: System, first: seq<Action>, second: seq<Action>, codec: Codec)
    ensures Exec(sys, first + second, codec) == Exec(Exec(sys, first, codec), second, codec)
    decreases |first|
  {
    hide Apply;
    if first == [] {
      assert first + second == second;
    } else {
      assert (first + second)[0] == first[0] && (first + second)[1..] == first[1..] + second;
      ExecConcat(Apply(sys, first[0], codec), first[1..], second, codec);
    }
  }

  // ---------------------------------------------------------------------------------------------
  // Whole runs
  // ---------------------------------------------------------------------------------------------

  /** For every interleaving with crashes: each fan-out row is its event's canonical row, provided the
      event's subject is stable; for any subject it differs at most in that column. */
  lemma FanOutIsCanonical(run: seq<Action>, codec: Codec, k: ActionKey)
    requires Proper(codec) && k in Exec(INIT, run, codec).tables.byAction
    ensures
      var t := Exec(INIT, run, codec).tables;
      var key := EventKey(k.tenant, k.event);
      && key in t.events && k == ActionKeyOf(key, t.events[key])
      && t.byAction[k].(subject := t.events[key].subject) == t.events[key]
      && (Stable(t.events[key].subject) ==> t.byAction[k] == t.events[key])
  {
    hide Exec, Proper, Blank;
    RunKeepsInv(INIT, run, codec);
    var t := Exec(INIT, run, codec).tables;
    var key := EventKey(k.tenant, k.event);
    CopiesShareKeys(t, key, t.byAction[k]);
    RereadIsIdentityIff(t.events[key]);
  }

  /** The same for the two tables whose keys leave the event out. */
  lemma LogIsCanonical(run: seq<Action>, codec: Codec, k: LogKey)
    requires Proper(codec) && k in Exec(INIT, run, codec).tables.log
    ensures
      var t := Exec(INIT, run, codec).tables;
      var key := EventKey(k.tenant, t.log[k].event);
      && key in t.events && k == LogKeyOf(k.tenant, t.events[key])
      && (Stable(t.events[key].subject) ==> t.log[k].row == t.events[key])
  {
    hide Exec, Proper, Blank, Reread;
    RunKeepsInv(INIT, run, codec);
    var t := Exec(INIT, run, codec).tables;
    CopiesShareKeys(t, EventKey(k.tenant, t.log[k].event), t.log[k].row);
  }

  lemma ByObjectIsCanonical(run: seq<Action>, codec: Codec, k: ObjectKey)
    requires Proper(codec) && k in Exec(INIT, run, codec).tables.byObject
    ensures
      var t := Exec(INIT, run, codec).tables;
      var key := EventKey(k.tenant, t.byObject[k].event);
      && key in t.events && t.events[key].target.Some? && k == ObjectKeyOf(k.tenant, t.events[key])
      && (Stable(t.events[key].subject) ==> t.byObject[k].row == t.events[key])
  {
    hide Exec, Proper, Blank, Reread;
    RunKeepsInv(INIT, run, codec);
    var t := Exec(INIT, run, codec).tables;
    CopiesShareKeys(t, EventKey(k.tenant, t.byObject[k].event), t.byObject[k].row);
  }

  /** The by-action table holds at most one row per event. */
  lemma OneRowPerEvent(run: seq<Action>, codec: Codec, a: ActionKey, b: ActionKey)
    requires Proper(codec) && a in Exec(INIT, run, codec).tables.byAction && b in Exec(INIT, run, codec).tables.byAction
    requires a.tenant == b.tenant && a.event == b.event
    ensures a == b
  {
    hide Exec, Proper;
    FanOutIsCanonical(run, codec, a);
    FanOutIsCanonical(run, codec, b);
  }

  /** A successful Append leaves its event's by-action row in place for good, whatever crashed before and
      whatever runs afterwards; it holds the first writer's row. */
  lemma SuccessfulAppendStays(first: seq<Action>, second: seq<Action>, codec: Codec, id: ClientId)
    requires Proper(codec)
    requires id in Exec(INIT, first, codec).clients && Exec(INIT, first, codec).clients[id].pc == Done(true)
    ensures
      var key := Exec(INIT, first, codec).clients[id].key;
      var before, after := Exec(INIT, first, codec).tables, Exec(INIT, first + second, codec).tables;
      && key in before.events && key in after.events && after.events[key] == before.events[key]
      && var at := ActionKeyOf(key, after.events[key]);
         && at in after.byAction
         && (Stable(after.events[key].subject) ==> after.byAction[at] == after.events[key])
  {
    ExecConcat(INIT, first, second, codec);
    hide Exec, Proper, Blank, Reread;
    RunKeepsInv(INIT, first, codec);
    var before := Exec(INIT, first, codec);
    RunKeepsInv(before, second, codec);
    assert ClientInv(before.tables, before.clients[id]);
    var key := before.clients[id].key;
    FanOutIsCanonical(first + second, codec, ActionKeyOf(key, before.tables.events[key]));
  }

  /** Its row in actions_log stays too, unless another event of the same tenant has the same action and
      the same millisecond: then the row under that key is the other event's. */
  lemma LogRowStaysUnlessShared(first: seq<Action>, second: seq<Action>, codec: Codec, id: ClientId)
    requires Proper(codec)
    requires id in Exec(INIT, first, codec).clients && Exec(INIT, first, codec).clients[id].pc == Done(true)
    ensures
      var key := Exec(INIT, first, codec).clients[id].key;
      var t := Exec(INIT, first + second, codec).tables;
      && key in t.events
      && var at := LogKeyOf(key.tenant, t.events[key]);
         && at in t.log
         && var other := EventKey(key.tenant, t.log[at].event);
            && other in t.events && t.events[other].appliedAt == t.events[key].appliedAt
            && t.events[other].actionId == t.events[key].actionId
            && (other == key && Stable(t.events[key].subject) ==> t.log[at] == Filed(key.event, t.events[key]))
  {
    ExecConcat(INIT, first, second, codec);
    hide Exec, Proper, Blank, Reread;
    RunKeepsInv(INIT, first, codec);
    var before := Exec(INIT, first, codec);
    RunKeepsInv(before, second, codec);
    assert ClientInv(before.tables, before.clients[id]);
    var key := before.clients[id].key;
    LogIsCanonical(first + second, codec, LogKeyOf(key.tenant, before.tables.events[key]));
  }

  /** So does the row in actions_by_object of an event with a target, unless another event of the same tenant has the
      same action, the same millisecond and the same object. */
  lemma ObjectRowStaysUnlessShared(first: seq<Action>, second: seq<Action>, codec: Codec, id: ClientId)
    requires Proper(codec)
    requires id in Exec(INIT, first, codec).clients && Exec(INIT, first, codec).clients[id].pc == Done(true)
    ensures
      var key := Exec(INIT, first, codec).clients[id].key;
      var t := Exec(INIT, first + second, codec).tables;
      && key in t.events
      && (t.events[key].target.Some? ==>
            var at := ObjectKeyOf(key.tenant, t.events[key]);
            && at in t.byObject
            && var other := EventKey(key.tenant, t.byObject[at].event);
               && other in t.events && t.events[other].appliedAt == t.events[key].appliedAt
               && t.events[other].actionId == t.events[key].actionId && t.events[other].target == t.events[key].target
               && (other == key && Stable(t.events[key].subject) ==> t.byObject[at] == Filed(key.event, t.events[key])))
  {
    ExecConcat(INIT, first, second, codec);
    hide Exec, Proper, Blank, Reread;
    RunKeepsInv(INIT, first, codec);
    var before := Exec(INIT, first, codec);
    RunKeepsInv(before, second, codec);
    assert ClientInv(before.tables, before.clients[id]);
    var key := before.clients[id].key;
    if before.tables.events[key].target.Some? {
      ByObjectIsCanonical(first + second, codec, ObjectKeyOf(key.tenant, before.tables.events[key]));
    }
  }

  // ---------------------------------------------------------------------------------------------
  // The conditions are needed
  // ---------------------------------------------------------------------------------------------

  function KeyFor(e: Entry, codec: Codec): EventKey {
    EventKey(e.tenant, DeriveEventId(e, codec))
  }

  /** The statements of one Append that runs alone on a new event, up to its by-action row. */
  function NewEvent(id: ClientId): seq<Action> {
    [Step(id, Delivered), Step(id, Delivered), Step(id, Delivered), Step(id, Delivered)]
  }

  lemma FourSteps(sys: System, id: ClientId, codec: Codec)
    ensures
      var s := Step(id, Delivered);
      Exec(sys, NewEvent(id), codec) == Apply(Apply(Apply(Apply(sys, s, codec), s, codec), s, codec), s, codec)
  {
    hide Apply;
    var s := Step(id, Delivered);
    assert NewEvent(id)[1..] == [s, s, s] && [s, s, s][1..] == [s, s] && [s, s][1..] == [s] && [s][1..] == [];
    var s1 := Apply(sys, s, codec);
    var s2 := Apply(s1, s, codec);
    var s3 := Apply(s2, s, codec);
    assert Exec(s3, [s], codec) == Apply(s3, s, codec);
    assert Exec(s2, [s, s], codec) == Exec(s3, [s], codec);
    assert Exec(s1, [s, s, s], codec) == Exec(s2, [s, s], codec);
  }

  /** Four delivered statements of a new event end in success. */
  lemma AppendAlone(sys: System, id: ClientId, e: Entry, codec: Codec)
    requires id !in sys.clients && KeyFor(e, codec) !in sys.tables.events && codec.isObject(e.payload)
    ensures
      var sys' := Exec(Apply(sys, Begin(id, e), codec), NewEvent(id), codec);
      var row := RowFromEntry(e, codec);
      && id in sys'.clients && sys'.clients[id] == Client(KeyFor(e, codec), row, Done(true))
      && sys'.clients.Keys == sys.clients.Keys + {id}
      && sys'.tables.events == sys.tables.events[KeyFor(e, codec) := row]
      && sys'.tables.log == sys.tables.log[LogKeyOf(e.tenant, row) := Filed(KeyFor(e, codec).event, row)]
      && (e.target.Some? ==>
            sys'.tables.byObject ==
              sys.tables.byObject[ObjectKeyOf(e.tenant, row) := Filed(KeyFor(e, codec).event, row)])
  {
    var s0 := Apply(sys, Begin(id, e), codec);
    FourSteps(s0, id, codec);
    hide Exec, DeriveEventId, MsToDayBucket;
    var key, row := KeyFor(e, codec), RowFromEntry(e, codec);
    var s := Step(id, Delivered);
    var s1 := Apply(s0, s, codec);
    assert s1.clients[id] == Client(key, row, WriteLog(row));
    var s2 := Apply(s1, s, codec);
    assert s2.clients[id] == Client(key, row, WriteByAction(row));
    var s3 := Apply(s2, s, codec);
  }

  /** Two events of one action in the same millisecond: whichever is appended last owns the shared
      actions_log row, and the other, although its Append succeeded, is gone from that table. */
  lemma SharedMillisecondOverwrites(e: Entry, f: Entry, codec: Codec)
    requires codec.isObject(e.payload) && codec.isObject(f.payload)
    requires e.tenant == f.tenant && e.actionId == f.actionId && e.recordedAtMs == f.recordedAtMs
    requires KeyFor(e, codec) != KeyFor(f, codec)
    ensures
      var first := [Begin(0, e)] + NewEvent(0);
      var second := [Begin(1, f)] + NewEvent(1);
      var mid, end := Exec(INIT, first, codec), Exec(INIT, first + second, codec);
      var at := LogKeyOf(e.tenant, RowFromEntry(e, codec));
      && 0 in mid.clients && mid.clients[0].pc == Done(true)
      && at in mid.tables.log && mid.tables.log[at] == Filed(KeyFor(e, codec).event, RowFromEntry(e, codec))
      && at in end.tables.log && end.tables.log[at] == Filed(KeyFor(f, codec).event, RowFromEntry(f, codec))
      && forall k :: k in end.tables.log ==> end.tables.log[k].event != KeyFor(e, codec).event
  {
    var first := [Begin(0, e)] + NewEvent(0);
    var second := [Begin(1, f)] + NewEvent(1);
    ExecConcat(INIT, first, second, codec);
    var mid := Exec(INIT, first, codec);
    FirstThenRest(INIT, Begin(0, e), NewEvent(0), codec);
    FirstThenRest(mid, Begin(1, f), NewEvent(1), codec);
    hide Exec, Apply, DeriveEventId, MsToDayBucket;
    AppendAlone(INIT, 0, e, codec);
    AppendAlone(mid, 1, f, codec);
  }

  /** The same for actions_by_object, when the two events also concern the same object. */
  lemma SharedObjectOverwrites(e: Entry, f: Entry, codec: Codec)
    requires codec.isObject(e.payload) && codec.isObject(f.payload)
    requires e.tenant == f.tenant && e.actionId == f.actionId && e.recordedAtMs == f.recordedAtMs
    requires e.target.Some? && e.target == f.target && KeyFor(e, codec) != KeyFor(f, codec)
    ensures
      var first := [Begin(0, e)] + NewEvent(0);
      var second := [Begin(1, f)] + NewEvent(1);
      var mid, end := Exec(INIT, first, codec), Exec(INIT, first + second, codec);
      var at := ObjectKeyOf(e.tenant, RowFromEntry(e, codec));
      && 0 in mid.clients && mid.clients[0].pc == Done(true)
      && at in mid.tables.byObject && mid.tables.byObject[at] == Filed(KeyFor(e, codec).event, RowFromEntry(e, codec))
      && at in end.tables.byObject && end.tables.byObject[at] == Filed(KeyFor(f, codec).event, RowFromEntry(f, codec))
      && forall k :: k in end.tables.byObject ==> end.tables.byObject[k].event != KeyFor(e, codec).event
  {
    var first := [Begin(0, e)] + NewEvent(0);
    var second := [Begin(1, f)] + NewEvent(1);
    ExecConcat(INIT, first, second, codec);
    var mid := Exec(INIT, first, codec);
    FirstThenRest(INIT, Begin(0, e), NewEvent(0), codec);
    FirstThenRest(mid, Begin(1, f), NewEvent(1), codec);
    hide Exec, Apply, DeriveEventId, MsToDayBucket;
    AppendAlone(INIT, 0, e, codec);
    AppendAlone(mid, 1, f, codec);
  }

  lemma FirstThenRest(sys: System, a: Action, rest: seq<Action>, codec: Codec)
    ensures Exec(sys, [a] + rest, codec) == Exec(Apply(sys, a, codec), rest, codec)
  {
    assert ([a] + rest)[1..] == rest;
  }

  /** A blank subject that is not empty: an Append that stopped after its first statement and one that
      repeats it leave a by-action row that differs from the canonical row. */
  lemma BlankSubjectDiverges(e: Entry, codec: Codec)
    requires Proper(codec) && codec.isObject(e.payload) && !Stable(e.subject)
    ensures
      var run := [Begin(0, e)] + ([Step(0, Delivered)] + ([Begin(1, e)] + ([Step(1, Delivered)] + NewEvent(1))));
      var t := Exec(INIT, run, codec).tables;
      var key := KeyFor(e, codec);
      && key in t.events && ActionKeyOf(key, t.events[key]) in t.byAction
      && t.byAction[ActionKeyOf(key, t.events[key])] != t.events[key]
  {
    var row, key := RowFromEntry(e, codec), KeyFor(e, codec);
    var r4 := [Step(1, Delivered)] + NewEvent(1);
    var r3 := [Begin(1, e)] + r4;
    var r2 := [Step(0, Delivered)] + r3;
    var s1 := Apply(INIT, Begin(0, e), codec);
    var s2 := Apply(s1, Step(0, Delivered), codec);
    var s3 := Apply(s2, Begin(1, e), codec);
    var s4 := Apply(s3, Step(1, Delivered), codec);
    FirstThenRest(INIT, Begin(0, e), r2, codec);
    FirstThenRest(s1, Step(0, Delivered), r3, codec);
    FirstThenRest(s2, Begin(1, e), r4, codec);
    FirstThenRest(s3, Step(1, Delivered), NewEvent(1), codec);
    BeginIsStored(e, codec);
    RereadIsIdentityIff(row);
    hide Exec, Reread, DeriveEventId, MsToDayBucket, Stable, Blank;
    assert s4.tables.events == map[key := row] && s4.clients[1] == Client(key, row, ReadEvent);
    RepeatAlone(s4, 1, key, row, codec);
  }

  /** The rest of an Append that found its event already stored. */
  lemma RepeatAlone(sys: System, id: ClientId, key: EventKey, row: Row, codec: Codec)
    requires id in sys.clients && sys.clients[id].key == key && sys.clients[id].pc == ReadEvent
    requires key in sys.tables.events && sys.tables.events[key] == row && codec.isObject(row.payload) && Stored(row)
    ensures
      var t := Exec(sys, NewEvent(id), codec).tables;
      && t.events == sys.tables.events
      && ActionKeyOf(key, row) in t.byAction && t.byAction[ActionKeyOf(key, row)] == Reread(row)
  {
    FourSteps(sys, id, codec);
    RereadIsIdentityIff(row);
    hide Exec, Reread, MsToDayBucket, Stable, Blank;
    var s, copy := Step(id, Delivered), Reread(row);
    var s1 := Apply(sys, s, codec);
    assert s1.clients[id] == sys.clients[id].(pc := WriteLog(copy));
    var s2 := Apply(s1, s, codec);
    assert s2.clients[id] == sys.clients[id].(pc := WriteByAction(copy));
    var s3 := Apply(s2, s, codec);
    assert s3.tables.byAction[ActionKeyOf(key, copy)] == copy;
  }
}
