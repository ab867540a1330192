/**
 The multi-writer schema publish protocol (libs/cassandra-kernel/schema_store.go).  SchemaPut holds the method itself.

 Every CQL statement is one atomic step on the two tables.  A client is the program counter of
 one `Put`; any number of clients interleave in any order, a client that crashes just never
 takes another step, and every statement may fail.  The driver may also lose the acknowledgement
 of a statement that was applied (`LostAck`).  Under any driver the pointer only moves forward and the row
 of a successful Put stays.  That schemas_latest names an existing row holds as long as no rollback delete
 hits the version it names, and so as long as no acknowledgement of a pointer move is lost.
 */
module SchemaStore {
  import opened Common

  const MAX_VERSION := 0x7fff_ffff
  const MAX_ATTEMPTS := 8

  type TypeId = string
  type ClientId = nat
  type Key = (TypeId, int)

  /** What a caller publishes; `json` is None when the payload cannot be serialised. */
  datatype Schema = Schema(typeId: TypeId, version: int, json: Option<string>, createdAt: int)

  /** A row of either table (the type id is part of the key). */
  datatype Row = Row(version: int, json: string, createdAt: int)

  /** The tables schemas_by_type and schemas_latest. */
  datatype Store = Store(versions: map<Key, Row>, latest: map<TypeId, Row>)

  datatype Outcome = Success | Invalid | Backend | NotConverged

  /** The next statement of a Put. */
  datatype Pc =
    | SelectLatest
    | InsertVersion
    | InsertLatest
    | CasRead(attempt: nat)
    | CasWrite(attempt: nat, expected: int)
    | Rollback(cause: Outcome)
    | Done(outcome: Outcome)

  /** How the driver answers: normally, with an error and no effect, or with an error after the effect. */
  datatype Reply = Delivered | Failed | LostAck

  /** `base` counts the promotions of the type when the CAS loop was entered (bookkeeping only). */
  datatype Client = Client(schema: Schema, pc: Pc, base: nat)

  /** `writers` remembers which client created a version row; `promotions` counts pointer moves per
      type.  Neither is read by the protocol. */
  datatype System = System(
    store: Store,
    clients: map<ClientId, Client>,
    writers: map<Key, ClientId>,
    promotions: map<TypeId, nat>)

  datatype Action = Begin(id: ClientId, schema: Schema) | Step(id: ClientId, reply: Reply)

  // ---------------------------------------------------------------------------------------------
  // The protocol
  // ---------------------------------------------------------------------------------------------

  /** schemaVersionToCQL accepts 1..2^31-1 of the 32-bit unsigned versions. */
  predicate ValidVersion(version: int) {
    0 < version <= MAX_VERSION
  }

  function KeyOf(s: Schema): Key {
    (s.typeId, s.version)
  }

  function RowOf(s: Schema): Row
    requires s.json.Some?
  {
    Row(s.version, s.json.value, s.createdAt)
  }

  function StartPc(s: Schema): Pc {
    if ValidVersion(s.version) then SelectLatest else Done(Invalid)
  }

  function NextAttempt(k: nat): Pc {
    if k + 1 < MAX_ATTEMPTS then CasRead(k + 1) else Rollback(NotConverged)
  }

  /** The LWT condition of the statement at `pc`: does it change the tables? */
  predicate Applies(st: Store, s: Schema, pc: Pc) {
    match pc
    case InsertVersion => KeyOf(s) !in st.versions
    case InsertLatest => s.typeId !in st.latest
    case CasWrite(_, expected) => s.typeId in st.latest && st.latest[s.typeId].version == expected
    case Rollback(_) => true
    case _ => false
  }

  function Effect(st: Store, s: Schema, pc: Pc): Store
    requires s.json.Some?
  {
    match pc
    case InsertVersion => st.(versions := st.versions[KeyOf(s) := RowOf(s)])
    case InsertLatest => st.(latest := st.latest[s.typeId := RowOf(s)])
    case CasWrite(_, _) => st.(latest := st.latest[s.typeId := RowOf(s)])
    case Rollback(_) => st.(versions := st.versions - {KeyOf(s)})
    case _ => st
  }

  function LatestRow(st: Store, t: TypeId): Option<Row> {
    if t in st.latest then Some(st.latest[t]) else None
  }

  predicate Reads(pc: Pc) {
    pc.SelectLatest? || pc.CasRead?
  }

  /** Where a SELECT of the pointer leads. */
  function AfterRead(s: Schema, pc: Pc, ok: bool, row: Option<Row>): Pc
    requires Reads(pc)
  {
    match pc
    case SelectLatest =>
      if !ok then Done(Backend)
      else if row.Some? && s.version <= row.value.version then Done(Invalid)
      else if s.json.None? then Done(Invalid)
      else InsertVersion
    case CasRead(k) =>
      if !ok then Rollback(Backend)
      else if row.None? then NextAttempt(k)
      else if s.version <= row.value.version then Rollback(Invalid)
      else CasWrite(k, row.value.version)
  }

  /** Where a conditional write, or the rollback delete, leads. */
  function AfterWrite(pc: Pc, ok: bool, applied: bool): Pc
    requires !Reads(pc)
  {
    match pc
    case InsertVersion => if !ok then Done(Backend) else if applied then InsertLatest else Done(Invalid)
    case InsertLatest => if !ok then Rollback(Backend) else if applied then Done(Success) else CasRead(0)
    case CasWrite(k, _) => if !ok then Rollback(Backend) else if applied then Done(Success) else NextAttempt(k)
    case Rollback(cause) => Done(cause)
    case Done(_) => pc
  }

  function NextPc(st: Store, s: Schema, pc: Pc, reply: Reply): Pc {
    if Reads(pc) then AfterRead(s, pc, reply == Delivered, LatestRow(st, s.typeId))
    else AfterWrite(pc, reply == Delivered, Applies(st, s, pc))
  }

  predicate Promotes(pc: Pc) {
    pc.InsertLatest? || pc.CasWrite?
  }

  function Promotions(sys: System, t: TypeId): nat {
    if t in sys.promotions then sys.promotions[t] else 0
  }

  /** One statement of client `id`; the identity when the client has finished or does not exist. */
  function DoStep(sys: System, id: ClientId, reply: Reply): System {
    if id !in sys.clients || sys.clients[id].pc.Done? then sys else
    var c := sys.clients[id];
    var s := c.schema;
    var hit := s.json.Some? && reply != Failed && Applies(sys.store, s, c.pc);
    var base := if c.pc.InsertLatest? then Promotions(sys, s.typeId) else c.base;
    System(
      if hit then Effect(sys.store, s, c.pc) else sys.store,
      sys.clients[id := Client(s, NextPc(sys.store, s, c.pc, reply), base)],
      if hit && c.pc.InsertVersion? then sys.writers[KeyOf(s) := id] else sys.writers,
      if hit && Promotes(c.pc) then sys.promotions[s.typeId := Promotions(sys, s.typeId) + 1] else sys.promotions)
  }

  function Apply(sys: System, a: Action): System {
    match a
    case Begin(id, schema) =>
      if id in sys.clients then sys
      else sys.(clients := sys.clients[id := Client(schema, StartPc(schema), 0)])
    case Step(id, reply) => DoStep(sys, id, reply)
  }

  function Exec(sys: System, run: seq<Action>): System
    decreases |run|
  {
    if run == [] then sys else Exec(Apply(sys, run[0]), run[1..])
  }

  const INIT := System(Store(map[], map[]), map[], map[], map[])

  /** The driver hypothesis: the acknowledgement of an applied pointer move is not lost. */
  predicate Faithful(sys: System, a: Action) {
    a.Step? && a.reply == LostAck && a.id in sys.clients ==> !MovesPointer(sys, a.id)
  }

  /** The client's next statement moves the pointer if it takes effect. */
  predicate MovesPointer(sys: System, id: ClientId)
    requires id in sys.clients
  {
    Promotes(sys.clients[id].pc) && Applies(sys.store, sys.clients[id].schema, sys.clients[id].pc)
  }

  predicate FaithfulRun(sys: System, run: seq<Action>)
    decreases |run|
  {
    run != [] ==> Faithful(sys, run[0]) && FaithfulRun(Apply(sys, run[0]), run[1..])
  }

  // ---------------------------------------------------------------------------------------------
  // The invariant
  // ---------------------------------------------------------------------------------------------

  /** What readers rely on: schemas_latest names an existing version row with the same payload. */
  ghost predicate PointerNamesRow(st: Store) {
    forall t :: t in st.latest ==>
      (t, st.latest[t].version) in st.versions && st.versions[(t, st.latest[t].version)] == st.latest[t]
  }

  ghost predicate Owns(sys: System, id: ClientId)
    requires id in sys.clients
  {
    var key := KeyOf(sys.clients[id].schema);
    key in sys.store.versions && key in sys.writers && sys.writers[key] == id
  }

  ghost predicate Published(sys: System, id: ClientId)
    requires id in sys.clients
  {
    var s := sys.clients[id].schema;
    && Owns(sys, id)
    && s.typeId in sys.store.latest
    && s.version <= sys.store.latest[s.typeId].version
  }

  /** What a client owns at its program counter. */
  ghost predicate OwnershipInv(sys: System, id: ClientId)
    requires id in sys.clients
  {
    var c := sys.clients[id];
    && (!c.pc.Done? ==> ValidVersion(c.schema.version))
    && (!c.pc.Done? && !c.pc.SelectLatest? ==> c.schema.json.Some?)
    && (c.pc.InsertLatest? || c.pc.CasRead? || c.pc.CasWrite? || c.pc.Rollback? ==> Owns(sys, id))
    && (c.pc == Done(Success) ==> Published(sys, id))
    && (c.pc.Rollback? ==> c.pc.cause != Success)
  }

  /** What a client knows inside the CAS loop: each failed attempt is somebody else's promotion. */
  ghost predicate LoopInv(sys: System, id: ClientId)
    requires id in sys.clients
  {
    var c := sys.clients[id];
    var t := c.schema.typeId;
    && (c.pc.CasRead? || c.pc.CasWrite? ==>
          && t in sys.store.latest && c.pc.attempt < MAX_ATTEMPTS
          && Promotions(sys, t) >= c.base + c.pc.attempt)
    && (c.pc.CasWrite? ==>
          && c.pc.expected < c.schema.version
          && (sys.store.latest[t].version != c.pc.expected ==> Promotions(sys, t) > c.base + c.pc.attempt))
    && (c.pc == Rollback(NotConverged) || c.pc == Done(NotConverged) ==>
          Promotions(sys, t) >= c.base + MAX_ATTEMPTS)
  }

  ghost predicate ClientInv(sys: System, id: ClientId)
    requires id in sys.clients
  {
    OwnershipInv(sys, id) && LoopInv(sys, id)
  }

  ghost predicate ClientsInv(sys: System) {
    forall id :: id in sys.clients ==> ClientInv(sys, id)
  }

  /** Every version row was written by a known client from its own schema. */
  ghost predicate RowsInv(sys: System) {
    forall k :: k in sys.store.versions ==>
      && k in sys.writers && sys.writers[k] in sys.clients
      && var s := sys.clients[sys.writers[k]].schema;
         KeyOf(s) == k && ValidVersion(s.version) && s.json.Some? && sys.store.versions[k] == RowOf(s)
  }

  /** The pointer of `t` names the row of a client that returned success. */
  ghost predicate PointerBacked(sys: System, t: TypeId)
    requires t in sys.store.latest
  {
    var key := (t, sys.store.latest[t].version);
    && key in sys.store.versions && sys.store.versions[key] == sys.store.latest[t]
    && key in sys.writers && sys.writers[key] in sys.clients
    && sys.clients[sys.writers[key]].pc == Done(Success)
  }

  ghost predicate LatestInv(sys: System) {
    forall t :: t in sys.store.latest ==> PointerBacked(sys, t)
  }

  /** What holds under any driver. */
  ghost predicate Core(sys: System) {
    ClientsInv(sys) && RowsInv(sys)
  }

  /** What holds as long as no acknowledgement of a pointer move is lost. */
  ghost predicate Inv(sys: System) {
    Core(sys) && LatestInv(sys)
  }

  /** What no step takes back: pointers only move forward, and promotions are counted. */
  ghost predicate Later(sys: System, sys': System) {
    && (forall t :: t in sys.store.latest ==>
          && t in sys'.store.latest
          && (sys'.store.latest[t] == sys.store.latest[t] ||
              sys.store.latest[t].version < sys'.store.latest[t].version))
    && (forall t :: Promotions(sys, t) <= Promotions(sys', t))
    && (forall id :: id in sys.clients ==>
          && id in sys'.clients && sys'.clients[id].schema == sys.clients[id].schema
          && (sys.clients[id].pc.Done? ==> sys'.clients[id] == sys.clients[id]))
  }

  // ---------------------------------------------------------------------------------------------
  // One step keeps the invariant
  // ---------------------------------------------------------------------------------------------

  lemma StepMovesForward(sys: System, a: Action)
    requires ClientsInv(sys)
    ensures Later(sys, Apply(sys, a))
  {
    if a.Step? && a.id in sys.clients {
      assert LoopInv(sys, a.id);
    }
  }

  /** The other clients keep what they own through a step of client `id`. */
  lemma StepKeepsOtherOwnership(sys: System, id: ClientId, reply: Reply, other: ClientId)
    requires ClientsInv(sys)
    requires id in sys.clients && other in sys.clients && other != id
    ensures other in DoStep(sys, id, reply).clients && OwnershipInv(DoStep(sys, id, reply), other)
  {
    assert ClientInv(sys, id) && ClientInv(sys, other);
  }

  lemma StepKeepsOtherLoop(sys: System, id: ClientId, reply: Reply, other: ClientId)
    requires ClientsInv(sys)
    requires id in sys.clients && other in sys.clients && other != id
    ensures other in DoStep(sys, id, reply).clients && LoopInv(DoStep(sys, id, reply), other)
  {
    assert LoopInv(sys, id) && LoopInv(sys, other);
  }

  lemma StepKeepsOwnership(sys: System, id: ClientId, reply: Reply)
    requires ClientsInv(sys) && id in sys.clients
    ensures id in DoStep(sys, id, reply).clients && OwnershipInv(DoStep(sys, id, reply), id)
  {
    assert ClientInv(sys, id);
    var sys' := DoStep(sys, id, reply);
    match sys.clients[id].pc
    case SelectLatest =>
    case InsertVersion =>
    case InsertLatest =>
    case CasRead(k) =>
      assert sys'.store == sys.store && sys'.writers == sys.writers;
    case CasWrite(k, expected) =>
      assert sys'.store.versions == sys.store.versions && sys'.writers == sys.writers;
    case Rollback(cause) =>
    case Done(_) =>
  }

  lemma StepKeepsLoop(sys: System, id: ClientId, reply: Reply)
    requires ClientsInv(sys) && id in sys.clients
    ensures id in DoStep(sys, id, reply).clients && LoopInv(DoStep(sys, id, reply), id)
  {
    assert LoopInv(sys, id);
  }

  lemma StepKeepsRows(sys: System, id: ClientId, reply: Reply)
    requires Core(sys) && id in sys.clients
    ensures RowsInv(DoStep(sys, id, reply))
  {
    assert ClientInv(sys, id);
  }

  lemma StepKeepsPointer(sys: System, id: ClientId, reply: Reply, t: TypeId)
    requires ClientsInv(sys) && RowsInv(sys) && LatestInv(sys) && Faithful(sys, Step(id, reply)) && id in sys.clients
    requires t in DoStep(sys, id, reply).store.latest
    ensures PointerBacked(DoStep(sys, id, reply), t)
  {
    hide LoopInv;
    assert OwnershipInv(sys, id);
    if t in sys.store.latest {
      assert PointerBacked(sys, t);
    }
  }

  lemma BeginKeepsCore(sys: System, id: ClientId, schema: Schema)
    requires Core(sys)
    ensures Core(Apply(sys, Begin(id, schema)))
  {
    var sys' := Apply(sys, Begin(id, schema));
    forall i | i in sys'.clients
      ensures ClientInv(sys', i)
    {
      if i in sys.clients {
        assert ClientInv(sys, i);
      }
    }
  }

  lemma BeginKeepsPointers(sys: System, id: ClientId, schema: Schema)
    requires LatestInv(sys)
    ensures LatestInv(Apply(sys, Begin(id, schema)))
  {
    var sys' := Apply(sys, Begin(id, schema));
    forall t | t in sys'.store.latest
      ensures PointerBacked(sys', t)
    {
      assert PointerBacked(sys, t);
    }
  }

  /** Every step of every client, whatever the driver answers. */
  lemma StepKeepsCore(sys: System, a: Action)
    requires Core(sys)
    ensures Core(Apply(sys, a))
  {
    match a
    case Begin(id, schema) => BeginKeepsCore(sys, id, schema);
    case Step(id, reply) =>
      if id in sys.clients {
        StepKeepsRows(sys, id, reply);
        hide RowsInv, OwnershipInv, LoopInv;
        var sys' := DoStep(sys, id, reply);
        forall other | other in sys'.clients
          ensures ClientInv(sys', other)
        {
          if other == id {
            StepKeepsOwnership(sys, id, reply);
            StepKeepsLoop(sys, id, reply);
          } else {
            StepKeepsOtherOwnership(sys, id, reply, other);
            StepKeepsOtherLoop(sys, id, reply, other);
          }
        }
      }
  }

  lemma StepKeepsInv(sys: System, a: Action)
    requires Inv(sys) && Faithful(sys, a)
    ensures Inv(Apply(sys, a))
  {
    StepKeepsCore(sys, a);
    match a
    case Begin(id, schema) => BeginKeepsPointers(sys, id, schema);
    case Step(id, reply) =>
      if id in sys.clients {
        var sys' := DoStep(sys, id, reply);
        hide ClientsInv, RowsInv;
        forall t | t in sys'.store.latest
          ensures PointerBacked(sys', t)
        {
          StepKeepsPointer(sys, id, reply, t);
        }
      }
  }

  // ---------------------------------------------------------------------------------------------
  // Whole runs
  // ---------------------------------------------------------------------------------------------

  lemma LaterIsTransitive(a: System, b: System, c: System)
    requires Later(a, b) && Later(b, c)
    ensures Later(a, c)
  {
    forall t | t in a.store.latest
      ensures t in c.store.latest
      ensures c.store.latest[t] == a.store.latest[t] || a.store.latest[t].version < c.store.latest[t].version
    {
      assert t in b.store.latest;
    }
    forall t
      ensures Promotions(a, t) <= Promotions(c, t)
    {
      assert Promotions(a, t) <= Promotions(b, t);
    }
  }

  lemma {:induction false} RunKeepsCore(sys: System, run: seq<Action>)
    requires Core(sys)
    ensures Core(Exec(sys, run)) && Later(sys, Exec(sys, run))
    decreases |run|
  {
    hide Apply, ClientsInv, RowsInv;
    if run != [] {
      var next := Apply(sys, run[0]);
      StepKeepsCore(sys, run[0]);
      StepMovesForward(sys, run[0]);
      RunKeepsCore(next, run[1..]);
      LaterIsTransitive(sys, next, Exec(next, run[1..]));
    }
  }

  lemma {:induction false} RunKeepsInv(sys: System, run: seq<Action>)
    requires Inv(sys) && FaithfulRun(sys, run)
    ensures Inv(Exec(sys, run)) && Later(sys, Exec(sys, run))
    decreases |run|
  {
    hide Apply, Faithful, ClientsInv, RowsInv, LatestInv;
    RunKeepsCore(sys, run);
    if run != [] {
      StepKeepsInv(sys, run[0]);
      RunKeepsInv(Apply(sys, run[0]), run[1..]);
    }
  }

  lemma {:induction false} ExecConcat(sys: System, first: seq<Action>, second: seq<Action>)
    ensures Exec(sys, first + second) == Exec(Exec(sys, first), second)
    ensures FaithfulRun(sys, first + second) <==> FaithfulRun(sys, first) && FaithfulRun(Exec(sys, first), second)
    decreases |first|
  {
    if first == [] {
      assert first + second == second;
    } else {
      assert (first + second)[0] == first[0] && (first + second)[1..] == first[1..] + second;
      ExecConcat(Apply(sys, first[0]), first[1..], second);
    }
  }

  /** For every interleaving of any number of Puts: schemas_latest names an existing version row with the
      same payload. */
  lemma PointerAlwaysNamesRow(run: seq<Action>)
    requires FaithfulRun(INIT, run)
    ensures PointerNamesRow(Exec(INIT, run).store)
  {
    RunKeepsInv(INIT, run);
  }

  /** Between any two moments of any run, whatever the driver answers, the pointer is unchanged or its version is
      strictly greater. */
  lemma PointerStrictlyIncreases(first: seq<Action>, second: seq<Action>, t: TypeId)
    requires t in Exec(INIT, first).store.latest
    ensures t in Exec(INIT, first + second).store.latest
    ensures
      var before, after := Exec(INIT, first).store.latest[t], Exec(INIT, first + second).store.latest[t];
      after == before || before.version < after.version
  {
    ExecConcat(INIT, first, second);
    RunKeepsCore(INIT, first);
    RunKeepsCore(Exec(INIT, first), second);
  }

  /** A Put that returned success keeps its row, with its own version, payload and creation time, whatever runs
      afterwards and whatever the driver answers: no rollback of any other Put deletes it.  The pointer stays at or
      above its version. */
  lemma SuccessfulPutSurvives(first: seq<Action>, second: seq<Action>, id: ClientId)
    requires id in Exec(INIT, first).clients && Exec(INIT, first).clients[id].pc == Done(Success)
    ensures
      var schema := Exec(INIT, first).clients[id].schema;
      var st := Exec(INIT, first + second).store;
      var key := (schema.typeId, schema.version);
      && key in st.versions && st.versions[key].version == schema.version
      && Some(st.versions[key].json) == schema.json && st.versions[key].createdAt == schema.createdAt
      && schema.typeId in st.latest && schema.version <= st.latest[schema.typeId].version
  {
    ExecConcat(INIT, first, second);
    RunKeepsCore(INIT, first);
    RunKeepsCore(Exec(INIT, first), second);
    SuccessIsPublished(Exec(INIT, first + second), id);
  }

  /** A (type, version) pair is published by at most one Put. */
  lemma OneSuccessPerVersion(run: seq<Action>, a: ClientId, b: ClientId)
    requires
      var sys := Exec(INIT, run);
      && a in sys.clients && b in sys.clients
      && sys.clients[a].pc == Done(Success) && sys.clients[b].pc == Done(Success)
      && KeyOf(sys.clients[a].schema) == KeyOf(sys.clients[b].schema)
    ensures a == b
  {
    RunKeepsCore(INIT, run);
    var sys := Exec(INIT, run);
    assert ClientInv(sys, a) && ClientInv(sys, b);
  }

  /** The CAS loop is lock-free: a Put gives up as "not converged" only after at least eight other Puts
      of the same type moved the pointer while it was looping. */
  lemma GivingUpMeansEightPromotions(run: seq<Action>, id: ClientId)
    requires id in Exec(INIT, run).clients && Exec(INIT, run).clients[id].pc == Done(NotConverged)
    ensures
      var sys := Exec(INIT, run);
      Promotions(sys, sys.clients[id].schema.typeId) >= sys.clients[id].base + 8
  {
    RunKeepsCore(INIT, run);
    assert ClientInv(Exec(INIT, run), id);
  }

  /** The driver hypothesis is exact, in every state the protocol can be in: when the acknowledgement of an
      applied pointer move is lost, the next statement of that Put is its rollback delete, and readers keep a
      valid pointer if and only if that delete fails. */
  lemma LostPromotionAckDangles(sys: System, id: ClientId, reply: Reply)
    requires Core(sys) && PointerNamesRow(sys.store) && id in sys.clients && MovesPointer(sys, id)
    ensures
      var lost := DoStep(sys, id, LostAck);
      && PointerNamesRow(lost.store) && lost.clients[id].pc == Rollback(Backend)
      && (PointerNamesRow(DoStep(lost, id, reply).store) <==> reply == Failed)
  {
    var lost := DoStep(sys, id, LostAck);
    StepNamedIff(sys, Step(id, LostAck));
    StepKeepsCore(sys, Step(id, LostAck));
    StepNamedIff(lost, Step(id, reply));
    hide PointerNamesRow, RowsInv, LoopInv;
    assert OwnershipInv(sys, id);
  }

  // ---------------------------------------------------------------------------------------------
  // Runs under any driver: when readers lose the row schemas_latest names
  // ---------------------------------------------------------------------------------------------

  /** A rollback delete takes effect on the version schemas_latest names. */
  predicate DeletesLatest(sys: System, a: Action) {
    && a.Step? && a.reply != Failed && a.id in sys.clients && sys.clients[a.id].pc.Rollback?
    && var s := sys.clients[a.id].schema;
       s.typeId in sys.store.latest && sys.store.latest[s.typeId].version == s.version
  }

  predicate NeverDeletesLatest(sys: System, run: seq<Action>)
    decreases |run|
  {
    run != [] ==> !DeletesLatest(sys, run[0]) && NeverDeletesLatest(Apply(sys, run[0]), run[1..])
  }

  /** schemas_latest names its row at every moment of the run. */
  ghost predicate AlwaysNamed(sys: System, run: seq<Action>)
    decreases |run|
  {
    PointerNamesRow(sys.store) && (run != [] ==> AlwaysNamed(Apply(sys, run[0]), run[1..]))
  }

  lemma DeleteLosesName(sys: System, a: Action)
    requires Core(sys) && DeletesLatest(sys, a)
    ensures !PointerNamesRow(Apply(sys, a).store)
  {
    hide RowsInv;
    var s := sys.clients[a.id].schema;
    assert OwnershipInv(sys, a.id);
    assert s.typeId in Apply(sys, a).store.latest;
  }

  /** A statement that is no such delete keeps the row of type t that schemas_latest names. */
  lemma OtherStepKeepsName(sys: System, id: ClientId, reply: Reply, t: TypeId)
    requires Core(sys) && PointerNamesRow(sys.store) && id in sys.clients && !DeletesLatest(sys, Step(id, reply))
    requires t in DoStep(sys, id, reply).store.latest
    ensures
      var st := DoStep(sys, id, reply).store;
      (t, st.latest[t].version) in st.versions && st.versions[(t, st.latest[t].version)] == st.latest[t]
  {
    hide LoopInv;
    assert OwnershipInv(sys, id);
    match sys.clients[id].pc
    case SelectLatest =>
    case InsertVersion =>
    case InsertLatest =>
    case CasRead(_) =>
    case CasWrite(_, _) =>
    case Rollback(_) =>
    case Done(_) =>
  }

  /** One step loses the named row exactly when it is such a delete. */
  lemma StepNamedIff(sys: System, a: Action)
    requires Core(sys) && PointerNamesRow(sys.store)
    ensures PointerNamesRow(Apply(sys, a).store) <==> !DeletesLatest(sys, a)
  {
    if DeletesLatest(sys, a) {
      DeleteLosesName(sys, a);
    } else if a.Step? && a.id in sys.clients {
      hide ClientsInv, RowsInv, DeletesLatest;
      var st := DoStep(sys, a.id, a.reply).store;
      forall t | t in st.latest
        ensures (t, st.latest[t].version) in st.versions && st.versions[(t, st.latest[t].version)] == st.latest[t]
      {
        OtherStepKeepsName(sys, a.id, a.reply, t);
      }
    }
  }

  lemma {:induction false} RunNamedIff(sys: System, run: seq<Action>)
    requires Core(sys) && PointerNamesRow(sys.store)
    ensures AlwaysNamed(sys, run) <==> NeverDeletesLatest(sys, run)
    decreases |run|
  {
    hide Core, PointerNamesRow, DeletesLatest, Apply;
    if run != [] {
      StepNamedIff(sys, run[0]);
      StepKeepsCore(sys, run[0]);
      if !DeletesLatest(sys, run[0]) {
        RunNamedIff(Apply(sys, run[0]), run[1..]);
      } else {
        NamedNow(Apply(sys, run[0]), run[1..]);
      }
    }
  }

  lemma NamedNow(sys: System, run: seq<Action>)
    ensures AlwaysNamed(sys, run) ==> PointerNamesRow(sys.store)
  {
  }

  /** For every run under any driver, lost acknowledgements included: schemas_latest names an existing row with
      its payload at every moment if and only if no rollback delete takes effect on the version it names. */
  lemma PointerAlwaysNamesRowIff(run: seq<Action>)
    ensures AlwaysNamed(INIT, run) <==> NeverDeletesLatest(INIT, run)
  {
    RunNamedIff(INIT, run);
  }

  /** A faithful driver never lets that happen. */
  lemma {:induction false} FaithfulNeverDeletesLatest(sys: System, run: seq<Action>)
    requires Inv(sys) && FaithfulRun(sys, run)
    ensures NeverDeletesLatest(sys, run)
    decreases |run|
  {
    hide Apply, Faithful;
    if run != [] {
      StepKeepsInv(sys, run[0]);
      if run[0].Step? && run[0].id in sys.clients {
        var c := sys.clients[run[0].id];
        if c.pc.Rollback? && c.schema.typeId in sys.store.latest {
          RollbackIsNotLatest(sys, run[0].id);
        }
      }
      hide Inv, DeletesLatest;
      FaithfulNeverDeletesLatest(Apply(sys, run[0]), run[1..]);
    }
  }

  lemma RollbackIsNotLatest(sys: System, id: ClientId)
    requires Inv(sys) && id in sys.clients && sys.clients[id].pc.Rollback?
    requires sys.clients[id].schema.typeId in sys.store.latest
    ensures sys.store.latest[sys.clients[id].schema.typeId].version != sys.clients[id].schema.version
  {
    assert OwnershipInv(sys, id);
    assert PointerBacked(sys, sys.clients[id].schema.typeId);
  }

  /** The failure happens in a run of five steps from the empty store. */
  lemma LostAckRun()
    ensures
      var s := Schema("t", 1, Some("{}"), 0);
      var run := [Begin(0, s), Step(0, Delivered), Step(0, Delivered), Step(0, LostAck), Step(0, Delivered)];
      !FaithfulRun(INIT, run) && !PointerNamesRow(Exec(INIT, run).store)
  {
    hide Exec, FaithfulRun, Apply, Faithful;
    var s := Schema("t", 1, Some("{}"), 0);
    var s1, s2, s3, s4, s5 := LostAckStates(s);
    var ok, lost := Step(0, Delivered), Step(0, LostAck);
    assert [Begin(0, s), ok, ok, lost, ok] == [Begin(0, s)] + [ok, ok, lost, ok];
    assert [ok, ok, lost, ok] == [ok] + [ok, lost, ok] && [ok, lost, ok] == [ok] + [lost, ok];
    assert [lost, ok] == [lost] + [ok] && [ok] == [ok] + [];
    FirstThenRest(INIT, Begin(0, s), [ok, ok, lost, ok]);
    FirstThenRest(s1, ok, [ok, lost, ok]);
    FirstThenRest(s2, ok, [lost, ok]);
    FirstThenRest(s3, lost, [ok]);
    FirstThenRest(s4, ok, []);
    NothingRuns(s5);
  }

  /** The states of that run. */
  lemma LostAckStates(s: Schema) returns (s1: System, s2: System, s3: System, s4: System, s5: System)
    requires s == Schema("t", 1, Some("{}"), 0)
    ensures Apply(INIT, Begin(0, s)) == s1 && Apply(s1, Step(0, Delivered)) == s2 && Apply(s2, Step(0, Delivered)) == s3
    ensures Apply(s3, Step(0, LostAck)) == s4 && Apply(s4, Step(0, Delivered)) == s5
    ensures !Faithful(s3, Step(0, LostAck)) && !PointerNamesRow(s5.store)
  {
    var row := Row(1, "{}", 0);
    s1 := System(Store(map[], map[]), map[0 := Client(s, SelectLatest, 0)], map[], map[]);
    s2 := s1.(clients := map[0 := Client(s, InsertVersion, 0)]);
    s3 := System(Store(map[("t", 1) := row], map[]), map[0 := Client(s, InsertLatest, 0)],
                     map[("t", 1) := 0], map[]);
    s4 := System(Store(map[("t", 1) := row], map["t" := row]), map[0 := Client(s, Rollback(Backend), 0)],
                     map[("t", 1) := 0], map["t" := 1]);
    s5 := System(Store(map[], map["t" := row]), map[0 := Client(s, Done(Backend), 0)],
                     map[("t", 1) := 0], map["t" := 1]);
    assert Apply(INIT, Begin(0, s)) == s1;
    assert Apply(s1, Step(0, Delivered)) == s2;
    assert Apply(s2, Step(0, Delivered)) == s3;
    assert Apply(s3, Step(0, LostAck)) == s4;
    assert Apply(s4, Step(0, Delivered)) == s5 by {
      assert map[("t", 1) := row] - {("t", 1)} == map[];
    }
  }

  lemma NothingRuns(sys: System)
    ensures Exec(sys, []) == sys
  {
  }

  lemma FirstThenRest(sys: System, a: Action, rest: seq<Action>)
    ensures Exec(sys, [a] + rest) == Exec(Apply(sys, a), rest)
    ensures FaithfulRun(sys, [a] + rest) <==> Faithful(sys, a) && FaithfulRun(Apply(sys, a), rest)
  {
    assert ([a] + rest)[1..] == rest;
  }

  /** A Put that succeeded has its own version, payload and creation time in schemas_by_type. */
  lemma SuccessIsPublished(sys: System, me: ClientId)
    requires Core(sys) && me in sys.clients && sys.clients[me].pc == Done(Success)
    ensures
      var schema, st := sys.clients[me].schema, sys.store;
      var key := (schema.typeId, schema.version);
      && key in st.versions && st.versions[key].version == schema.version
      && Some(st.versions[key].json) == schema.json && st.versions[key].createdAt == schema.createdAt
      && schema.typeId in st.latest && schema.version <= st.latest[schema.typeId].version
  {
    assert ClientInv(sys, me);
  }
}
