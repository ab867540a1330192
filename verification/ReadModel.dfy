/**
 The read-model store (libs/cassandra-kernel/read_model_store.go): a main table and a by-parent table kept next to
 it by plain statements, one client at a time.
 */
module ReadModel {
  import opened Common
  import opened GoInt
  import opened IdOrder

  datatype Scope = Scope(kind: string, tenant: string)
  datatype Key = Key(scope: Scope, id: Id)
  datatype ParentKey = ParentKey(scope: Scope, parent: Id, id: Id)
  /** Record versions are unsigned, the version column is signed. */
  datatype Cells = Cells(payload: string, version: Int64, updated: Int64)
  datatype MainRow = MainRow(parent: Option<Id>, cells: Cells)
  datatype Tables = Tables(main: map<Key, MainRow>, byParent: map<ParentKey, Cells>)

  datatype Record = Record(key: Key, parent: Option<Id>, payload: string, version: Uint64, updatedAtMs: int)

  datatype PutOutcome =
    | Inserted
    | Updated(previous: Uint64, next: Uint64)
    | VersionConflict(expected: Uint64, actual: Uint64)
    | PutError

  const EMPTY := Tables(map[], map[])

  // ---------------------------------------------------------------------------------------------
  // Operations on the tables
  // ---------------------------------------------------------------------------------------------

  /** readModelRecord: an empty parent reads as none, a negative version as zero. */
  function ReadBack(key: Key, parent: Option<Id>, cells: Cells): Record {
    Record(key, if parent == Some("") then None else parent, cells.payload,
           if cells.version >= 0 then cells.version else 0, cells.updated)
  }

  function Lookup(t: Tables, key: Key): Option<Record> {
    if key in t.main then Some(ReadBack(key, t.main[key].parent, t.main[key].cells)) else None
  }

  /** The version a Put uses; `now` is the clock in milliseconds. */
  function VersionOf(r: Record, now: Uint64): Uint64 {
    if r.version == 0 then now else r.version
  }

  predicate Accepts(t: Tables, r: Record, now: Uint64) {
    var existing := Lookup(t, r.key);
    existing.None? || existing.value.version < VersionOf(r, now)
  }

  function CellsOf(r: Record, now: Uint64): Cells {
    Cells(if r.payload == "" then "null" else r.payload, Wrap64(VersionOf(r, now)), Wrap64(VersionOf(r, now)))
  }

  function ParentKeyOf(key: Key, parent: Id): ParentKey {
    ParentKey(key.scope, parent, key.id)
  }

  function WithoutParent(t: Tables, key: Key, parent: Id): Tables {
    t.(byParent := t.byParent - {ParentKeyOf(key, parent)})
  }

  /** The stored record is read back under another, non-empty parent. */
  predicate Moves(t: Tables, r: Record) {
    var old_ := Lookup(t, r.key);
    old_.Some? && old_.value.parent.Some? && old_.value.parent != r.parent
  }

  /** The tables after the first n statements of an accepted Put: main row, old parent row, new parent row. */
  function PutSteps(t: Tables, r: Record, now: Uint64, n: nat): Tables {
    var old_ := Lookup(t, r.key);
    var moved := Moves(t, r);
    var t1 := if n >= 1 then t.(main := t.main[r.key := MainRow(r.parent, CellsOf(r, now))]) else t;
    var t2 := if n >= 2 && moved then WithoutParent(t1, r.key, old_.value.parent.value) else t1;
    if n >= 3 && r.parent.Some?
    then t2.(byParent := t2.byParent[ParentKeyOf(r.key, r.parent.value) := CellsOf(r, now)])
    else t2
  }

  function Put(t: Tables, r: Record, now: Uint64): (Tables, PutOutcome) {
    var old_ := Lookup(t, r.key);
    if !Accepts(t, r, now) then (t, VersionConflict(VersionOf(r, now), old_.value.version))
    else (PutSteps(t, r, now, 3), if old_.None? then Inserted else Updated(old_.value.version, VersionOf(r, now)))
  }

  function DeleteSteps(t: Tables, key: Key, n: nat): Tables {
    var old_ := Lookup(t, key);
    if old_.None? then t else
    var t1 := if n >= 1 then t.(main := t.main - {key}) else t;
    if n >= 2 && old_.value.parent.Some? then WithoutParent(t1, key, old_.value.parent.value) else t1
  }

  function Delete(t: Tables, key: Key): Tables {
    DeleteSteps(t, key, 2)
  }

  datatype Op = PutOp(record: Record, now: Uint64) | DeleteOp(key: Key)

  function Do(t: Tables, op: Op): Tables {
    match op
    case PutOp(r, now) => Put(t, r, now).0
    case DeleteOp(key) => Delete(t, key)
  }

  function Run(t: Tables, ops: seq<Op>): Tables
    decreases |ops|
  {
    if ops == [] then t else Run(Do(t, ops[0]), ops[1..])
  }

  // ---------------------------------------------------------------------------------------------
  // The index
  // ---------------------------------------------------------------------------------------------

  /** The by-parent row under pk is there exactly when the main row names that parent, with the same cells. */
  ghost predicate RowIndexed(t: Tables, pk: ParentKey) {
    var key := Key(pk.scope, pk.id);
    var named := key in t.main && t.main[key].parent == Some(pk.parent);
    && (named ==> pk in t.byParent && t.byParent[pk] == t.main[key].cells)
    && (pk in t.byParent && pk.parent != "" ==> named)
  }

  ghost predicate Indexed(t: Tables) {
    forall pk :: RowIndexed(t, pk)
  }

  lemma PutKeepsIndex(t: Tables, r: Record, now: Uint64)
    requires Indexed(t)
    ensures Indexed(Put(t, r, now).0)
  {
    var t' := Put(t, r, now).0;
    forall pk
      ensures RowIndexed(t', pk)
    {
      assert RowIndexed(t, pk);
    }
  }

  lemma DeleteKeepsIndex(t: Tables, key: Key)
    requires Indexed(t)
    ensures Indexed(Delete(t, key))
  {
    var t' := Delete(t, key);
    forall pk
      ensures RowIndexed(t', pk)
    {
      assert RowIndexed(t, pk);
    }
  }

  /** After any sequence of Puts and Deletes, for every parent id but the empty one, the by-parent table is the
      main table grouped by parent; for the empty one it holds at least those rows. */
  lemma {:induction false} RunKeepsIndex(t: Tables, ops: seq<Op>)
    requires Indexed(t)
    ensures Indexed(Run(t, ops))
    decreases |ops|
  {
    hide Indexed, Put, Delete;
    if ops != [] {
      match ops[0] {
        case PutOp(r, now) => PutKeepsIndex(t, r, now);
        case DeleteOp(key) => DeleteKeepsIndex(t, key);
      }
      RunKeepsIndex(Do(t, ops[0]), ops[1..]);
    }
  }

  // ---------------------------------------------------------------------------------------------
  // The empty parent
  // ---------------------------------------------------------------------------------------------

  /** The grouping is exact for every parent id, the empty one included. */
  ghost predicate ExactlyIndexed(t: Tables) {
    Indexed(t) && forall pk :: pk in t.byParent ==> RowNamed(t, pk)
  }

  predicate RowNamed(t: Tables, pk: ParentKey) {
    var key := Key(pk.scope, pk.id);
    key in t.main && t.main[key].parent == Some(pk.parent)
  }

  predicate UnderEmptyParent(t: Tables, key: Key) {
    key in t.main && t.main[key].parent == Some("")
  }

  /** The operation takes a stored record away from the empty parent: an accepted Put under another parent or
      none, or a Delete. */
  predicate LeavesEmptyParent(t: Tables, op: Op) {
    match op
    case PutOp(r, now) => UnderEmptyParent(t, r.key) && Accepts(t, r, now) && r.parent != Some("")
    case DeleteOp(key) => UnderEmptyParent(t, key)
  }

  /** Such an operation leaves the old row behind. */
  lemma EmptyParentIsLeftBehind(t: Tables, op: Op)
    requires Indexed(t) && LeavesEmptyParent(t, op)
    ensures
      var t' := Do(t, op);
      var pk := ParentKeyOf(if op.PutOp? then op.record.key else op.key, "");
      pk in t'.byParent && !RowNamed(t', pk)
  {
    assert RowIndexed(t, ParentKeyOf(if op.PutOp? then op.record.key else op.key, ""));
  }

  lemma PutKeepsNames(t: Tables, r: Record, now: Uint64)
    requires ExactlyIndexed(t) && !LeavesEmptyParent(t, PutOp(r, now))
    ensures ExactlyIndexed(Put(t, r, now).0)
  {
    PutKeepsIndex(t, r, now);
    hide Indexed;
    var t' := Put(t, r, now).0;
    forall pk | pk in t'.byParent
      ensures RowNamed(t', pk)
    {
      assert pk in t.byParent ==> RowNamed(t, pk);
    }
  }

  lemma DeleteKeepsNames(t: Tables, key: Key)
    requires ExactlyIndexed(t) && !LeavesEmptyParent(t, DeleteOp(key))
    ensures ExactlyIndexed(Delete(t, key))
  {
    DeleteKeepsIndex(t, key);
    hide Indexed;
    var t' := Delete(t, key);
    forall pk | pk in t'.byParent
      ensures RowNamed(t', pk)
    {
      assert RowNamed(t, pk);
    }
  }

  /** An operation keeps the grouping exact for every parent if and only if it does not take a record away from
      the empty parent. */
  lemma ExactIndexKeptIff(t: Tables, op: Op)
    requires ExactlyIndexed(t)
    ensures ExactlyIndexed(Do(t, op)) <==> !LeavesEmptyParent(t, op)
  {
    hide Indexed, Put, Delete;
    if LeavesEmptyParent(t, op) {
      EmptyParentIsLeftBehind(t, op);
    } else {
      hide LeavesEmptyParent;
      match op
      case PutOp(r, now) => PutKeepsNames(t, r, now);
      case DeleteOp(key) => DeleteKeepsNames(t, key);
    }
  }

  /** The grouping is exact after every operation. */
  ghost predicate AlwaysExact(t: Tables, ops: seq<Op>)
    decreases |ops|
  {
    ExactlyIndexed(t) && (ops != [] ==> AlwaysExact(Do(t, ops[0]), ops[1..]))
  }

  predicate NeverLeavesEmptyParent(t: Tables, ops: seq<Op>)
    decreases |ops|
  {
    ops != [] ==> !LeavesEmptyParent(t, ops[0]) && NeverLeavesEmptyParent(Do(t, ops[0]), ops[1..])
  }

  /** Over any sequence of operations: the by-parent table is at every moment exactly the main table grouped by
      parent, the empty parent included, if and only if no operation takes a record away from the empty parent. */
  lemma {:induction false} AlwaysExactIff(t: Tables, ops: seq<Op>)
    requires ExactlyIndexed(t)
    ensures AlwaysExact(t, ops) <==> NeverLeavesEmptyParent(t, ops)
    decreases |ops|
  {
    hide ExactlyIndexed, LeavesEmptyParent, Do;
    if ops != [] {
      ExactIndexKeptIff(t, ops[0]);
      if !LeavesEmptyParent(t, ops[0]) {
        AlwaysExactIff(Do(t, ops[0]), ops[1..]);
      } else {
        ExactNow(Do(t, ops[0]), ops[1..]);
      }
    }
  }

  lemma ExactNow(t: Tables, ops: seq<Op>)
    ensures AlwaysExact(t, ops) ==> ExactlyIndexed(t)
  {
  }

  // ---------------------------------------------------------------------------------------------
  // Interrupted Puts
  // ---------------------------------------------------------------------------------------------

  /** The cells of the row are already those the Put writes. */
  predicate AlreadyUnder(t: Tables, r: Record, now: Uint64) {
    && r.parent == Some("") && ParentKeyOf(r.key, "") in t.byParent
    && t.byParent[ParentKeyOf(r.key, "")] == CellsOf(r, now)
  }

  /** No by-parent row of the record is missing or stale once its main row is written. */
  predicate NothingToIndex(t: Tables, r: Record, now: Uint64) {
    r.parent.None? || AlreadyUnder(t, r, now)
  }

  /** The cells an accepted Put writes differ from the stored ones. */
  lemma AcceptedCellsAreNew(t: Tables, r: Record, now: Uint64)
    requires Accepts(t, r, now) && VersionOf(r, now) < TWO63 && r.key in t.main
    ensures t.main[r.key].cells != CellsOf(r, now)
  {
  }

  /** A Put interrupted after its main row, or after the removal of the old by-parent row, leaves the index right
      exactly when the remaining statements had nothing to do: no old row to remove, unless that is done, and
      no row to write. */
  lemma InterruptedPutIndexedIff(t: Tables, r: Record, now: Uint64, n: nat)
    requires Indexed(t) && Accepts(t, r, now) && VersionOf(r, now) < TWO63 && 1 <= n <= 2
    ensures Indexed(PutSteps(t, r, now, n)) <==> NothingToIndex(t, r, now) && (n == 2 || !Moves(t, r))
  {
    var t' := PutSteps(t, r, now, n);
    var old_ := Lookup(t, r.key);
    if r.key in t.main {
      AcceptedCellsAreNew(t, r, now);
      if t.main[r.key].parent.Some? {
        assert RowIndexed(t, ParentKeyOf(r.key, t.main[r.key].parent.value));
      }
    }
    if r.parent.Some? {
      assert RowIndexed(t, ParentKeyOf(r.key, r.parent.value));
    }
    if NothingToIndex(t, r, now) && (n == 2 || !Moves(t, r)) {
      forall pk
        ensures RowIndexed(t', pk)
      {
        assert RowIndexed(t, pk);
      }
    } else if !NothingToIndex(t, r, now) {
      assert !RowIndexed(t', ParentKeyOf(r.key, r.parent.value));
    } else {
      assert !RowIndexed(t', ParentKeyOf(r.key, old_.value.parent.value));
    }
  }

  /** Repeating the interrupted Put is refused unless its version is taken from a later clock. */
  lemma InterruptedPutStays(t: Tables, r: Record, now: Uint64, n: nat, later: Uint64)
    requires Accepts(t, r, now) && VersionOf(r, now) < TWO63 && 1 <= n <= 2
    ensures
      var t' := PutSteps(t, r, now, n);
      && (Accepts(t', r, later) <==> r.version == 0 && now < later)
      && (!Accepts(t', r, later) ==>
            Put(t', r, later) == (t', VersionConflict(VersionOf(r, later), VersionOf(r, now))))
  {
  }

  /** Whether repeating an interrupted Put repairs the index: a refused repetition changes nothing; an accepted
      one writes the new row, but a stale old row that was still there stays for good. */
  lemma RepetitionRepairsIff(t: Tables, r: Record, now: Uint64, n: nat, later: Uint64)
    requires Indexed(t) && Accepts(t, r, now) && VersionOf(r, now) < TWO63 && 1 <= n <= 2
    ensures Indexed(Put(PutSteps(t, r, now, n), r, later).0) <==>
      (n == 2 || !Moves(t, r)) && (NothingToIndex(t, r, now) || (r.version == 0 && now < later))
  {
    var t' := PutSteps(t, r, now, n);
    InterruptedPutIndexedIff(t, r, now, n);
    InterruptedPutStays(t, r, now, n, later);
    if Accepts(t', r, later) {
      AcceptedRepetition(t, r, now, n, later);
    }
  }

  lemma AcceptedRepetition(t: Tables, r: Record, now: Uint64, n: nat, later: Uint64)
    requires Indexed(t) && 1 <= n <= 2 && Accepts(PutSteps(t, r, now, n), r, later)
    ensures Indexed(Put(PutSteps(t, r, now, n), r, later).0) <==> n == 2 || !Moves(t, r)
  {
    var t' := PutSteps(t, r, now, n);
    var t'' := Put(t', r, later).0;
    if n == 2 || !Moves(t, r) {
      forall pk
        ensures RowIndexed(t'', pk)
      {
        assert RowIndexed(t, pk);
      }
    } else {
      var old_ := ParentKeyOf(r.key, Lookup(t, r.key).value.parent.value);
      assert RowIndexed(t, old_);
      assert !RowIndexed(t'', old_);
    }
  }

  /** A Delete interrupted after its main row leaves the index right exactly when the record had no parent to
      remove it from; repeating the Delete finds nothing and changes nothing. */
  lemma InterruptedDeleteIndexedIff(t: Tables, key: Key)
    requires Indexed(t)
    ensures
      var t' := DeleteSteps(t, key, 1);
      && (Indexed(t') <==> Lookup(t, key).None? || Lookup(t, key).value.parent.None?)
      && Delete(t', key) == t'
  {
    var t' := DeleteSteps(t, key, 1);
    if Lookup(t, key).Some? && Lookup(t, key).value.parent.Some? {
      var pk := ParentKeyOf(key, Lookup(t, key).value.parent.value);
      assert RowIndexed(t, pk);
      assert !RowIndexed(t', pk);
    } else {
      forall pk
        ensures RowIndexed(t', pk)
      {
        assert RowIndexed(t, pk);
      }
    }
  }

  // ---------------------------------------------------------------------------------------------
  // Versions
  // ---------------------------------------------------------------------------------------------

  /** What an accepted Put stores is read back as its own version, and so refuses every older or equal one,
      exactly when the version fits the signed column. */
  lemma VersionIsKeptIff(t: Tables, r: Record, now: Uint64)
    requires Accepts(t, r, now)
    ensures
      var found := Lookup(Put(t, r, now).0, r.key);
      && found.Some? && found.value.parent == (if r.parent == Some("") then None else r.parent)
      && (found.value.version == VersionOf(r, now) <==> VersionOf(r, now) < TWO63)
  {
  }

  /** No Delete of the key, and for the key only versions that fit. */
  predicate Calm(op: Op, key: Key) {
    match op
    case PutOp(r, now) => r.key == key ==> VersionOf(r, now) < TWO63
    case DeleteOp(k) => k != key
  }

  predicate AllCalm(ops: seq<Op>, key: Key) {
    forall i :: 0 <= i < |ops| ==> Calm(ops[i], key)
  }

  /** Between deletes a stored record is unchanged or its version is strictly greater. */
  ghost predicate Newer(t: Tables, t': Tables, key: Key) {
    key in t.main ==>
      && key in t'.main
      && (t'.main[key] == t.main[key] || t.main[key].cells.version < t'.main[key].cells.version)
  }

  lemma StepIsNewer(t: Tables, op: Op, key: Key)
    requires Calm(op, key)
    ensures Newer(t, Do(t, op), key)
  {
  }

  lemma {:induction false} VersionsGrow(t: Tables, ops: seq<Op>, key: Key)
    requires AllCalm(ops, key)
    ensures Newer(t, Run(t, ops), key)
    decreases |ops|
  {
    hide Do;
    if ops != [] {
      StepIsNewer(t, ops[0], key);
      assert AllCalm(ops[1..], key) by {
        forall i | 0 <= i < |ops[1..]|
          ensures Calm(ops[1..][i], key)
        {
          assert ops[1..][i] == ops[i + 1];
        }
      }
      VersionsGrow(Do(t, ops[0]), ops[1..], key);
    }
  }

  // ---------------------------------------------------------------------------------------------
  // Lists
  // ---------------------------------------------------------------------------------------------

  function IdsIn(t: Tables, scope: Scope): set<Id> {
    set key | key in t.main && key.scope == scope :: key.id
  }

  function IdsUnder(t: Tables, scope: Scope, parent: Id): set<Id> {
    set pk | pk in t.byParent && pk.scope == scope && pk.parent == parent :: pk.id
  }

  function MainRecords(t: Tables, scope: Scope, ids: seq<Id>): seq<Record>
    requires forall i :: 0 <= i < |ids| ==> Key(scope, ids[i]) in t.main
  {
    if ids == [] then [] else
    var key := Key(scope, ids[|ids| - 1]);
    MainRecords(t, scope, ids[..|ids| - 1]) + [ReadBack(key, t.main[key].parent, t.main[key].cells)]
  }

  function ParentRecords(t: Tables, scope: Scope, parent: Id, ids: seq<Id>): seq<Record>
    requires forall i :: 0 <= i < |ids| ==> ParentKey(scope, parent, ids[i]) in t.byParent
  {
    if ids == [] then [] else
    var id := ids[|ids| - 1];
    ParentRecords(t, scope, parent, ids[..|ids| - 1])
    + [ReadBack(Key(scope, id), Some(parent), t.byParent[ParentKey(scope, parent, id)])]
  }

  lemma ListedIds(t: Tables, scope: Scope, parent: Id)
    ensures forall id :: id in Listing(IdsIn(t, scope)) <==> Key(scope, id) in t.main
    ensures forall id :: id in Listing(IdsUnder(t, scope, parent)) <==> ParentKey(scope, parent, id) in t.byParent
  {
    forall id
      ensures id in Listing(IdsIn(t, scope)) <==> Key(scope, id) in t.main
    {
      assert id in Elements(Listing(IdsIn(t, scope))) <==> id in IdsIn(t, scope);
      if Key(scope, id) in t.main {
        assert Key(scope, id).id in IdsIn(t, scope);
      }
    }
    forall id
      ensures id in Listing(IdsUnder(t, scope, parent)) <==> ParentKey(scope, parent, id) in t.byParent
    {
      assert id in Elements(Listing(IdsUnder(t, scope, parent))) <==> id in IdsUnder(t, scope, parent);
      if ParentKey(scope, parent, id) in t.byParent {
        assert ParentKey(scope, parent, id).id in IdsUnder(t, scope, parent);
      }
    }
  }

  /** All records of a scope in id order, the clustering order of the main table. */
  ghost function ListAll(t: Tables, scope: Scope): seq<Record> {
    ListedIds(t, scope, "");
    MainRecords(t, scope, Listing(IdsIn(t, scope)))
  }

  /** The records under one parent in id order, the clustering order of the by-parent table. */
  ghost function ListUnder(t: Tables, scope: Scope, parent: Id): seq<Record> {
    ListedIds(t, scope, parent);
    ParentRecords(t, scope, parent, Listing(IdsUnder(t, scope, parent)))
  }

  function Children(records: seq<Record>, parent: Id): seq<Record> {
    if records == [] then [] else
    var n := |records| - 1;
    Children(records[..n], parent) + if records[n].parent == Some(parent) then [records[n]] else []
  }

  /** The ids whose main row names the parent, in the given order. */
  function Named(t: Tables, scope: Scope, parent: Id, ids: seq<Id>): seq<Id> {
    if ids == [] then [] else
    var key := Key(scope, ids[|ids| - 1]);
    Named(t, scope, parent, ids[..|ids| - 1])
    + if key in t.main && t.main[key].parent == Some(parent) then [key.id] else []
  }

  lemma {:induction false} NamedSelects(t: Tables, scope: Scope, parent: Id, ids: seq<Id>)
    ensures forall id :: id in Named(t, scope, parent, ids) <==>
      id in ids && Key(scope, id) in t.main && t.main[Key(scope, id)].parent == Some(parent)
    decreases |ids|
  {
    if ids != [] {
      NamedSelects(t, scope, parent, ids[..|ids| - 1]);
      assert ids == ids[..|ids| - 1] + [ids[|ids| - 1]];
    }
  }

  lemma {:induction false} NamedIsSorted(t: Tables, scope: Scope, parent: Id, ids: seq<Id>)
    requires StrictlySorted(ids)
    ensures StrictlySorted(Named(t, scope, parent, ids))
    decreases |ids|
  {
    if ids != [] {
      var front, last := ids[..|ids| - 1], ids[|ids| - 1];
      NamedIsSorted(t, scope, parent, front);
      NamedSelects(t, scope, parent, front);
      var named := Named(t, scope, parent, front);
      forall i | 0 <= i < |named|
        ensures Less(named[i], last)
      {
        assert named[i] in front;
      }
    }
  }

  /** Filtering the full list and reading the index row by row give the same records. */
  lemma {:induction false} ChildrenAreNamed(t: Tables, scope: Scope, parent: Id, ids: seq<Id>)
    requires Indexed(t) && parent != ""
    requires forall i :: 0 <= i < |ids| ==> Key(scope, ids[i]) in t.main
    ensures forall i :: 0 <= i < |Named(t, scope, parent, ids)| ==>
      ParentKey(scope, parent, Named(t, scope, parent, ids)[i]) in t.byParent
    ensures Children(MainRecords(t, scope, ids), parent) ==
      ParentRecords(t, scope, parent, Named(t, scope, parent, ids))
    decreases |ids|
  {
    if ids != [] {
      var front, id := ids[..|ids| - 1], ids[|ids| - 1];
      ChildrenAreNamed(t, scope, parent, front);
      assert RowIndexed(t, ParentKey(scope, parent, id));
      var records := MainRecords(t, scope, ids);
      assert records[..|records| - 1] == MainRecords(t, scope, front);
      var named := Named(t, scope, parent, front);
      if t.main[Key(scope, id)].parent == Some(parent) {
        assert Named(t, scope, parent, ids) == named + [id];
        assert (named + [id])[..|named|] == named;
      } else {
        assert Named(t, scope, parent, ids) == named;
      }
    }
  }

  /** Listing by a parent equals filtering the full list by it, records and order. */
  lemma ListUnderIsFilter(t: Tables, scope: Scope, parent: Id)
    requires Indexed(t) && parent != ""
    ensures ListUnder(t, scope, parent) == Children(ListAll(t, scope), parent)
  {
    hide StrictlySorted, Children;
    var ids, under := Listing(IdsIn(t, scope)), Listing(IdsUnder(t, scope, parent));
    ListedIds(t, scope, parent);
    ChildrenAreNamed(t, scope, parent, ids);
    NamedIsSorted(t, scope, parent, ids);
    NamedSelects(t, scope, parent, ids);
    var named := Named(t, scope, parent, ids);
    forall id
      ensures id in named <==> id in under
    {
      assert RowIndexed(t, ParentKey(scope, parent, id));
    }
    assert Elements(named) == Elements(under);
    SortedIsUnique(named, under);
  }

  // ---------------------------------------------------------------------------------------------
  // What callers see
  // ---------------------------------------------------------------------------------------------

  /** The record as it is read back after a Put under version v: no payload reads as null, the empty parent as none,
      and the time of the update is the version taken as milliseconds. */
  function Visible(r: Record, v: Uint64): Record {
    Record(r.key, if r.parent == Some("") then None else r.parent, if r.payload == "" then "null" else r.payload,
           if v < 0x8000_0000_0000_0000 then v else 0,
           if v < 0x8000_0000_0000_0000 then v else v - 0x1_0000_0000_0000_0000)
  }

  /** A Put is accepted if and only if the key is new or its version is below the given one, or below the clock when
      none is given.  It is then read back field by field, and no other key changes; a refused Put changes nothing and
      reports both versions. */
  lemma PutReadsBack(t: Tables, r: Record, now: Uint64, key: Key)
    ensures
      var before, (t', out) := Lookup(t, r.key), Put(t, r, now);
      var v := if r.version == 0 then now else r.version;
      && (out.VersionConflict? <==> before.Some? && before.value.version >= v)
      && (out.Inserted? <==> before.None?)
      && (out.VersionConflict? ==> t' == t && out == VersionConflict(v, before.value.version))
      && (out.Updated? ==> out == Updated(before.value.version, v))
      && (!out.VersionConflict? ==> Lookup(t', r.key) == Some(Visible(r, v)))
      && (key != r.key ==> Lookup(t', key) == Lookup(t, key))
  {
  }

  lemma DeleteReadsBack(t: Tables, key: Key, other: Key)
    ensures Lookup(Delete(t, key), key) == None
    ensures other != key ==> Lookup(Delete(t, key), other) == Lookup(t, other)
  {
  }

  /** The store as a map of records, without tables, columns or wrap-around. */
  function Replayed(records: map<Key, Record>, op: Op): map<Key, Record> {
    match op
    case PutOp(r, now) =>
      var v := if r.version == 0 then now else r.version;
      if r.key in records && records[r.key].version >= v then records else records[r.key := Visible(r, v)]
    case DeleteOp(key) => records - {key}
  }

  function Replay(records: map<Key, Record>, ops: seq<Op>): map<Key, Record>
    decreases |ops|
  {
    if ops == [] then records else Replay(Replayed(records, ops[0]), ops[1..])
  }

  ghost predicate Shows(t: Tables, records: map<Key, Record>) {
    forall key :: Lookup(t, key) == if key in records then Some(records[key]) else None
  }

  lemma StepShows(t: Tables, records: map<Key, Record>, op: Op)
    requires Shows(t, records)
    ensures Shows(Do(t, op), Replayed(records, op))
  {
    hide Lookup, Put, Delete, Visible;
    forall key
      ensures Lookup(Do(t, op), key) ==
        if key in Replayed(records, op) then Some(Replayed(records, op)[key]) else None
    {
      match op
      case PutOp(r, now) => PutReadsBack(t, r, now, key);
      case DeleteOp(k) => DeleteReadsBack(t, k, key);
    }
  }

  /** Over any sequence of Puts and Deletes, what Get answers is what the map of records holds. */
  lemma {:induction false} RunShows(t: Tables, records: map<Key, Record>, ops: seq<Op>)
    requires Shows(t, records)
    ensures Shows(Run(t, ops), Replay(records, ops))
    decreases |ops|
  {
    hide Shows, Do, Replayed;
    if ops != [] {
      StepShows(t, records, ops[0]);
      RunShows(Do(t, ops[0]), Replayed(records, ops[0]), ops[1..]);
    }
  }

  lemma {:induction false} MainRecordsAt(t: Tables, scope: Scope, ids: seq<Id>)
    requires forall i :: 0 <= i < |ids| ==> Key(scope, ids[i]) in t.main
    ensures |MainRecords(t, scope, ids)| == |ids|
    ensures forall i :: 0 <= i < |ids| ==>
      && Lookup(t, Key(scope, ids[i])) == Some(MainRecords(t, scope, ids)[i])
      && MainRecords(t, scope, ids)[i].key == Key(scope, ids[i])
    decreases |ids|
  {
    if ids != [] {
      MainRecordsAt(t, scope, ids[..|ids| - 1]);
    }
  }

  /** List by kind holds exactly the records of the scope that Get finds, in strictly ascending order of their ids. */
  lemma ListAllMeaning(t: Tables, scope: Scope)
    ensures forall r: Record :: r in ListAll(t, scope) <==> r.key.scope == scope && Lookup(t, r.key) == Some(r)
    ensures forall i, j :: 0 <= i < j < |ListAll(t, scope)| ==>
      Less(ListAll(t, scope)[i].key.id, ListAll(t, scope)[j].key.id)
  {
    ListedIds(t, scope, "");
    var ids := Listing(IdsIn(t, scope));
    assert forall i :: 0 <= i < |ids| ==> ids[i] in ids;
    MainRecordsAt(t, scope, ids);
    hide ReadBack, MainRecords, IdsIn;
    var all := ListAll(t, scope);
    assert all == MainRecords(t, scope, ids);
    forall r: Record
      ensures r in all <==> r.key.scope == scope && Lookup(t, r.key) == Some(r)
    {
      if r.key.scope == scope && Lookup(t, r.key) == Some(r) {
        assert r.key == Key(scope, r.key.id) && r.key.id in ids;
        var i :| 0 <= i < |ids| && ids[i] == r.key.id;
        assert all[i] == r;
      }
    }
  }

  /** List by parent holds exactly the records of the scope with that parent. */
  lemma ListUnderMeaning(t: Tables, scope: Scope, parent: Id, r: Record)
    requires Indexed(t) && parent != ""
    ensures r in ListUnder(t, scope, parent) <==>
      r.key.scope == scope && Lookup(t, r.key) == Some(r) && r.parent == Some(parent)
  {
    ListUnderIsFilter(t, scope, parent);
    ListAllMeaning(t, scope);
    ChildrenMeaning(ListAll(t, scope), parent, r);
  }

  lemma {:induction false} ChildrenMeaning(records: seq<Record>, parent: Id, r: Record)
    ensures r in Children(records, parent) <==> r in records && r.parent == Some(parent)
    decreases |records|
  {
    if records != [] {
      var n := |records| - 1;
      ChildrenMeaning(records[..n], parent, r);
      assert records == records[..n] + [records[n]];
    }
  }
}
