/** The read-model store as the source writes it: methods that update the two tables statement by statement
    (libs/cassandra-kernel/read_model_store.go:94-226). */
module ReadModelStore {
  import opened Common
  import opened GoInt
  import opened IdOrder
  import opened ReadModel

  datatype DeleteOutcome = Deleted | Missing | DeleteError

  class Store {
    var main: map<Key, MainRow>
    var byParent: map<ParentKey, Cells>

    ghost function View(): Tables
      reads this
    {
      Tables(main, byParent)
    }

    ghost predicate Valid()
      reads this
    {
      Indexed(View())
    }

    constructor ()
      ensures View() == EMPTY && Valid()
    {
      main, byParent := map[], map[];
    }

    method Get(key: Key) returns (r: Option<Record>)
      ensures r == Lookup(View(), key)
    {
      if key !in main {
        return None;
      }
      return Some(ReadBack(key, main[key].parent, main[key].cells));
    }

    /** Put: `works` says which statements succeed.  Without an error the tables and the answer are those of
        the specification; an error leaves the statements before it. */
    method Put(r: Record, now: Uint64, works: nat -> bool) returns (out: PutOutcome, ghost done: nat)
      modifies this
      ensures !out.PutError? ==> (View(), out) == ReadModel.Put(old(View()), r, now) && (old(Valid()) ==> Valid())
      ensures out.PutError? ==> done < 3 && View() == PutSteps(old(View()), r, now, done)
    {
      ghost var start := View();
      done := 0;
      var version := if r.version == 0 then now else r.version;
      if !works(0) {
        return PutError, done;
      }
      var existing := Get(r.key);
      if existing.Some? && existing.value.version >= version {
        return VersionConflict(version, existing.value.version), done;
      }
      assert Accepts(start, r, now);
      ghost var indexed := Indexed(start);
      if indexed {
        PutKeepsIndex(start, r, now);
      }
      hide Indexed;
      var cells := CellsOf(r, now);
      if !works(1) {
        return PutError, done;
      }
      main := main[r.key := MainRow(r.parent, cells)];
      done := 1;
      if existing.Some? && existing.value.parent.Some?
        && (r.parent.None? || r.parent.value != existing.value.parent.value) {
        if !works(2) {
          return PutError, done;
        }
        byParent := byParent - {ParentKeyOf(r.key, existing.value.parent.value)};
      }
      done := 2;
      if r.parent.Some? {
        if !works(3) {
          return PutError, done;
        }
        byParent := byParent[ParentKeyOf(r.key, r.parent.value) := cells];
      }
      done := 3;
      if existing.None? {
        return Inserted, done;
      }
      return Updated(existing.value.version, version), done;
    }

    /** Delete, likewise. */
    method Delete(key: Key, works: nat -> bool) returns (out: DeleteOutcome, ghost done: nat)
      modifies this
      ensures !out.DeleteError? ==>
        && View() == ReadModel.Delete(old(View()), key) && (out.Deleted? <==> key in old(main))
        && (old(Valid()) ==> Valid())
      ensures out.DeleteError? ==> done < 2 && View() == DeleteSteps(old(View()), key, done)
    {
      ghost var start := View();
      done := 0;
      ghost var indexed := Indexed(start);
      if indexed {
        DeleteKeepsIndex(start, key);
      }
      hide Indexed;
      if !works(0) {
        return DeleteError, done;
      }
      var existing := Get(key);
      if existing.None? {
        return Missing, done;
      }
      if !works(1) {
        return DeleteError, done;
      }
      main := main - {key};
      done := 1;
      if existing.value.parent.Some? {
        if !works(2) {
          return DeleteError, done;
        }
        byParent := byParent - {ParentKeyOf(key, existing.value.parent.value)};
      }
      done := 2;
      return Deleted, done;
    }

    /** List: by kind from the main table, by parent from the index; both in id order. */
    method List(scope: Scope, parent: Option<Id>) returns (items: seq<Record>)
      ensures items == if parent.Some? then ListUnder(View(), scope, parent.value) else ListAll(View(), scope)
      ensures Valid() && parent.Some? && parent.value != "" ==> items == Children(ListAll(View(), scope), parent.value)
    {
      if parent.Some? {
        items := ListByParent(scope, parent.value);
        if Valid() && parent.value != "" {
          ListUnderIsFilter(View(), scope, parent.value);
        }
      } else {
        items := ListByKind(scope);
      }
    }

    method ListByKind(scope: Scope) returns (items: seq<Record>)
      ensures items == ListAll(View(), scope)
    {
      hide StrictlySorted, ReadBack, IdsIn;
      var ids := InOrder(IdsIn(Tables(main, byParent), scope));
      ListedIds(View(), scope, "");
      assert forall i :: 0 <= i < |ids| ==> Key(scope, ids[i]) in main by {
        assert forall i :: 0 <= i < |ids| ==> ids[i] in ids;
      }
      items := [];
      for i := 0 to |ids|
        invariant items == MainRecords(View(), scope, ids[..i])
      {
        assert ids[..i + 1][..i] == ids[..i];
        var key := Key(scope, ids[i]);
        items := items + [ReadBack(key, main[key].parent, main[key].cells)];
      }
      assert ids[..|ids|] == ids;
    }

    method ListByParent(scope: Scope, parent: Id) returns (items: seq<Record>)
      ensures items == ListUnder(View(), scope, parent)
    {
      hide StrictlySorted, ReadBack, IdsUnder;
      var ids := InOrder(IdsUnder(Tables(main, byParent), scope, parent));
      ListedIds(View(), scope, parent);
      assert forall i :: 0 <= i < |ids| ==> ParentKey(scope, parent, ids[i]) in byParent by {
        assert forall i :: 0 <= i < |ids| ==> ids[i] in ids;
      }
      items := [];
      for i := 0 to |ids|
        invariant items == ParentRecords(View(), scope, parent, ids[..i])
      {
        assert ids[..i + 1][..i] == ids[..i];
        items := items + [ReadBack(Key(scope, ids[i]), Some(parent), byParent[ParentKey(scope, parent, ids[i])])];
      }
      assert ids[..|ids|] == ids;
    }
  }

  /** The rows of a partition come back in clustering order. */
  method InOrder(ids: set<Id>) returns (s: seq<Id>)
    ensures s == Listing(ids)
  {
    s := [];
    var todo := ids;
    while todo != {}
      invariant todo <= ids && StrictlySorted(s) && Elements(s) == ids - todo
      decreases |todo|
    {
      var id :| id in todo;
      assert id !in Elements(s);
      InsertSorts(id, s);
      s := Insert(id, s);
      todo := todo - {id};
    }
    SortedIsUnique(s, Listing(ids));
  }
}
