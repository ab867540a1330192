/**
 What the preview transforms produce (libs/pipeline-expression/preview.go), row by row and cell by cell: which rows of
 the inputs a result row comes from, in which order the rows stand and that none is missing.
 */
module PreviewMeaning {
  import opened Common
  import opened PipelineNode
  import opened Preview
  import opened IdOrder
  import opened PreviewNode
  import TopologicalChain
  import Ascii

  // ---------------------------------------------------------------------------------------------
  // Join
  // ---------------------------------------------------------------------------------------------

  /** Two rows have the same value, or none, in every join column. */
  ghost predicate Agree(l: Row, r: Row, on: seq<string>) {
    forall k :: k in on ==> (k in l <==> k in r) && (k in l ==> l[k] == r[k])
  }

  /** All columns of both rows, those of the left row with its own values. */
  ghost predicate Glued(l: Row, r: Row, out: Row) {
    && (forall k :: k in out <==> k in l || k in r)
    && (forall k :: k in l ==> out[k] == l[k])
    && (forall k :: k in r && k !in l ==> out[k] == r[k])
  }

  ghost predicate PlainRows(rows: seq<Row>) {
    forall i :: 0 <= i < |rows| ==> PlainRow(rows[i])
  }

  /** Where a result row comes from: a left row, and a right row or, for an unmatched left row, -1. */
  datatype Source = Source(i: int, j: int)

  predicate Before(a: Source, b: Source) {
    a.i < b.i || (a.i == b.i && a.j < b.j)
  }

  ghost predicate Ordered(sources: seq<Source>) {
    forall m, n :: 0 <= m < n < |sources| ==> Before(sources[m], sources[n])
  }

  /** The pair is a match, or the row is kept although nothing matches it. */
  ghost predicate Belongs(left: seq<Row>, right: seq<Row>, on: seq<string>, outer: bool, s: Source) {
    && 0 <= s.i < |left| && -1 <= s.j < |right|
    && if s.j >= 0 then Agree(left[s.i], right[s.j], on)
       else outer && forall j :: 0 <= j < |right| ==> !Agree(left[s.i], right[j], on)
  }

  ghost predicate RowFrom(left: seq<Row>, right: seq<Row>, s: Source, out: Row)
    requires 0 <= s.i < |left| && -1 <= s.j < |right|
  {
    if s.j >= 0 then Glued(left[s.i], right[s.j], out) else out == left[s.i]
  }

  /** The sources of all rows, in order and complete. */
  ghost predicate Explains(left: seq<Row>, right: seq<Row>, on: seq<string>, outer: bool, out: seq<Row>,
                           sources: seq<Source>) {
    && |sources| == |out| && Ordered(sources)
    && (forall n :: 0 <= n < |out| ==>
          Belongs(left, right, on, outer, sources[n]) && RowFrom(left, right, sources[n], out[n]))
    && (forall s :: Belongs(left, right, on, outer, s) ==> s in sources)
  }

  lemma MergeIsGlued(l: Row, r: Row)
    ensures Glued(l, r, Merge(l, r))
  {
  }

  /** `at` lists the positions of the rows with a key, in order. */
  ghost predicate Positions(right: seq<Row>, on: seq<string>, key: string, at: seq<nat>, found: seq<Row>) {
    && |at| == |found|
    && (forall n :: 0 <= n < |at| ==>
          at[n] < |right| && found[n] == right[at[n]] && JoinKey(right[at[n]], on) == key)
    && (forall m, n :: 0 <= m < n < |at| ==> at[m] < at[n])
    && (forall j :: 0 <= j < |right| && JoinKey(right[j], on) == key ==> j in at)
  }

  lemma {:induction false} KeyPositions(right: seq<Row>, on: seq<string>, key: string) returns (at: seq<nat>)
    ensures Positions(right, on, key, at, WithKey(right, on, key))
    decreases |right|
  {
    hide JoinKey;
    if right == [] {
      at := [];
    } else {
      var n := |right| - 1;
      at := KeyPositions(right[..n], on, key);
      var found := WithKey(right[..n], on, key);
      hide WithKey;
      if JoinKey(right[n], on) == key {
        OneMorePosition(right, on, key, at, found);
        at := at + [n];
        KeyFound(right, on, key);
      } else {
        NoMorePosition(right, on, key, at, found);
        KeyFound(right, on, key);
      }
    }
  }

  lemma KeyFound(right: seq<Row>, on: seq<string>, key: string)
    requires right != []
    ensures WithKey(right, on, key) == WithKey(right[..|right| - 1], on, key) +
      (if JoinKey(right[|right| - 1], on) == key then [right[|right| - 1]] else [])
  {
    hide JoinKey;
  }

  lemma OneMorePosition(right: seq<Row>, on: seq<string>, key: string, at: seq<nat>, found: seq<Row>)
    requires right != [] && Positions(right[..|right| - 1], on, key, at, found)
    requires JoinKey(right[|right| - 1], on) == key
    ensures Positions(right, on, key, at + [|right| - 1], found + [right[|right| - 1]])
  {
    hide JoinKey;
    var n := |right| - 1;
    forall j | 0 <= j < |right| && JoinKey(right[j], on) == key
      ensures j in at + [n]
    {
      assert j < n ==> right[..n][j] == right[j];
    }
  }

  lemma NoMorePosition(right: seq<Row>, on: seq<string>, key: string, at: seq<nat>, found: seq<Row>)
    requires right != [] && Positions(right[..|right| - 1], on, key, at, found)
    requires JoinKey(right[|right| - 1], on) != key
    ensures Positions(right, on, key, at, found + [])
  {
    hide JoinKey;
    var n := |right| - 1;
    assert found + [] == found;
    forall j | 0 <= j < |right| && JoinKey(right[j], on) == key
      ensures j in at
    {
      assert right[..n][j] == right[j];
    }
  }

  /** What one left row contributes, with where it comes from. */
  lemma RowSources(l: Row, i: nat, right: seq<Row>, on: seq<string>, outer: bool) returns (sources: seq<Source>)
    requires PlainRow(l) && PlainRows(right)
    ensures
      var out := JoinRow(l, right, on, outer);
      && |sources| == |out| && Ordered(sources)
      && (forall n :: 0 <= n < |out| ==>
            && sources[n].i == i && -1 <= sources[n].j < |right|
            && (sources[n].j >= 0 ==> Agree(l, right[sources[n].j], on) && Glued(l, right[sources[n].j], out[n]))
            && (sources[n].j < 0 ==> outer && out[n] == l && Unmatched(l, right, on)))
      && (forall j :: 0 <= j < |right| && Agree(l, right[j], on) ==> Source(i, j) in sources)
      && (outer && Unmatched(l, right, on) ==> Source(i, -1) in sources)
  {
    hide JoinKey, PlainRow, WithKey, Merge, Agree, Glued;
    var key := JoinKey(l, on);
    var at := KeyPositions(right, on, key);
    var matches := WithKey(right, on, key);
    forall j | 0 <= j < |right|
      ensures JoinKey(right[j], on) == key <==> Agree(l, right[j], on)
    {
      KeysAgree(l, right[j], on);
    }
    if matches == [] {
      sources := if outer then [Source(i, -1)] else [];
    } else {
      sources := seq(|at|, n requires 0 <= n < |at| => Source(i, at[n]));
      forall n | 0 <= n < |at|
        ensures Glued(l, right[at[n]], Merge(l, matches[n]))
      {
        MergeIsGlued(l, right[at[n]]);
      }
      forall j | 0 <= j < |right| && Agree(l, right[j], on)
        ensures Source(i, j) in sources
      {
        var n :| 0 <= n < |at| && at[n] == j;
        assert sources[n] == Source(i, j);
      }
      assert Agree(l, right[at[0]], on);
    }
  }

  ghost predicate Unmatched(l: Row, right: seq<Row>, on: seq<string>) {
    forall j :: 0 <= j < |right| ==> !Agree(l, right[j], on)
  }

  lemma KeysAgree(l: Row, r: Row, on: seq<string>)
    requires PlainRow(l) && PlainRow(r)
    ensures JoinKey(r, on) == JoinKey(l, on) <==> Agree(l, r, on)
  {
    JoinKeyIsFaithful(l, r, on);
  }

  /** Every join has sources: each result row glues a matching pair, or is a left row without a match; the rows stand
      in the order of the left rows and, for each of them, of the right rows; and no pair and no such row is missing. */
  lemma {:induction false} JoinIsExplained(left: seq<Row>, right: seq<Row>, on: seq<string>, outer: bool)
    returns (sources: seq<Source>)
    requires PlainRows(left) && PlainRows(right)
    ensures Explains(left, right, on, outer, NestedLoopJoin(left, right, on, outer), sources)
    decreases |left|
  {
    hide JoinRow, PlainRow, Agree, Glued;
    var f := row => JoinRow(row, right, on, outer);
    if left == [] {
      sources := [];
    } else {
      var n := |left| - 1;
      var front := JoinIsExplained(left[..n], right, on, outer);
      var last := RowSources(left[n], n, right, on, outer);
      sources := front + last;
      JoinGrows(left, right, on, outer);
      var out, more := NestedLoopJoin(left[..n], right, on, outer), JoinRow(left[n], right, on, outer);
      OneMoreRow(left, right, on, outer, out, front, more, last);
    }
  }

  lemma JoinGrows(left: seq<Row>, right: seq<Row>, on: seq<string>, outer: bool)
    requires left != []
    ensures NestedLoopJoin(left, right, on, outer) ==
      NestedLoopJoin(left[..|left| - 1], right, on, outer) + JoinRow(left[|left| - 1], right, on, outer)
  {
    hide JoinRow;
  }

  lemma OneMoreRow(left: seq<Row>, right: seq<Row>, on: seq<string>, outer: bool, out: seq<Row>, front: seq<Source>,
                   more: seq<Row>, last: seq<Source>)
    requires left != [] && Explains(left[..|left| - 1], right, on, outer, out, front)
    requires |last| == |more| && Ordered(last)
    requires
      var n, l := |left| - 1, left[|left| - 1];
      && (forall m :: 0 <= m < |more| ==>
            && last[m].i == n && -1 <= last[m].j < |right|
            && (last[m].j >= 0 ==> Agree(l, right[last[m].j], on) && Glued(l, right[last[m].j], more[m]))
            && (last[m].j < 0 ==> outer && more[m] == l && Unmatched(l, right, on)))
      && (forall j :: 0 <= j < |right| && Agree(l, right[j], on) ==> Source(n, j) in last)
      && (outer && Unmatched(l, right, on) ==> Source(n, -1) in last)
    ensures Explains(left, right, on, outer, out + more, front + last)
  {
    hide Agree, Glued;
    var n, all, rows := |left| - 1, front + last, out + more;
    forall m | 0 <= m < |rows|
      ensures Belongs(left, right, on, outer, all[m]) && RowFrom(left, right, all[m], rows[m])
    {
      if m < |out| {
        assert Belongs(left[..n], right, on, outer, front[m]) && RowFrom(left[..n], right, front[m], out[m]);
        assert left[..n][front[m].i] == left[front[m].i];
      } else {
        assert last[m - |out|].i == n;
      }
    }
    forall s | Belongs(left, right, on, outer, s)
      ensures s in all
    {
      if s.i < n {
        assert left[..n][s.i] == left[s.i];
        assert Belongs(left[..n], right, on, outer, s);
      } else if s.j >= 0 {
        assert Source(n, s.j) in last && s == Source(n, s.j);
      } else {
        assert s == Source(n, -1);
      }
    }
    forall a, b | 0 <= a < b < |all|
      ensures Before(all[a], all[b])
    {
      if a < |front| <= b {
        assert Belongs(left[..n], right, on, outer, front[a]);
      }
    }
  }

  // ---------------------------------------------------------------------------------------------
  // Filter, column transforms and union
  // ---------------------------------------------------------------------------------------------

  /** `at` lists, in order, the positions of all rows the predicate is true on; the result holds those rows. */
  ghost predicate Selects(e: Engine, pred: string, rows: seq<Row>, at: seq<nat>, out: seq<Row>) {
    && |at| == |out|
    && (forall n :: 0 <= n < |at| ==>
          at[n] < |rows| && out[n] == rows[at[n]] && e.keeps(pred, rows[at[n]]) == Some(true))
    && (forall m, n :: 0 <= m < n < |at| ==> at[m] < at[n])
    && (forall j :: 0 <= j < |rows| && e.keeps(pred, rows[j]) == Some(true) ==> j in at)
  }

  lemma {:induction false} KeptSelects(e: Engine, pred: string, rows: seq<Row>) returns (at: seq<nat>)
    requires Kept(e, pred, rows).Some?
    ensures Selects(e, pred, rows, at, Kept(e, pred, rows).value)
    decreases |rows|
  {
    if rows == [] {
      at := [];
    } else {
      var n := |rows| - 1;
      at := KeptSelects(e, pred, rows[..n]);
      var out := Kept(e, pred, rows[..n]).value;
      OneMoreVerdict(e, pred, rows, at, out);
      if e.keeps(pred, rows[n]).value {
        at := at + [n];
      }
    }
  }

  lemma OneMoreVerdict(e: Engine, pred: string, rows: seq<Row>, at: seq<nat>, out: seq<Row>)
    requires rows != [] && Selects(e, pred, rows[..|rows| - 1], at, out)
    ensures var n := |rows| - 1;
      if e.keeps(pred, rows[n]) == Some(true) then Selects(e, pred, rows, at + [n], out + [rows[n]])
      else Selects(e, pred, rows, at, out)
  {
    var n := |rows| - 1;
    var more := if e.keeps(pred, rows[n]) == Some(true) then at + [n] else at;
    forall j | 0 <= j < |rows| && e.keeps(pred, rows[j]) == Some(true)
      ensures j in more
    {
      assert j < n ==> rows[..n][j] == rows[j];
    }
  }

  ghost predicate Distinct(columns: seq<string>) {
    forall i, j :: 0 <= i < j < |columns| ==> columns[i] != columns[j]
  }

  /** The listed columns a row has are converted, each from its own value; nothing else changes. */
  lemma {:induction false} ConvertedMeaning(e: Engine, kind: string, target: string, columns: seq<string>, row: Row)
    requires Distinct(columns) && Converted(e, kind, target, columns, row).Some?
    ensures
      var out := Converted(e, kind, target, columns, row).value;
      && out.Keys == row.Keys
      && forall c :: c in row ==>
           if c in columns then e.convert(kind, target, row[c]) == Some(out[c]) else out[c] == row[c]
    decreases |columns|
  {
    if columns != [] {
      var n := |columns| - 1;
      assert columns == columns[..n] + [columns[n]];
      ConvertedMeaning(e, kind, target, columns[..n], row);
      assert columns[n] !in columns[..n];
    }
  }

  lemma {:induction false} ConvertedAllMeaning(
    e: Engine, kind: string, target: string, columns: seq<string>, rows: seq<Row>, i: nat)
    requires ConvertedAll(e, kind, target, columns, rows).Some? && i < |rows|
    ensures Converted(e, kind, target, columns, rows[i]) == Some(ConvertedAll(e, kind, target, columns, rows).value[i])
    decreases |rows|
  {
    var n := |rows| - 1;
    if i < n {
      ConvertedAllMeaning(e, kind, target, columns, rows[..n], i);
    }
  }

  /** The number of rows of the first k tables. */
  function Offset(tables: seq<seq<Row>>, k: nat): nat
    requires k <= |tables|
  {
    if k == 0 then 0 else Offset(tables, k - 1) + |tables[k - 1]|
  }

  lemma {:induction false} ConcatLength(tables: seq<seq<Row>>, k: nat)
    requires k <= |tables|
    ensures |Concat(tables[..k])| == Offset(tables, k)
    decreases k
  {
    if k > 0 {
      ConcatLength(tables, k - 1);
      ConcatGrows(tables, k - 1);
      hide Concat;
    }
  }

  /** A union holds every row of every table, one table after the other. */
  lemma {:induction false} ConcatMeaning(tables: seq<seq<Row>>, k: nat, i: nat, j: nat)
    requires i < k <= |tables| && j < |tables[i]|
    ensures |Concat(tables[..k])| == Offset(tables, k)
    ensures Offset(tables, i) + j < Offset(tables, k) && Concat(tables[..k])[Offset(tables, i) + j] == tables[i][j]
    decreases k
  {
    ConcatLength(tables, k);
    ConcatLength(tables, k - 1);
    ConcatGrows(tables, k - 1);
    hide Concat;
    if i < k - 1 {
      ConcatMeaning(tables, k - 1, i, j);
    }
  }

  lemma ConcatGrows(tables: seq<seq<Row>>, k: nat)
    requires k < |tables|
    ensures Concat(tables[..k + 1]) == Concat(tables[..k]) + tables[k]
  {
    var f := (t: seq<Row>) => t;
    FlatMapAt(tables, f, k);
    assert Concat(tables[..k + 1]) == FlatMap(tables[..k + 1], f);
    assert Concat(tables[..k]) == FlatMap(tables[..k], f);
  }

  // ---------------------------------------------------------------------------------------------
  // The kinds of nodes
  // ---------------------------------------------------------------------------------------------

  /** As many of the rows as the cap allows, from the front. */
  ghost predicate FirstOf(r: Table, rows: seq<Row>, cap: nat) {
    r.Ok? && r.value <= rows && |r.value| == if |rows| < cap then |rows| else cap
  }

  predicate ConvertsColumns(kind: string) {
    kind in ["cast", "title_case", "clean_string"]
  }

  /** What each kind of node makes of the tables it depends on; a kind is read in any case, and an unknown one passes
      its first table on. */
  lemma TransformMeaning(e: Engine, node: Node, upstream: seq<seq<Row>>, cap: nat)
    requires upstream != []
    ensures
      var kind, c, r := Ascii.Lower(node.kind), node.config, TransformSpec(e, node, upstream, cap);
      var some := upstream[0][..Min(|upstream[0]|, cap)];
      var bad := Err(Failed(Transform(node.id)));
      && (kind == "union" ==> FirstOf(r, Concat(upstream), cap))
      && (kind == "join" && (|upstream| < 2 || c.on == []) ==> r == bad)
      && (kind == "join" && |upstream| >= 2 && c.on != [] ==>
            FirstOf(r, NestedLoopJoin(upstream[0], upstream[1], c.on, Ascii.Lower(c.how) == "left"), cap))
      && (kind == "filter" ==>
            if c.predicate_ == "" || !e.parses(c.predicate_) || Kept(e, c.predicate_, some).None? then r == bad
            else r == Ok(Kept(e, c.predicate_, some).value))
      && (ConvertsColumns(kind) ==>
            var target := if c.castTarget == "" then "STRING" else c.castTarget;
            if ConvertedAll(e, kind, target, c.columns, some).None? then r == bad
            else r == Ok(ConvertedAll(e, kind, target, c.columns, some).value))
      && (!ConvertsColumns(kind) && kind !in ["union", "join", "filter"] ==> FirstOf(r, upstream[0], cap))
  {
    hide Kept, ConvertedAll, Concat, NestedLoopJoin;
    assert Take(upstream[0], cap) == upstream[0][..Min(|upstream[0]|, cap)];
  }

  /** The sample size: 50 000 unless fewer rows are asked for. */
  lemma SampleSize(n: int)
    ensures Capped(None) == 50_000 && Capped(Some(n)) == if n < 50_000 then n else 50_000
  {
  }

  // ---------------------------------------------------------------------------------------------
  // The whole graph
  // ---------------------------------------------------------------------------------------------

  /** An assignment of tables to ids that satisfies every node: a source holds its loaded rows, any other node the
      transform of the tables of its dependencies, in their order. */
  ghost predicate Solves(e: Engine, nodes: seq<Node>, cap: int, tables: map<Id, seq<Row>>) {
    forall id :: id in tables ==>
      && Find(nodes, id).Some?
      && var node := Find(nodes, id).value;
         if node.dependsOn == [] then e.load(node, cap) == Some(tables[id])
         else
           && (forall i :: 0 <= i < |node.dependsOn| ==> node.dependsOn[i] in tables)
           && TransformSpec(e, node, InOrder(tables, node.dependsOn), cap) == Ok(tables[id])
  }

  function InOrder(tables: map<Id, seq<Row>>, ids: seq<Id>): seq<seq<Row>>
    requires forall i :: 0 <= i < |ids| ==> ids[i] in tables
  {
    seq(|ids|, i requires 0 <= i < |ids| => tables[ids[i]])
  }

  /** Whatever assignment satisfies the nodes, it gives the target the table that PreviewRows computes: the answer is
      determined by the equations, not by the order of evaluation. */
  lemma {:induction false} SolutionIsUnique(
    e: Engine, nodes: seq<Node>, cap: int, tables: map<Id, seq<Row>>, allowed: set<Id>, id: Id)
    requires Solves(e, nodes, cap, tables) && id in tables && TableOf(e, nodes, cap, allowed, id).Ok?
    ensures TableOf(e, nodes, cap, allowed, id) == Ok(tables[id])
    decreases allowed, 1, 0
  {
    hide TransformSpec;
    var node := Find(nodes, id).value;
    if node.dependsOn != [] {
      InputsAreUnique(e, nodes, cap, tables, allowed - {id}, node.dependsOn);
    }
  }

  lemma {:induction false} InputsAreUnique(
    e: Engine, nodes: seq<Node>, cap: int, tables: map<Id, seq<Row>>, allowed: set<Id>, ids: seq<Id>)
    requires Solves(e, nodes, cap, tables) && forall i :: 0 <= i < |ids| ==> ids[i] in tables
    requires TablesOf(e, nodes, cap, allowed, ids).Ok?
    ensures TablesOf(e, nodes, cap, allowed, ids) == Ok(InOrder(tables, ids))
    decreases allowed, 2, |ids|
  {
    hide TableOf, Solves;
    if ids != [] {
      var n := |ids| - 1;
      InputsAreUnique(e, nodes, cap, tables, allowed, ids[..n]);
      SolutionIsUnique(e, nodes, cap, tables, allowed, ids[n]);
      assert InOrder(tables, ids[..n]) + [tables[ids[n]]] == InOrder(tables, ids);
    }
  }

  /** Read at the entry point: any solution that has the target agrees with a successful preview. */
  lemma PreviewIsTheSolution(
    e: Engine, nodes: seq<Node>, cap: int, tables: map<Id, seq<Row>>, allowed: set<Id>, target: Id, r: Table)
    requires Solves(e, nodes, cap, tables) && target in tables && r.Ok?
    requires Agrees(e, nodes, cap, target, r) && Covers(TopologicalChain.GraphOf(nodes), target, allowed)
    ensures r == Ok(tables[target])
  {
    hide Solves, Covers, TableOf;
    SolutionIsUnique(e, nodes, cap, tables, allowed, target);
  }
}
