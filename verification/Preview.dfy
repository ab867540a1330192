/**
 The preview engine's transforms (libs/pipeline-expression/preview.go): hash join, filter, column
 transforms, union and truncation, each proved equal to a plain definition of its result.
 */
module Preview {
  import opened Common
  import opened PipelineNode
  import Ascii

  /** A row maps column names to raw JSON values. */
  type Row = map<string, string>

  /** An error the engine returns, or the panic of Go's make on a negative length. */
  datatype Failure = Failed(error: PreviewError) | Panicked

  type Table = Result<seq<Row>, Failure>

  /** What the engine calls but this model leaves open: the seed loader, the predicate language and the
      conversion of one cell.  None stands for an error. */
  datatype Engine = Engine(
    load: (Node, int) -> Option<seq<Row>>,
    parses: string -> bool,
    keeps: (string, Row) -> Option<bool>,
    convert: (string, string, string) -> Option<string>)

  /** At most cap rows; none when cap is negative. */
  function Take<T>(s: seq<T>, cap: int): (r: seq<T>)
    ensures r <= s && (cap >= 0 ==> |r| <= cap)
  {
    if cap <= 0 then [] else s[..Min(|s|, cap)]
  }

  // ---------------------------------------------------------------------------------------------
  // Join
  // ---------------------------------------------------------------------------------------------

  const SEPARATOR: char := '\U{1f}'
  const MISSING := "<null>"

  function Cell(row: Row, key: string): string {
    if key in row then row[key] else MISSING
  }

  function JoinKey(row: Row, on: seq<string>): string {
    if on == [] then ""
    else if |on| == 1 then Cell(row, on[0])
    else Cell(row, on[0]) + [SEPARATOR] + JoinKey(row, on[1..])
  }

  /** The left row wins on columns both rows have. */
  function Merge(left: Row, right: Row): Row {
    right + left
  }

  function WithKey(right: seq<Row>, on: seq<string>, key: string): seq<Row> {
    if right == [] then [] else
    WithKey(right[..|right| - 1], on, key) +
    (if JoinKey(right[|right| - 1], on) == key then [right[|right| - 1]] else [])
  }

  function MergeAll(left: Row, matches: seq<Row>): (r: seq<Row>)
    ensures |r| == |matches| && forall i :: 0 <= i < |r| ==> r[i] == Merge(left, matches[i])
  {
    if matches == [] then [] else MergeAll(left, matches[..|matches| - 1]) + [Merge(left, matches[|matches| - 1])]
  }

  /** What one left row contributes. */
  function JoinRow(left: Row, right: seq<Row>, on: seq<string>, outer: bool): seq<Row> {
    var matches := WithKey(right, on, JoinKey(left, on));
    if matches == [] && outer then [left] else MergeAll(left, matches)
  }

  /** The nested-loop join on equal join keys. */
  function NestedLoopJoin(left: seq<Row>, right: seq<Row>, on: seq<string>, outer: bool): seq<Row> {
    FlatMap(left, row => JoinRow(row, right, on, outer))
  }

  function FlatMap<A, B>(s: seq<A>, f: A -> seq<B>): seq<B> {
    if s == [] then [] else FlatMap(s[..|s| - 1], f) + f(s[|s| - 1])
  }

  lemma {:induction false} FlatMapConcat<A, B>(s: seq<A>, t: seq<A>, f: A -> seq<B>)
    ensures FlatMap(s + t, f) == FlatMap(s, f) + FlatMap(t, f)
    decreases |t|
  {
    if t == [] {
      assert s + t == s;
    } else {
      var n := |t| - 1;
      assert (s + t)[..|s + t| - 1] == s + t[..n];
      FlatMapConcat(s, t[..n], f);
    }
  }

  /** What comes before, at and after position i. */
  lemma FlatMapAt<A, B>(s: seq<A>, f: A -> seq<B>, i: nat)
    requires i < |s|
    ensures FlatMap(s[..i + 1], f) == FlatMap(s[..i], f) + f(s[i])
    ensures FlatMap(s, f) == FlatMap(s[..i], f) + f(s[i]) + FlatMap(s[i + 1..], f)
  {
    assert s[..i + 1][..i] == s[..i];
    assert s == s[..i + 1] + s[i + 1..];
    FlatMapConcat(s[..i + 1], s[i + 1..], f);
  }

  /** No stored JSON value contains a raw control character, and "<null>" is not JSON. */
  predicate PlainRow(row: Row) {
    forall k :: k in row ==> SEPARATOR !in row[k] && row[k] != MISSING
  }

  lemma SeparatorInside(a: string, b: string, x: string, y: string)
    requires |a| < |b| && a + [SEPARATOR] + x == b + [SEPARATOR] + y
    ensures SEPARATOR in b
  {
    assert (a + [SEPARATOR] + x)[|a|] == SEPARATOR && (b + [SEPARATOR] + y)[|a|] == b[|a|];
  }

  lemma SplitAtSeparator(a: string, b: string, x: string, y: string)
    requires SEPARATOR !in a && SEPARATOR !in b && a + [SEPARATOR] + x == b + [SEPARATOR] + y
    ensures a == b && x == y
  {
    var s, t := a + [SEPARATOR] + x, b + [SEPARATOR] + y;
    assert |a| == |b| by {
      if |a| < |b| {
        SeparatorInside(a, b, x, y);
      } else if |b| < |a| {
        SeparatorInside(b, a, y, x);
      }
    }
    assert s[..|a|] == a && t[..|b|] == b;
    assert s[|a| + 1..] == x && t[|b| + 1..] == y;
  }

  /** Equal join keys mean equal values in every join column: the separator cannot be confused. */
  lemma {:induction false} JoinKeyIsFaithful(r: Row, s: Row, on: seq<string>)
    requires PlainRow(r) && PlainRow(s)
    ensures JoinKey(r, on) == JoinKey(s, on) <==>
      forall k :: k in on ==> (k in r <==> k in s) && (k in r ==> r[k] == s[k])
    decreases |on|
  {
    if on == [] {
    } else if |on| == 1 {
      assert on == [on[0]];
    } else {
      JoinKeyIsFaithful(r, s, on[1..]);
      assert on == [on[0]] + on[1..];
      if JoinKey(r, on) == JoinKey(s, on) {
        SplitAtSeparator(Cell(r, on[0]), Cell(s, on[0]), JoinKey(r, on[1..]), JoinKey(s, on[1..]));
      }
    }
  }

  type Index = map<string, seq<Row>>

  ghost predicate IndexOf(index: Index, right: seq<Row>, on: seq<string>) {
    forall key {:trigger WithKey(right, on, key)} ::
      WithKey(right, on, key) == if key in index then index[key] else []
  }

  method BuildIndex(right: seq<Row>, on: seq<string>) returns (index: Index)
    ensures IndexOf(index, right, on) && forall key :: key in index ==> index[key] != []
  {
    index := map[];
    for i := 0 to |right|
      invariant forall key :: key in index ==> index[key] != []
      invariant IndexOf(index, right[..i], on)
    {
      var row := right[i];
      var key := JoinKey(row, on);
      assert right[..i + 1][..i] == right[..i];
      ghost var before := index;
      index := index[key := (if key in index then index[key] else []) + [row]];
      forall k
        ensures WithKey(right[..i + 1], on, k) == if k in index then index[k] else []
      {
        assert WithKey(right[..i], on, k) == if k in before then before[k] else [];
      }
    }
    assert right[..|right|] == right;
  }

  /** cloneRow of the left row, then each right column the left row lacks, in any order. */
  method MergeRow(left: Row, right: Row) returns (merged: Row)
    ensures merged == Merge(left, right)
  {
    merged := left;
    var todo := right.Keys;
    while todo != {}
      invariant todo <= right.Keys
      invariant merged.Keys == left.Keys + (right.Keys - todo)
      invariant forall k :: k in merged ==> merged[k] == if k in left then left[k] else right[k]
      decreases todo
    {
      var k :| k in todo;
      if k !in merged {
        merged := merged[k := right[k]];
      }
      todo := todo - {k};
    }
  }

  lemma TakeAppend<T>(s: seq<T>, t: seq<T>, cap: int)
    ensures |s| >= cap ==> Take(s + t, cap) == Take(s, cap)
    ensures |s| < cap ==> Take(s + t, cap) == s + Take(t, cap - |s|)
  {
  }

  /** The rows one left row contributes, while there is room; `full` reports that the cap was hit. */
  method Probe(leftRow: Row, matches: seq<Row>, outer: bool, out: seq<Row>, cap: int)
    returns (out': seq<Row>, full: bool)
    requires out == [] || |out| <= cap
    ensures var rows := if matches == [] && outer then [leftRow] else MergeAll(leftRow, matches);
      && (full ==> exists k :: 0 <= k <= |rows| && out' == out + rows[..k] && |out'| >= cap)
      && (!full ==> out' == out + rows)
    ensures out' == [] || |out'| <= cap
  {
    out' := out;
    ghost var rows := if matches == [] && outer then [leftRow] else MergeAll(leftRow, matches);
    if matches != [] {
      for j := 0 to |matches|
        invariant out' == out + rows[..j]
        invariant out' == [] || |out'| <= cap
      {
        if |out'| >= cap {
          return out', true;
        }
        var merged := MergeRow(leftRow, matches[j]);
        assert rows[..j + 1] == rows[..j] + [merged];
        out' := out' + [merged];
      }
      assert rows[..|matches|] == rows;
    } else if outer {
      if |out'| >= cap {
        assert out' == out + rows[..0];
        return out', true;
      }
      out' := out' + [leftRow];
    }
    return out', false;
  }

  lemma CappedPrefix(out: seq<Row>, rows: seq<Row>, k: nat, rest: seq<Row>, cap: int)
    requires k <= |rows| && |out + rows[..k]| >= cap
    requires out + rows[..k] == [] || |out + rows[..k]| <= cap
    ensures out + rows[..k] == Take(out + rows + rest, cap)
  {
    TakeAppend(out + rows[..k], rows[k..] + rest, cap);
    assert out + rows + rest == (out + rows[..k]) + (rows[k..] + rest);
  }

  /** applyJoin's loops: probing the index yields exactly the cap-length prefix of the nested-loop join. */
  method HashJoin(left: seq<Row>, right: seq<Row>, on: seq<string>, outer: bool, cap: int) returns (out: seq<Row>)
    ensures out == Take(NestedLoopJoin(left, right, on, outer), cap)
  {
    var index := BuildIndex(right, on);
    ghost var f := row => JoinRow(row, right, on, outer);
    assert NestedLoopJoin(left, right, on, outer) == FlatMap(left, f);
    out := [];
    for i := 0 to |left|
      invariant out == FlatMap(left[..i], f)
      invariant out == [] || |out| <= cap
    {
      var leftRow := left[i];
      var key := JoinKey(leftRow, on);
      ghost var before := out;
      FlatMapAt(left, f, i);
      var matches := if key in index then index[key] else [];
      assert WithKey(right, on, key) == matches;
      var full;
      out, full := Probe(leftRow, matches, outer, out, cap);
      ghost var rows := f(leftRow);
      assert rows == if matches == [] && outer then [leftRow] else MergeAll(leftRow, matches);
      if full {
        ghost var k :| 0 <= k <= |rows| && out == before + rows[..k] && |out| >= cap;
        CappedPrefix(before, rows, k, FlatMap(left[i + 1..], f), cap);
        return;
      }
    }
    assert left[..|left|] == left;
  }

  // ---------------------------------------------------------------------------------------------
  // The other transforms
  // ---------------------------------------------------------------------------------------------

  /** The rows a predicate keeps, or None when it fails on some row. */
  function Kept(e: Engine, pred: string, rows: seq<Row>): (r: Option<seq<Row>>)
    ensures r.Some? ==> |r.value| <= |rows|
    ensures r.None? <==> exists i :: 0 <= i < |rows| && e.keeps(pred, rows[i]).None?
  {
    if rows == [] then Some([]) else
    var n := |rows| - 1;
    var front := Kept(e, pred, rows[..n]);
    var verdict := e.keeps(pred, rows[n]);
    assert rows == rows[..n] + [rows[n]];
    if front.None? || verdict.None? then None
    else if verdict.value then Some(front.value + [rows[n]]) else front
  }

  function FilterSpec(e: Engine, node: Node, primary: seq<Row>, cap: int): Table {
    var pred := node.config.predicate_;
    if pred == "" || !e.parses(pred) then Err(Failed(Transform(node.id))) else
    match Kept(e, pred, Take(primary, cap))
    case None => Err(Failed(Transform(node.id)))
    case Some(rows) => Ok(rows)
  }

  /** applyFilter stops at the first row the predicate fails on. */
  method ApplyFilter(e: Engine, node: Node, primary: seq<Row>, cap: int) returns (r: Table)
    ensures r == FilterSpec(e, node, primary, cap)
  {
    var pred := node.config.predicate_;
    if pred == "" || !e.parses(pred) {
      return Err(Failed(Transform(node.id)));
    }
    var out: seq<Row> := [];
    var limit := Min(|primary|, cap);
    ghost var rows := Take(primary, cap);
    var i := 0;
    while i < limit
      invariant 0 <= i <= |rows|
      invariant i < |rows| <==> i < limit
      invariant Kept(e, pred, rows[..i]) == Some(out)
    {
      assert rows[..i + 1][..i] == rows[..i];
      var verdict := e.keeps(pred, primary[i]);
      if verdict.None? {
        assert e.keeps(pred, rows[i]).None?;
        return Err(Failed(Transform(node.id)));
      }
      if verdict.value {
        out := out + [primary[i]];
      }
      i := i + 1;
    }
    assert rows[..i] == rows;
    return Ok(out);
  }

  /** One row with the listed columns converted, left to right; absent columns are skipped. */
  function Converted(e: Engine, kind: string, target: string, columns: seq<string>, row: Row): Option<Row> {
    if columns == [] then Some(row) else
    var n := |columns| - 1;
    match Converted(e, kind, target, columns[..n], row)
    case None => None
    case Some(next) =>
      if columns[n] !in next then Some(next) else
      match e.convert(kind, target, next[columns[n]])
      case None => None
      case Some(v) => Some(next[columns[n] := v])
  }

  lemma {:induction false} ConvertedPrefixFails(
    e: Engine, kind: string, target: string, columns: seq<string>, row: Row, k: nat)
    requires k <= |columns| && Converted(e, kind, target, columns[..k], row).None?
    ensures Converted(e, kind, target, columns, row).None?
    decreases |columns|
  {
    if k == |columns| {
      assert columns[..k] == columns;
    } else {
      var n := |columns| - 1;
      assert columns[..n][..k] == columns[..k];
      ConvertedPrefixFails(e, kind, target, columns[..n], row, k);
    }
  }

  method ConvertRow(e: Engine, kind: string, target: string, columns: seq<string>, row: Row) returns (r: Option<Row>)
    ensures r == Converted(e, kind, target, columns, row)
  {
    var next := row;
    for k := 0 to |columns|
      invariant Converted(e, kind, target, columns[..k], row) == Some(next)
    {
      assert columns[..k + 1][..k] == columns[..k];
      if columns[k] in next {
        var v := e.convert(kind, target, next[columns[k]]);
        if v.None? {
          ConvertedPrefixFails(e, kind, target, columns, row, k + 1);
          return None;
        }
        next := next[columns[k] := v.value];
      }
    }
    assert columns[..|columns|] == columns;
    return Some(next);
  }

  function ConvertedAll(e: Engine, kind: string, target: string, columns: seq<string>, rows: seq<Row>)
    : (r: Option<seq<Row>>)
    ensures r.Some? ==> |r.value| == |rows|
    ensures r.None? <==> exists i :: 0 <= i < |rows| && Converted(e, kind, target, columns, rows[i]).None?
  {
    if rows == [] then Some([]) else
    var n := |rows| - 1;
    var front := ConvertedAll(e, kind, target, columns, rows[..n]);
    var last := Converted(e, kind, target, columns, rows[n]);
    assert rows == rows[..n] + [rows[n]];
    if front.None? || last.None? then None else Some(front.value + [last.value])
  }

  function CastTarget(node: Node): string {
    if node.config.castTarget == "" then "STRING" else node.config.castTarget
  }

  function ColumnsSpec(e: Engine, node: Node, primary: seq<Row>, cap: int, kind: string): Table {
    if Min(|primary|, cap) < 0 then Err(Panicked) else
    match ConvertedAll(e, kind, CastTarget(node), node.config.columns, Take(primary, cap))
    case None => Err(Failed(Transform(node.id)))
    case Some(rows) => Ok(rows)
  }

  method ApplyColumnsTransform(e: Engine, node: Node, primary: seq<Row>, cap: int, kind: string) returns (r: Table)
    ensures r == ColumnsSpec(e, node, primary, cap, kind)
  {
    var limit := Min(|primary|, cap);
    if limit < 0 {
      return Err(Panicked);
    }
    var target := CastTarget(node);
    var columns := node.config.columns;
    var out: seq<Row> := [];
    ghost var rows := Take(primary, cap);
    for i := 0 to limit
      invariant ConvertedAll(e, kind, target, columns, rows[..i]) == Some(out)
    {
      assert rows[..i + 1][..i] == rows[..i];
      var next := ConvertRow(e, kind, target, columns, primary[i]);
      if next.None? {
        assert Converted(e, kind, target, columns, rows[i]).None?;
        return Err(Failed(Transform(node.id)));
      }
      out := out + [next.value];
    }
    assert rows[..limit] == rows;
    return Ok(out);
  }

  /** takeRows; Go's make panics on a negative length. */
  function TakeRows(rows: seq<Row>, cap: int): Table {
    if Min(|rows|, cap) < 0 then Err(Panicked) else Ok(Take(rows, cap))
  }

  function Concat(tables: seq<seq<Row>>): seq<Row> {
    FlatMap(tables, t => t)
  }

  method UnionRows(tables: seq<seq<Row>>, cap: int) returns (merged: seq<Row>)
    ensures merged == Take(Concat(tables), cap)
  {
    merged := [];
    ghost var f := (t: seq<Row>) => t;
    assert Concat(tables) == FlatMap(tables, f);
    for i := 0 to |tables|
      invariant merged == FlatMap(tables[..i], f)
      invariant merged == [] || |merged| <= cap
    {
      FlatMapAt(tables, f, i);
      ghost var before := merged;
      var table := tables[i];
      for j := 0 to |table|
        invariant merged == before + table[..j]
        invariant merged == [] || |merged| <= cap
      {
        if |merged| >= cap {
          CappedPrefix(before, table, j, FlatMap(tables[i + 1..], f), cap);
          return;
        }
        assert table[..j + 1] == table[..j] + [table[j]];
        merged := merged + [table[j]];
      }
      assert table[..|table|] == table;
    }
    assert tables[..|tables|] == tables;
  }

  function IsOuter(how: string): bool {
    Ascii.Lower(how) == "left"
  }

  /** What applyTransform computes from the tables of the node's dependencies. */
  function TransformSpec(e: Engine, node: Node, upstream: seq<seq<Row>>, cap: int): Table {
    var kind := Ascii.Lower(node.kind);
    if upstream == [] then Ok([])
    else if kind == "passthrough" then TakeRows(upstream[0], cap)
    else if kind == "cast" || kind == "title_case" || kind == "clean_string" then
      ColumnsSpec(e, node, upstream[0], cap, kind)
    else if kind == "filter" then FilterSpec(e, node, upstream[0], cap)
    else if kind == "join" then
      if |upstream| < 2 || node.config.on == [] then Err(Failed(Transform(node.id)))
      else Ok(Take(NestedLoopJoin(upstream[0], upstream[1], node.config.on, IsOuter(node.config.how)), cap))
    else if kind == "union" then Ok(Take(Concat(upstream), cap))
    else TakeRows(upstream[0], cap)
  }

  /** No transform outputs more than cap rows. */
  lemma TransformsRespectCap(e: Engine, node: Node, upstream: seq<seq<Row>>, cap: int)
    requires cap >= 0 && TransformSpec(e, node, upstream, cap).Ok?
    ensures |TransformSpec(e, node, upstream, cap).value| <= cap
  {
    if upstream != [] {
      assert |Take(upstream[0], cap)| <= cap;
    }
  }

  method ApplyTransform(e: Engine, node: Node, upstream: seq<seq<Row>>, cap: int) returns (r: Table)
    ensures r == TransformSpec(e, node, upstream, cap)
  {
    var kind := Ascii.Lower(node.kind);
    if upstream == [] {
      return Ok([]);
    }
    var primary := upstream[0];
    if kind == "passthrough" {
      return TakeRows(primary, cap);
    } else if kind == "cast" || kind == "title_case" || kind == "clean_string" {
      r := ApplyColumnsTransform(e, node, primary, cap, kind);
    } else if kind == "filter" {
      r := ApplyFilter(e, node, primary, cap);
    } else if kind == "join" {
      if |upstream| < 2 || node.config.on == [] {
        return Err(Failed(Transform(node.id)));
      }
      var out := HashJoin(primary, upstream[1], node.config.on, IsOuter(node.config.how), cap);
      return Ok(out);
    } else if kind == "union" {
      var merged := UnionRows(upstream, cap);
      return Ok(merged);
    } else {
      return TakeRows(primary, cap);
    }
  }
}
