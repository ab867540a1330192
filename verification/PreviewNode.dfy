/**
 PreviewNode (libs/pipeline-expression/preview.go): evaluating the chain front to back computes the
 table that the recursive reading of the DAG defines.
 */
module PreviewNode {
  import opened Common
  import opened IdOrder
  import opened PipelineNode
  import opened Dag
  import opened TopologicalChain
  import opened Preview

  const DEFAULT_SAMPLE_SIZE := 50_000

  /** The first node with the id. */
  function Find(nodes: seq<Node>, id: Id): (r: Option<Node>)
    ensures r.Some? ==> exists i :: 0 <= i < |nodes| && nodes[i] == r.value && nodes[i].id == id
    ensures r.None? ==> forall i :: 0 <= i < |nodes| ==> nodes[i].id != id
  {
    if nodes == [] then None
    else if nodes[0].id == id then Some(nodes[0])
    else
      var r := Find(nodes[1..], id);
      assert nodes == [nodes[0]] + nodes[1..];
      r
  }

  method Lookup(nodes: seq<Node>, id: Id) returns (r: Option<Node>)
    ensures r == Find(nodes, id)
  {
    for i := 0 to |nodes|
      invariant Find(nodes, id) == Find(nodes[i..], id)
    {
      if nodes[i].id == id {
        return Some(nodes[i]);
      }
    }
    return None;
  }

  lemma FindAgreesWithGraph(nodes: seq<Node>, id: Id)
    requires UniqueIds(nodes)
    ensures Find(nodes, id).Some? <==> id in GraphOf(nodes)
    ensures Find(nodes, id).Some? ==> Find(nodes, id).value.dependsOn == Deps(GraphOf(nodes), id)
  {
    var r := Find(nodes, id);
    if r.Some? {
      var i :| 0 <= i < |nodes| && nodes[i] == r.value && nodes[i].id == id;
      UniqueIdsGraph(nodes, i);
    }
  }

  // ---------------------------------------------------------------------------------------------
  // The recursive definition
  // ---------------------------------------------------------------------------------------------

  function Loaded(e: Engine, node: Node, cap: int): Table {
    match e.load(node, cap)
    case None => Err(Failed(SeedLoader(node.id)))
    case Some(rows) => Ok(rows)
  }

  /** The table of an id: loaded for a source, otherwise its transform over the tables of its
      dependencies.  `allowed` shrinks along every path, which is what makes the recursion terminate on
      any graph; on a DAG every allowed set that covers the needed ids gives the same table. */
  function TableOf(e: Engine, nodes: seq<Node>, cap: int, allowed: set<Id>, id: Id): Table
    decreases allowed, 1, 0
  {
    if id !in allowed then Err(Failed(NodeNotFound(id))) else
    match Find(nodes, id)
    case None => Err(Failed(NodeNotFound(id)))
    case Some(node) =>
      if node.dependsOn == [] then Loaded(e, node, cap) else
      match TablesOf(e, nodes, cap, allowed - {id}, node.dependsOn)
      case Err(f) => Err(f)
      case Ok(tables) => TransformSpec(e, node, tables, cap)
  }

  function TablesOf(e: Engine, nodes: seq<Node>, cap: int, allowed: set<Id>, ids: seq<Id>)
    : Result<seq<seq<Row>>, Failure>
    decreases allowed, 2, |ids|
  {
    if ids == [] then Ok([]) else
    var n := |ids| - 1;
    match TablesOf(e, nodes, cap, allowed, ids[..n])
    case Err(f) => Err(f)
    case Ok(front) =>
      match TableOf(e, nodes, cap, allowed, ids[n])
      case Err(f) => Err(f)
      case Ok(t) => Ok(front + [t])
  }

  type Produced = map<Id, seq<Row>>

  /** The tables already produced, in the order of the dependencies; missing ones are skipped. */
  function Gather(produced: Produced, ids: seq<Id>): seq<seq<Row>> {
    if ids == [] then [] else
    var last := ids[|ids| - 1];
    Gather(produced, ids[..|ids| - 1]) + (if last in produced then [produced[last]] else [])
  }

  method Upstream(produced: Produced, ids: seq<Id>) returns (tables: seq<seq<Row>>)
    ensures tables == Gather(produced, ids)
  {
    tables := [];
    for i := 0 to |ids|
      invariant tables == Gather(produced, ids[..i])
    {
      assert ids[..i + 1][..i] == ids[..i];
      if ids[i] in produced {
        tables := tables + [produced[ids[i]]];
      }
    }
    assert ids[..|ids|] == ids;
  }

  // ---------------------------------------------------------------------------------------------
  // Forward evaluation agrees with the recursive definition
  // ---------------------------------------------------------------------------------------------

  /** At position k the recursive definition gives t, for every allowed set that covers the chain so far. */
  ghost predicate Settles(e: Engine, nodes: seq<Node>, cap: int, chain: seq<Id>, k: nat, t: seq<Row>)
    requires k < |chain|
  {
    forall allowed :: Elements(chain[..k + 1]) <= allowed ==> TableOf(e, nodes, cap, allowed, chain[k]) == Ok(t)
  }

  ghost predicate FailsAt(e: Engine, nodes: seq<Node>, cap: int, chain: seq<Id>, k: nat)
    requires k < |chain|
  {
    forall allowed :: Elements(chain[..k + 1]) <= allowed ==> TableOf(e, nodes, cap, allowed, chain[k]).Err?
  }

  /** What holds after i entries of the chain. */
  ghost predicate Forward(e: Engine, nodes: seq<Node>, cap: int, chain: seq<Id>, i: nat, produced: Produced)
    requires i <= |chain|
  {
    && (forall k :: 0 <= k < i ==> chain[k] in produced && Settles(e, nodes, cap, chain, k, produced[chain[k]]))
  }

  lemma PrefixElements(chain: seq<Id>, j: nat, k: nat, allowed: set<Id>)
    requires NoDuplicates(chain) && j < k < |chain| && Elements(chain[..k + 1]) <= allowed
    ensures Elements(chain[..j + 1]) <= allowed - {chain[k]}
  {
    forall x | x in chain[..j + 1]
      ensures x in allowed - {chain[k]}
    {
      var m :| 0 <= m < j + 1 && chain[m] == x;
      assert chain[..k + 1][m] == x && x in Elements(chain[..k + 1]);
    }
  }

  lemma {:induction false} TablesSettle(
    e: Engine, nodes: seq<Node>, cap: int, chain: seq<Id>, k: nat, produced: Produced, allowed: set<Id>, ids: seq<Id>)
    requires NoDuplicates(chain) && k < |chain| && Forward(e, nodes, cap, chain, k, produced)
    requires Elements(chain[..k + 1]) <= allowed && AllIn(ids, chain[..k])
    ensures TablesOf(e, nodes, cap, allowed - {chain[k]}, ids) == Ok(Gather(produced, ids))
    decreases |ids|
  {
    if ids != [] {
      var n := |ids| - 1;
      assert ids == ids[..n] + [ids[n]];
      TablesSettle(e, nodes, cap, chain, k, produced, allowed, ids[..n]);
      assert ids[n] in chain[..k];
      var j :| 0 <= j < k && chain[j] == ids[n];
      PrefixElements(chain, j, k, allowed);
      assert Settles(e, nodes, cap, chain, j, produced[chain[j]]);
    }
  }

  lemma {:induction false} TablesFail(e: Engine, nodes: seq<Node>, cap: int, chain: seq<Id>, j: nat, k: nat,
      allowed: set<Id>, ids: seq<Id>)
    requires NoDuplicates(chain) && j < k < |chain| && FailsAt(e, nodes, cap, chain, j)
    requires Elements(chain[..k + 1]) <= allowed && chain[j] in ids
    ensures TablesOf(e, nodes, cap, allowed - {chain[k]}, ids).Err?
    decreases |ids|
  {
    var n := |ids| - 1;
    assert ids == ids[..n] + [ids[n]];
    if chain[j] in ids[..n] {
      TablesFail(e, nodes, cap, chain, j, k, allowed, ids[..n]);
    } else {
      PrefixElements(chain, j, k, allowed);
    }
  }

  /** Failure of a dependency is failure of the dependent. */
  lemma FailureSpreads(e: Engine, nodes: seq<Node>, cap: int, chain: seq<Id>, j: nat, k: nat)
    requires UniqueIds(nodes) && NoDuplicates(chain) && j < k < |chain| && FailsAt(e, nodes, cap, chain, j)
    requires chain[j] in Deps(GraphOf(nodes), chain[k])
    ensures FailsAt(e, nodes, cap, chain, k)
  {
    FindAgreesWithGraph(nodes, chain[k]);
    forall allowed | Elements(chain[..k + 1]) <= allowed
      ensures TableOf(e, nodes, cap, allowed, chain[k]).Err?
    {
      TablesFail(e, nodes, cap, chain, j, k, allowed, Deps(GraphOf(nodes), chain[k]));
    }
  }

  /** A failure anywhere in the chain is a failure of the target, which depends on it. */
  lemma {:induction false} FailureReachesTarget(
    e: Engine, nodes: seq<Node>, cap: int, chain: seq<Id>, walk: seq<Id>, j: nat)
    returns (k: nat)
    requires UniqueIds(nodes) && NoDuplicates(chain) && DepsFirst(GraphOf(nodes), chain)
    requires Walk(GraphOf(nodes), walk) && walk[0] in chain
    requires j < |chain| && walk[|walk| - 1] == chain[j] && FailsAt(e, nodes, cap, chain, j)
    ensures k < |chain| && chain[k] == walk[0] && FailsAt(e, nodes, cap, chain, k)
    decreases |walk|
  {
    k :| 0 <= k < |chain| && chain[k] == walk[0];
    if |walk| == 1 {
      k := j;
    } else {
      var g := GraphOf(nodes);
      assert walk[1] in Deps(g, chain[k]);
      assert walk[1] in chain[..k];
      assert Walk(g, walk[1..]) by {
        forall m | 0 <= m < |walk[1..]| - 1
          ensures walk[1..][m + 1] in Deps(g, walk[1..][m])
        {
          assert walk[m + 2] in Deps(g, walk[m + 1]);
        }
      }
      var m := FailureReachesTarget(e, nodes, cap, chain, walk[1..], j);
      var m' :| 0 <= m' < k && chain[m'] == walk[1];
      assert m == m';
      FailureSpreads(e, nodes, cap, chain, m, k);
    }
  }

  /** The facts under which a chain can be evaluated front to back. */
  ghost predicate Evaluable(e: Engine, nodes: seq<Node>, cap: int, chain: seq<Id>, i: nat, produced: Produced)
    requires i <= |chain|
  {
    && NoDuplicates(chain) && DepsFirst(GraphOf(nodes), chain)
    && Forward(e, nodes, cap, chain, i, produced)
  }

  lemma SourceSettles(e: Engine, nodes: seq<Node>, cap: int, chain: seq<Id>, i: nat)
    requires i < |chain| && (Find(nodes, chain[i]).Some? ==> Find(nodes, chain[i]).value.dependsOn == [])
    ensures
      var r := if Find(nodes, chain[i]).None? then Err(Failed(NodeNotFound(chain[i])))
               else Loaded(e, Find(nodes, chain[i]).value, cap);
      if r.Ok? then Settles(e, nodes, cap, chain, i, r.value) else FailsAt(e, nodes, cap, chain, i)
  {
    assert chain[..i + 1][i] == chain[i];
  }

  lemma TransformSettles(e: Engine, nodes: seq<Node>, cap: int, chain: seq<Id>, i: nat, produced: Produced, node: Node)
    requires UniqueIds(nodes) && i < |chain| && Evaluable(e, nodes, cap, chain, i, produced)
    requires Find(nodes, chain[i]) == Some(node) && node.dependsOn != []
    ensures
      var r := TransformSpec(e, node, Gather(produced, node.dependsOn), cap);
      if r.Ok? then Settles(e, nodes, cap, chain, i, r.value) else FailsAt(e, nodes, cap, chain, i)
  {
    assert chain[..i + 1][i] == chain[i];
    FindAgreesWithGraph(nodes, chain[i]);
    assert AllIn(node.dependsOn, chain[..i]);
    forall allowed | Elements(chain[..i + 1]) <= allowed
      ensures TableOf(e, nodes, cap, allowed, chain[i]) ==
        TransformSpec(e, node, Gather(produced, node.dependsOn), cap)
    {
      TablesSettle(e, nodes, cap, chain, i, produced, allowed, node.dependsOn);
    }
  }

  /** One entry of the chain. */
  method Evaluate(e: Engine, nodes: seq<Node>, cap: int, chain: seq<Id>, i: nat, produced: Produced) returns (r: Table)
    requires i < |chain|
    ensures UniqueIds(nodes) && Evaluable(e, nodes, cap, chain, i, produced) ==>
      if r.Ok? then Settles(e, nodes, cap, chain, i, r.value) else FailsAt(e, nodes, cap, chain, i)
  {
    var id := chain[i];
    var node := Lookup(nodes, id);
    if node.None? {
      SourceSettles(e, nodes, cap, chain, i);
      return Err(Failed(NodeNotFound(id)));
    }
    if node.value.dependsOn == [] {
      SourceSettles(e, nodes, cap, chain, i);
      return Loaded(e, node.value, cap);
    }
    var upstream := Upstream(produced, node.value.dependsOn);
    r := ApplyTransform(e, node.value, upstream, cap);
    if UniqueIds(nodes) && Evaluable(e, nodes, cap, chain, i, produced) {
      TransformSettles(e, nodes, cap, chain, i, produced, node.value);
    }
  }

  function Capped(sampleSize: Option<int>): int {
    var cap := if sampleSize.Some? then sampleSize.value else DEFAULT_SAMPLE_SIZE;
    if cap > DEFAULT_SAMPLE_SIZE then DEFAULT_SAMPLE_SIZE else cap
  }

  ghost predicate Covers(g: Graph, target: Id, allowed: set<Id>) {
    forall id :: Reaches(g, target, id) ==> id in allowed
  }

  /** r is what the recursive definition gives for the target: the same table, or a failure. */
  ghost predicate Agrees(e: Engine, nodes: seq<Node>, cap: int, target: Id, r: Table) {
    forall allowed :: Covers(GraphOf(nodes), target, allowed) ==>
      var table := TableOf(e, nodes, cap, allowed, target);
      if r.Ok? then table == r else table.Err?
  }

  lemma ChainShape(g: Graph, target: Id, chain: seq<Id>)
    requires IsChain(g, target, chain)
    ensures NoDuplicates(chain) && DepsFirst(g, chain) && chain != []
  {
  }

  lemma LastAgrees(e: Engine, nodes: seq<Node>, cap: int, target: Id, chain: seq<Id>, r: Table)
    requires IsChain(GraphOf(nodes), target, chain)
    requires if r.Ok? then Settles(e, nodes, cap, chain, |chain| - 1, r.value)
             else FailsAt(e, nodes, cap, chain, |chain| - 1)
    ensures Agrees(e, nodes, cap, target, r)
  {
    var last := |chain| - 1;
    assert chain[..last + 1] == chain;
    forall allowed | Covers(GraphOf(nodes), target, allowed)
      ensures Elements(chain[..last + 1]) <= allowed
    {
      forall x | x in Elements(chain)
        ensures x in allowed
      {
        assert Reaches(GraphOf(nodes), target, x);
      }
    }
  }

  lemma FailureAgrees(e: Engine, nodes: seq<Node>, cap: int, target: Id, chain: seq<Id>, i: nat, r: Table)
    requires UniqueIds(nodes) && IsChain(GraphOf(nodes), target, chain)
    requires i < |chain| && FailsAt(e, nodes, cap, chain, i) && r.Err?
    ensures Agrees(e, nodes, cap, target, r)
  {
    assert chain[i] in Elements(chain) && Reaches(GraphOf(nodes), target, chain[i]);
    var walk :| WalkFromTo(GraphOf(nodes), walk, target, chain[i]);
    assert target == chain[|chain| - 1] && target in chain;
    var k := FailureReachesTarget(e, nodes, cap, chain, walk, i);
    assert k == |chain| - 1;
    LastAgrees(e, nodes, cap, target, chain, r);
  }

  /** PreviewNode: a missing target and a cycle are reported; otherwise, with unique node ids, it succeeds
      exactly when the recursive definition gives the target a table, and returns that table. */
  method PreviewRows(e: Engine, target: Id, nodes: seq<Node>, sampleSize: Option<int>) returns (r: Table)
    ensures target !in GraphOf(nodes) ==> r == Err(Failed(NodeNotFound(target)))
    ensures target in GraphOf(nodes) && HasCycle(GraphOf(nodes), target) ==> r == Err(Failed(Cycle(target)))
    ensures UniqueIds(nodes) && target in GraphOf(nodes) && !HasCycle(GraphOf(nodes), target) ==>
      Agrees(e, nodes, Capped(sampleSize), target, r)
  {
    hide HasCycle, Agrees, IsChain, Settles, FailsAt, UniqueIds, Capped, KahnOrder, IsNeeded;
    var chained := Chain(target, nodes);
    if chained.Err? {
      return Err(Failed(chained.error));
    }
    ghost var at;
    ChainShape(GraphOf(nodes), target, chained.value);
    r, at := RunChain(e, nodes, Capped(sampleSize), chained.value);
    if UniqueIds(nodes) {
      if r.Ok? {
        LastAgrees(e, nodes, Capped(sampleSize), target, chained.value, r);
      } else {
        FailureAgrees(e, nodes, Capped(sampleSize), target, chained.value, at, r);
      }
    }
  }

  /** The loop over the chain; `at` is where it stopped. */
  method RunChain(e: Engine, nodes: seq<Node>, cap: int, chain: seq<Id>) returns (r: Table, ghost at: nat)
    requires NoDuplicates(chain) && DepsFirst(GraphOf(nodes), chain) && chain != []
    ensures at < |chain|
    ensures UniqueIds(nodes) ==>
      if r.Ok? then at == |chain| - 1 && Settles(e, nodes, cap, chain, at, r.value)
      else FailsAt(e, nodes, cap, chain, at)
  {
    var produced: Produced := map[];
    for i := 0 to |chain|
      invariant i > 0 ==> chain[i - 1] in produced
      invariant UniqueIds(nodes) ==> Evaluable(e, nodes, cap, chain, i, produced)
    {
      var rows := Evaluate(e, nodes, cap, chain, i, produced);
      if rows.Err? {
        return rows, i;
      }
      if UniqueIds(nodes) {
        KeepForward(e, nodes, cap, chain, i, produced, rows.value);
      }
      produced := produced[chain[i] := rows.value];
    }
    return Ok(produced[chain[|chain| - 1]]), |chain| - 1;
  }

  lemma KeepForward(e: Engine, nodes: seq<Node>, cap: int, chain: seq<Id>, i: nat, produced: Produced, rows: seq<Row>)
    requires NoDuplicates(chain) && i < |chain| && Forward(e, nodes, cap, chain, i, produced)
    requires Settles(e, nodes, cap, chain, i, rows)
    ensures Forward(e, nodes, cap, chain, i + 1, produced[chain[i] := rows])
  {
    forall k | 0 <= k < i + 1
      ensures chain[k] in produced[chain[i] := rows]
      ensures Settles(e, nodes, cap, chain, k, produced[chain[i] := rows][chain[k]])
    {
    }
  }
}
