/**
 topologicalChain (libs/pipeline-expression/preview.go): breadth-first collection of the needed
 ids, in-degree counting, and a depth-first flavoured Kahn loop.  Go iterates its maps in an
 arbitrary order; here every such iteration picks an arbitrary element, and the result is still
 one function of the graph.
 */
module TopologicalChain {
  import opened Common
  import opened IdOrder
  import opened PipelineNode
  import opened Dag

  /** byID: a later node replaces an earlier one with the same id. */
  function GraphOf(nodes: seq<Node>): (g: Graph)
    ensures forall id :: id in g <==> exists i :: 0 <= i < |nodes| && nodes[i].id == id
  {
    if nodes == [] then map[] else
    var last := nodes[|nodes| - 1];
    GraphOf(nodes[..|nodes| - 1])[last.id := last.dependsOn]
  }

  method ById(nodes: seq<Node>) returns (g: Graph)
    ensures g == GraphOf(nodes)
  {
    g := map[];
    for i := 0 to |nodes|
      invariant g == GraphOf(nodes[..i])
    {
      assert nodes[..i + 1][..i] == nodes[..i];
      g := g[nodes[i].id := nodes[i].dependsOn];
    }
    assert nodes[..|nodes|] == nodes;
  }

  /** With unique ids every node's own dependencies are in the graph. */
  lemma {:induction false} UniqueIdsGraph(nodes: seq<Node>, i: nat)
    requires UniqueIds(nodes) && i < |nodes|
    ensures nodes[i].id in GraphOf(nodes) && GraphOf(nodes)[nodes[i].id] == nodes[i].dependsOn
  {
    var n := |nodes| - 1;
    if i < n {
      UniqueIdsGraph(nodes[..n], i);
      assert nodes[i].id != nodes[n].id;
    }
  }

  // ---------------------------------------------------------------------------------------------
  // The needed ids
  // ---------------------------------------------------------------------------------------------

  /** Every id the graph mentions. */
  ghost function Mentioned(g: Graph, target: Id): set<Id> {
    {target} + g.Keys + (set id, d | id in g && d in g[id] :: d)
  }

  method NeededIds(g: Graph, target: Id) returns (needed: set<Id>)
    ensures IsNeeded(g, target, needed)
  {
    needed := {};
    var queue := [target];
    ReachesSelf(g, target);
    ghost var universe := Mentioned(g, target);
    while queue != []
      invariant needed <= universe && Elements(queue) <= universe
      invariant forall id :: id in needed || id in queue ==> Reaches(g, target, id)
      invariant target in needed || target in queue
      invariant forall id, d :: id in needed && d in Deps(g, id) ==> d in needed || d in queue
      decreases universe - needed, |queue|
    {
      var id := queue[0];
      assert queue == [id] + queue[1..];
      assert id in Elements(queue);
      queue := queue[1..];
      if id in needed {
        continue;
      }
      needed := needed + {id};
      forall d | d in Deps(g, id)
        ensures Reaches(g, target, d) && d in universe
      {
        ReachesStep(g, target, id, d);
      }
      if id in g {
        queue := queue + g[id];
      }
    }
    ClosedReachedIsNeeded(g, target, needed);
  }

  // ---------------------------------------------------------------------------------------------
  // In-degrees and the reverse edges
  // ---------------------------------------------------------------------------------------------

  ghost function Count(s: seq<Id>, x: Id): nat {
    if s == [] then 0 else Count(s[..|s| - 1], x) + (if s[|s| - 1] == x then 1 else 0)
  }

  lemma CountAppend(s: seq<Id>, y: Id)
    ensures forall x :: Count(s + [y], x) == Count(s, x) + (if x == y then 1 else 0)
  {
    assert (s + [y])[..|s|] == s;
  }

  lemma {:induction false} CountIsMembership(s: seq<Id>, x: Id)
    ensures Count(s, x) > 0 <==> x in s
  {
    if s != [] {
      var n := |s| - 1;
      CountIsMembership(s[..n], x);
      assert s == s[..n] + [s[n]];
    }
  }

  lemma {:induction false} CountPrefix(s: seq<Id>, k: nat, x: Id)
    requires k <= |s|
    ensures Count(s[..k], x) <= Count(s, x)
    decreases |s|
  {
    if k == |s| {
      assert s[..k] == s;
    } else {
      var n := |s| - 1;
      assert s[..n][..k] == s[..k];
      CountPrefix(s[..n], k, x);
    }
  }

  /** How many entries of ds are not in the order yet. */
  ghost function Pending(ds: seq<Id>, order: seq<Id>): nat {
    if ds == [] then 0 else Pending(ds[..|ds| - 1], order) + (if ds[|ds| - 1] in order then 0 else 1)
  }

  lemma {:induction false} PendingOfNone(ds: seq<Id>)
    ensures Pending(ds, []) == |ds|
  {
    if ds != [] {
      PendingOfNone(ds[..|ds| - 1]);
    }
  }

  lemma {:induction false} PendingZero(ds: seq<Id>, order: seq<Id>)
    ensures Pending(ds, order) == 0 <==> AllIn(ds, order)
  {
    if ds != [] {
      var n := |ds| - 1;
      PendingZero(ds[..n], order);
      assert ds == ds[..n] + [ds[n]];
    }
  }

  lemma {:induction false} PendingStep(ds: seq<Id>, order: seq<Id>, id: Id)
    requires id !in order
    ensures Pending(ds, order + [id]) == Pending(ds, order) - Count(ds, id)
  {
    if ds != [] {
      var n := |ds| - 1;
      PendingStep(ds[..n], order, id);
      assert ds == ds[..n] + [ds[n]];
    }
  }

  type Degrees = map<Id, int>
  type Edges = map<Id, seq<Id>>

  /** indeg counts the dependencies still pending. */
  ghost predicate DegreesCount(g: Graph, needed: set<Id>, order: seq<Id>, indeg: Degrees) {
    indeg.Keys == needed && forall c :: c in needed ==> indeg[c] == Pending(Deps(g, c), order)
  }

  /** adj holds the reverse edges, with multiplicity, of the ids that are not in the order. */
  ghost predicate EdgesReverse(g: Graph, needed: set<Id>, order: seq<Id>, adj: Edges) {
    && adj.Keys == needed - Elements(order)
    && forall d, c {:trigger Count(adj[d], c)} :: d in adj ==>
         Count(adj[d], c) == if c in needed then Count(Deps(g, c), d) else 0
  }

  /** The edges into one node: its in-degree, and itself under each of its dependencies. */
  method AddNode(id: Id, ds: seq<Id>, needed: set<Id>, indeg: Degrees, adj: Edges)
    returns (indeg': Degrees, adj': Edges)
    requires id in needed && indeg.Keys == needed && adj.Keys == needed && (forall d :: d in ds ==> d in needed)
    requires indeg[id] == 0
    ensures indeg' == indeg[id := |ds|] && adj'.Keys == needed
    ensures forall d, c {:trigger Count(adj'[d], c)} :: d in needed ==>
      Count(adj'[d], c) == Count(adj[d], c) + (if c == id then Count(ds, d) else 0)
  {
    indeg', adj' := indeg, adj;
    assert forall d :: Count(ds[..0], d) == 0;
    for j := 0 to |ds|
      invariant indeg' == indeg[id := j] && adj'.Keys == needed
      invariant forall d, c {:trigger Count(adj'[d], c)} :: d in needed ==>
        Count(adj'[d], c) == Count(adj[d], c) + (if c == id then Count(ds[..j], d) else 0)
    {
      var dep := ds[j];
      assert ds[..j + 1] == ds[..j] + [dep];
      CountAppend(ds[..j], dep);
      CountAppend(adj'[dep], id);
      if dep in needed {
        indeg' := indeg'[id := indeg'[id] + 1];
        adj' := adj'[dep := adj'[dep] + [id]];
      }
    }
    assert ds[..|ds|] == ds;
  }

  /** The edges of the nodes outside `todo` are in place. */
  ghost predicate EdgesUpTo(g: Graph, needed: set<Id>, todo: set<Id>, indeg: Degrees, adj: Edges) {
    && indeg.Keys == needed && adj.Keys == needed
    && (forall c :: c in needed ==> indeg[c] == if c in todo then 0 else |Deps(g, c)|)
    && (forall d, c {:trigger Count(adj[d], c)} :: d in needed ==>
          Count(adj[d], c) == if c in needed && c !in todo then Count(Deps(g, c), d) else 0)
  }

  method BuildEdges(g: Graph, needed: set<Id>) returns (indeg: Degrees, adj: Edges)
    requires Closed(g, needed)
    ensures DegreesCount(g, needed, [], indeg) && EdgesReverse(g, needed, [], adj)
  {
    hide Deps, Pending;
    indeg := map id | id in needed :: 0;
    adj := map id | id in needed :: [];
    var todo := needed;
    assert forall d, c :: d in needed ==> adj[d] == [] && Count(adj[d], c) == 0;
    while todo != {}
      invariant todo <= needed && EdgesUpTo(g, needed, todo, indeg, adj)
      decreases todo
    {
      var id :| id in todo;
      indeg, adj := AddNode(id, Deps(g, id), needed, indeg, adj);
      todo := todo - {id};
    }
    forall c | c in needed
      ensures indeg[c] == Pending(Deps(g, c), [])
    {
      PendingOfNone(Deps(g, c));
    }
  }

  // ---------------------------------------------------------------------------------------------
  // The Kahn loop
  // ---------------------------------------------------------------------------------------------

  /** The ids of in-degree zero, collected in any order, then sorted in reverse. */
  method InitialFrontier(g: Graph, needed: set<Id>, indeg: Degrees) returns (frontier: seq<Id>)
    requires DegreesCount(g, needed, [], indeg)
    ensures frontier == Roots(g, needed)
  {
    var found: seq<Id> := [];
    var todo := needed;
    while todo != {}
      invariant todo <= needed && NoDuplicates(found)
      invariant forall c :: c in found <==> c in needed && c !in todo && indeg[c] == 0
      decreases todo
    {
      var k :| k in todo;
      if indeg[k] == 0 {
        found := found + [k];
      }
      todo := todo - {k};
    }
    forall c | c in needed
      ensures indeg[c] == 0 <==> Deps(g, c) == []
    {
      PendingOfNone(Deps(g, c));
    }
    assert Elements(found) == set c | c in needed && Deps(g, c) == [];
    SortIsListing(found);
    frontier := Reverse(Sort(found));
  }

  /** Decrements the in-degree of every child and collects those that reach zero. */
  method Release(children: seq<Id>, indeg: Degrees) returns (indeg': Degrees, next: seq<Id>)
    requires forall c :: c in children ==> c in indeg
    requires forall c :: c in indeg ==> Count(children, c) <= indeg[c]
    ensures indeg'.Keys == indeg.Keys
    ensures forall c :: c in indeg ==> indeg'[c] == indeg[c] - Count(children, c)
    ensures NoDuplicates(next) && forall c :: c in next <==> c in children && indeg'[c] == 0
  {
    indeg', next := indeg, [];
    for k := 0 to |children|
      invariant indeg'.Keys == indeg.Keys
      invariant forall c :: c in indeg ==> indeg'[c] == indeg[c] - Count(children[..k], c)
      invariant NoDuplicates(next)
      invariant forall c :: c in next <==> c in children[..k] && indeg'[c] == 0
    {
      var child := children[k];
      assert children[..k + 1] == children[..k] + [child];
      CountAppend(children[..k], child);
      CountPrefix(children, k + 1, child);
      var d := indeg'[child];
      assert child !in next;
      indeg' := indeg'[child := d - 1];
      if d - 1 == 0 {
        next := next + [child];
      }
    }
    assert children[..|children|] == children;
  }

  /** Popping id makes exactly the Ready ids reach in-degree zero. */
  lemma ReleasedAreReady(g: Graph, needed: set<Id>, order: seq<Id>, id: Id, children: seq<Id>, indeg: Degrees)
    requires DegreesCount(g, needed, order, indeg) && id !in order && id in needed
    requires forall c {:trigger Count(children, c)} ::
      Count(children, c) == if c in needed then Count(Deps(g, c), id) else 0
    ensures forall c :: c in children ==> c in indeg
    ensures forall c :: c in needed ==>
      Count(children, c) <= indeg[c] && indeg[c] - Count(children, c) == Pending(Deps(g, c), order + [id])
    ensures forall c :: c in Ready(g, needed, order, id) <==>
      c in children && indeg[c] - Count(children, c) == 0
  {
    forall c | c in children
      ensures c in needed && id in Deps(g, c)
    {
      CountIsMembership(children, c);
      CountIsMembership(Deps(g, c), id);
    }
    forall c | c in needed
      ensures Count(children, c) <= indeg[c]
      ensures indeg[c] - Count(children, c) == Pending(Deps(g, c), order + [id])
      ensures c in Ready(g, needed, order, id) <==>
        c in children && indeg[c] - Count(children, c) == 0
    {
      PendingStep(Deps(g, c), order, id);
      PendingZero(Deps(g, c), order + [id]);
      CountIsMembership(children, c);
      CountIsMembership(Deps(g, c), id);
    }
  }

  method PushReversed(base: seq<Id>, next: seq<Id>) returns (frontier: seq<Id>)
    ensures frontier == base + Reverse(next)
  {
    frontier := base;
    var i := |next| - 1;
    while i >= 0
      invariant -1 <= i < |next|
      invariant frontier == base + Reverse(next)[..|next| - 1 - i]
    {
      assert Reverse(next)[..|next| - i] == Reverse(next)[..|next| - 1 - i] + [next[i]];
      frontier := frontier + [next[i]];
      i := i - 1;
    }
    assert Reverse(next)[..|next|] == Reverse(next);
  }

  lemma EdgesShrink(g: Graph, needed: set<Id>, order: seq<Id>, adj: Edges, id: Id)
    requires EdgesReverse(g, needed, order, adj)
    ensures EdgesReverse(g, needed, order + [id], adj - {id})
  {
    assert Elements(order + [id]) == Elements(order) + {id};
  }

  /** What remains of a round after popping id: decrement, sort, push. */
  method Round(g: Graph, needed: set<Id>, ghost order: seq<Id>, frontier: seq<Id>, indeg: Degrees, children: seq<Id>)
    returns (indeg': Degrees, frontier': seq<Id>)
    requires frontier != [] && DegreesCount(g, needed, order, indeg)
    requires frontier[|frontier| - 1] in needed && frontier[|frontier| - 1] !in order
    requires forall c {:trigger Count(children, c)} ::
      Count(children, c) == if c in needed then Count(Deps(g, c), frontier[|frontier| - 1]) else 0
    ensures DegreesCount(g, needed, order + [frontier[|frontier| - 1]], indeg')
    ensures frontier' == NextFrontier(g, needed, order, frontier)
  {
    ghost var id := frontier[|frontier| - 1];
    ReleasedAreReady(g, needed, order, id, children, indeg);
    var next: seq<Id>;
    indeg', next := Release(children, indeg);
    assert Elements(next) == Ready(g, needed, order, id);
    SortIsListing(next);
    frontier' := PushReversed(frontier[..|frontier| - 1], Sort(next));
  }

  method KahnLoop(g: Graph, needed: set<Id>) returns (order: seq<Id>)
    requires Closed(g, needed)
    ensures order == KahnOrder(g, needed)
  {
    var indeg, adj := BuildEdges(g, needed);
    var frontier := InitialFrontier(g, needed, indeg);
    RootsStartKahn(g, needed);
    order := [];
    while frontier != []
      invariant KahnInv(g, needed, order, frontier)
      invariant KahnFrom(g, needed, order, frontier) == KahnOrder(g, needed)
      invariant DegreesCount(g, needed, order, indeg) && EdgesReverse(g, needed, order, adj)
      decreases |needed| - |order|
    {
      var id := frontier[|frontier| - 1];
      FrontierLeavesRoom(g, needed, order, frontier);
      StepKeepsKahn(g, needed, order, frontier);
      assert id in frontier && id in needed && id !in order;
      EdgesShrink(g, needed, order, adj, id);
      indeg, frontier := Round(g, needed, order, frontier, indeg, adj[id]);
      adj := adj - {id};
      order := order + [id];
    }
  }

  /** For every graph: the chain lists each id the target needs exactly once, dependencies first and the
      target last; a cycle is reported exactly when the needed part has one; and the result is a function
      of the graph, whatever order the maps are iterated in. */
  method Chain(target: Id, nodes: seq<Node>) returns (r: Result<seq<Id>, PreviewError>)
    ensures target !in GraphOf(nodes) <==> r == Err(NodeNotFound(target))
    ensures r == Err(Cycle(target)) <==> target in GraphOf(nodes) && HasCycle(GraphOf(nodes), target)
    ensures r.Ok? <==> target in GraphOf(nodes) && !HasCycle(GraphOf(nodes), target)
    ensures r.Ok? ==> IsChain(GraphOf(nodes), target, r.value)
    ensures r.Ok? ==> forall needed :: IsNeeded(GraphOf(nodes), target, needed) ==>
      r.value == KahnOrder(GraphOf(nodes), needed)
  {
    var g := ById(nodes);
    if target !in g {
      return Err(NodeNotFound(target));
    }
    var needed := NeededIds(g, target);
    NeededIsClosed(g, target, needed);
    var order := KahnLoop(g, needed);
    KahnIsComplete(g, target, needed);
    forall other | IsNeeded(g, target, other)
      ensures order == KahnOrder(g, other)
    {
      NeededIsUnique(g, target, needed, other);
    }
    if |order| != |needed| {
      return Err(Cycle(target));
    }
    return Ok(order);
  }
}
