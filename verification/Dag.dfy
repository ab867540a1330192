/**
 Dependency graphs of pipeline nodes: walks, cycles, the set of ids a target needs, and the
 deterministic Kahn order that topologicalChain (libs/pipeline-expression/preview.go) produces.
 */
module Dag {
  import opened IdOrder

  /** The ids each known node depends on; an id without a node has no dependencies. */
  type Graph = map<Id, seq<Id>>

  function Deps(g: Graph, id: Id): seq<Id> {
    if id in g then g[id] else []
  }

  // ---------------------------------------------------------------------------------------------
  // Walks, reachability, cycles
  // ---------------------------------------------------------------------------------------------

  /** Each entry depends on the next one. */
  ghost predicate Walk(g: Graph, p: seq<Id>) {
    p != [] && forall i :: 0 <= i < |p| - 1 ==> p[i + 1] in Deps(g, p[i])
  }

  ghost predicate WalkFromTo(g: Graph, p: seq<Id>, a: Id, b: Id) {
    Walk(g, p) && p[0] == a && p[|p| - 1] == b
  }

  /** b is a itself or a transitive dependency of a. */
  ghost predicate Reaches(g: Graph, a: Id, b: Id) {
    exists p :: WalkFromTo(g, p, a, b)
  }

  /** A closed walk of at least one step, reachable from the target. */
  ghost predicate HasCycle(g: Graph, target: Id) {
    exists p :: Walk(g, p) && |p| >= 2 && p[0] == p[|p| - 1] && Reaches(g, target, p[0])
  }

  ghost predicate Closed(g: Graph, s: set<Id>) {
    forall id, d :: id in s && d in Deps(g, id) ==> d in s
  }

  /** The set of ids the target needs: exactly those it reaches. */
  ghost predicate IsNeeded(g: Graph, target: Id, s: set<Id>) {
    forall id :: id in s <==> Reaches(g, target, id)
  }

  lemma ReachesSelf(g: Graph, a: Id)
    ensures Reaches(g, a, a)
  {
    assert WalkFromTo(g, [a], a, a);
  }

  lemma ReachesStep(g: Graph, a: Id, b: Id, d: Id)
    requires Reaches(g, a, b) && d in Deps(g, b)
    ensures Reaches(g, a, d)
  {
    var p :| WalkFromTo(g, p, a, b);
    assert WalkFromTo(g, p + [d], a, d);
  }

  lemma {:induction false} ClosedContainsWalk(g: Graph, s: set<Id>, p: seq<Id>)
    requires Closed(g, s) && Walk(g, p) && p[0] in s
    ensures forall i :: 0 <= i < |p| ==> p[i] in s
    decreases |p|
  {
    if |p| == 1 {
    } else {
      assert p[1] in Deps(g, p[0]);
      assert Walk(g, p[1..]) by {
        forall i | 0 <= i < |p[1..]| - 1
          ensures p[1..][i + 1] in Deps(g, p[1..][i])
        {
          assert p[i + 2] in Deps(g, p[i + 1]);
        }
      }
      ClosedContainsWalk(g, s, p[1..]);
      forall i | 0 <= i < |p|
        ensures p[i] in s
      {
        if i > 0 {
          assert p[1..][i - 1] in s;
        }
      }
    }
  }

  /** A closed set of reached ids that holds the target is the needed set. */
  lemma ClosedReachedIsNeeded(g: Graph, target: Id, s: set<Id>)
    requires Closed(g, s) && target in s && forall id :: id in s ==> Reaches(g, target, id)
    ensures IsNeeded(g, target, s)
  {
    forall id | Reaches(g, target, id)
      ensures id in s
    {
      var p :| WalkFromTo(g, p, target, id);
      ClosedContainsWalk(g, s, p);
    }
  }

  lemma NeededIsClosed(g: Graph, target: Id, s: set<Id>)
    requires IsNeeded(g, target, s)
    ensures Closed(g, s) && target in s
  {
    ReachesSelf(g, target);
    forall id, d | id in s && d in Deps(g, id)
      ensures d in s
    {
      ReachesStep(g, target, id, d);
    }
  }

  lemma NeededIsUnique(g: Graph, target: Id, s: set<Id>, t: set<Id>)
    requires IsNeeded(g, target, s) && IsNeeded(g, target, t)
    ensures s == t
  {
  }

  ghost predicate HasDepIn(g: Graph, c: Id, s: set<Id>) {
    exists d :: d in Deps(g, c) && d in s
  }

  /** Every member of s depends on a member of s. */
  ghost predicate NoSinks(g: Graph, s: set<Id>) {
    forall c {:trigger HasDepIn(g, c, s)} :: c in s ==> HasDepIn(g, c, s)
  }

  /** Following dependencies inside a set where everybody has one leads to a cycle. */
  lemma CycleInside(g: Graph, s: set<Id>, start: Id)
    requires start in s && NoSinks(g, s)
    ensures exists p :: Walk(g, p) && |p| >= 2 && p[0] == p[|p| - 1] && p[0] in s
  {
    var p := LongWalk(g, s, start, |s|);
    var i, j := Pigeonhole(p, s);
    var q := p[i..j + 1];
    assert Walk(g, q) by {
      forall k | 0 <= k < |q| - 1
        ensures q[k + 1] in Deps(g, q[k])
      {
        assert p[i + k + 1] in Deps(g, p[i + k]);
      }
    }
    assert q[0] == q[|q| - 1] && q[0] in Elements(p);
  }

  lemma {:induction false} LongWalk(g: Graph, s: set<Id>, start: Id, n: nat) returns (p: seq<Id>)
    requires start in s && NoSinks(g, s)
    ensures Walk(g, p) && |p| == n + 1 && Elements(p) <= s && p[0] == start
    decreases n
  {
    if n == 0 {
      p := [start];
    } else {
      assert HasDepIn(g, start, s);
      var d :| d in Deps(g, start) && d in s;
      var rest := LongWalk(g, s, d, n - 1);
      p := [start] + rest;
      forall i | 0 <= i < |p| - 1
        ensures p[i + 1] in Deps(g, p[i])
      {
        if i > 0 {
          assert rest[i] in Deps(g, rest[i - 1]);
        }
      }
      forall x | x in p
        ensures x in s
      {
        if x != start {
          assert x in rest && x in Elements(rest);
        }
      }
    }
  }

  // ---------------------------------------------------------------------------------------------
  // Topological orders
  // ---------------------------------------------------------------------------------------------

  /** Every entry comes after all its own dependencies. */
  ghost predicate DepsFirst(g: Graph, order: seq<Id>) {
    forall i, d :: 0 <= i < |order| && d in Deps(g, order[i]) ==> d in order[..i]
  }

  /** What topologicalChain promises: each needed id once, dependencies first, the target last. */
  ghost predicate IsChain(g: Graph, target: Id, order: seq<Id>) {
    && NoDuplicates(order) && IsNeeded(g, target, Elements(order))
    && DepsFirst(g, order)
    && order != [] && order[|order| - 1] == target
  }

  /** Along a walk through a dependencies-first order, positions only go down. */
  lemma {:induction false} WalkGoesDown(g: Graph, order: seq<Id>, p: seq<Id>, i: nat) returns (k: nat)
    requires DepsFirst(g, order) && NoDuplicates(order) && Walk(g, p)
    requires i < |order| && order[i] == p[0]
    ensures k <= i && order[k] == p[|p| - 1] && (|p| >= 2 ==> k < i)
    decreases |p|
  {
    if |p| == 1 {
      k := i;
    } else {
      assert p[1] in Deps(g, order[i]);
      assert p[1] in order[..i];
      var j :| 0 <= j < i && order[j] == p[1];
      assert Walk(g, p[1..]) by {
        forall m | 0 <= m < |p[1..]| - 1
          ensures p[1..][m + 1] in Deps(g, p[1..][m])
        {
          assert p[m + 2] in Deps(g, p[m + 1]);
        }
      }
      k := WalkGoesDown(g, order, p[1..], j);
    }
  }

  lemma CompleteOrderIsChain(g: Graph, target: Id, order: seq<Id>)
    requires NoDuplicates(order) && DepsFirst(g, order) && IsNeeded(g, target, Elements(order))
    ensures IsChain(g, target, order) && !HasCycle(g, target)
  {
    NeededIsClosed(g, target, Elements(order));
    assert target in order;
    var t :| 0 <= t < |order| && order[t] == target;
    var last := order[|order| - 1];
    assert last in Elements(order);
    var w :| WalkFromTo(g, w, target, last);
    var k := WalkGoesDown(g, order, w, t);
    assert k == |order| - 1;
    if HasCycle(g, target) {
      var p :| Walk(g, p) && |p| >= 2 && p[0] == p[|p| - 1] && Reaches(g, target, p[0]);
      assert p[0] in Elements(order);
      var i :| 0 <= i < |order| && order[i] == p[0];
      var j := WalkGoesDown(g, order, p, i);
      assert false;
    }
  }

  // ---------------------------------------------------------------------------------------------
  // Kahn's algorithm, stated on sets
  // ---------------------------------------------------------------------------------------------

  ghost predicate AllIn(ds: seq<Id>, order: seq<Id>) {
    forall d :: d in ds ==> d in order
  }

  /** The ids that become ready when id is appended to the order. */
  ghost function Ready(g: Graph, needed: set<Id>, order: seq<Id>, id: Id): set<Id> {
    set c | c in needed && id in Deps(g, c) && AllIn(Deps(g, c), order + [id])
  }

  /** The state of the loop: `frontier` holds the ready ids that are not in `order` yet. */
  ghost predicate KahnInv(g: Graph, needed: set<Id>, order: seq<Id>, frontier: seq<Id>) {
    && NoDuplicates(order) && NoDuplicates(frontier)
    && (forall c :: c in order ==> c in needed) && (forall c :: c in frontier ==> c in needed && c !in order)
    && DepsFirst(g, order)
    && (forall c :: c in needed ==> (AllIn(Deps(g, c), order) <==> c in order || c in frontier))
  }

  ghost function NextFrontier(g: Graph, needed: set<Id>, order: seq<Id>, frontier: seq<Id>): seq<Id>
    requires frontier != []
  {
    var id := frontier[|frontier| - 1];
    frontier[..|frontier| - 1] + Reverse(Listing(Ready(g, needed, order, id)))
  }

  lemma ReverseKeepsElements(s: seq<Id>)
    requires NoDuplicates(s)
    ensures NoDuplicates(Reverse(s)) && forall x :: x in Reverse(s) <==> x in s
  {
    forall x | x in s
      ensures x in Reverse(s)
    {
      var i :| 0 <= i < |s| && s[i] == x;
      assert Reverse(s)[|s| - 1 - i] == x;
    }
  }

  lemma ReadyIsNew(g: Graph, needed: set<Id>, order: seq<Id>, frontier: seq<Id>, c: Id)
    requires KahnInv(g, needed, order, frontier) && frontier != []
    requires c in Ready(g, needed, order, frontier[|frontier| - 1])
    ensures c !in order && c !in frontier
  {
    var id := frontier[|frontier| - 1];
    assert id !in order;
    assert !AllIn(Deps(g, c), order);
  }

  lemma StepOrder(g: Graph, needed: set<Id>, order: seq<Id>, frontier: seq<Id>)
    requires KahnInv(g, needed, order, frontier) && frontier != []
    ensures
      var order' := order + [frontier[|frontier| - 1]];
      NoDuplicates(order') && DepsFirst(g, order') && forall c :: c in order' ==> c in needed
  {
    var id := frontier[|frontier| - 1];
    var order' := order + [id];
    assert AllIn(Deps(g, id), order);
    forall i, d | 0 <= i < |order'| && d in Deps(g, order'[i])
      ensures d in order'[..i]
    {
      if i < |order| {
        assert order'[..i] == order[..i];
      } else {
        assert order'[..i] == order;
      }
    }
  }

  lemma StepFrontier(g: Graph, needed: set<Id>, order: seq<Id>, frontier: seq<Id>)
    requires KahnInv(g, needed, order, frontier) && frontier != []
    ensures
      var order', frontier' := order + [frontier[|frontier| - 1]], NextFrontier(g, needed, order, frontier);
      && NoDuplicates(frontier')
      && (forall c :: c in frontier' <==>
            c in frontier[..|frontier| - 1] || c in Ready(g, needed, order, frontier[|frontier| - 1]))
      && (forall c :: c in frontier' ==> c in needed && c !in order')
  {
    var n := |frontier| - 1;
    var id, base := frontier[n], frontier[..n];
    var ready := Ready(g, needed, order, id);
    var listing := Listing(ready);
    SortedHasNoDuplicates(listing);
    ReverseKeepsElements(listing);
    forall c | c in ready
      ensures c !in base && c != id && c !in order
    {
      ReadyIsNew(g, needed, order, frontier, c);
    }
    var frontier' := base + Reverse(listing);
    forall c
      ensures c in frontier' <==> c in base || c in ready
    {
      assert c in listing <==> c in Elements(listing);
    }
    forall i, j | 0 <= i < j < |frontier'|
      ensures frontier'[i] != frontier'[j]
    {
      if i < n <= j {
        assert frontier'[j] == Reverse(listing)[j - n];
        assert frontier'[j] in Reverse(listing);
        assert frontier'[j] in Elements(listing);
        assert frontier'[i] in base;
      } else if n <= i {
        assert frontier'[i] == Reverse(listing)[i - n] && frontier'[j] == Reverse(listing)[j - n];
      }
    }
    assert id !in base;
  }

  /** One round keeps the loop state. */
  lemma StepKeepsKahn(g: Graph, needed: set<Id>, order: seq<Id>, frontier: seq<Id>)
    requires KahnInv(g, needed, order, frontier) && frontier != []
    ensures KahnInv(g, needed, order + [frontier[|frontier| - 1]], NextFrontier(g, needed, order, frontier))
  {
    StepOrder(g, needed, order, frontier);
    StepFrontier(g, needed, order, frontier);
    var n := |frontier| - 1;
    var id, base := frontier[n], frontier[..n];
    var order', frontier' := order + [id], NextFrontier(g, needed, order, frontier);
    assert frontier == base + [id];
    forall c | c in needed
      ensures AllIn(Deps(g, c), order') <==> c in order' || c in frontier'
    {
      if AllIn(Deps(g, c), order') && !AllIn(Deps(g, c), order) {
        assert c in Ready(g, needed, order, id);
      }
    }
  }

  lemma FrontierLeavesRoom(g: Graph, needed: set<Id>, order: seq<Id>, frontier: seq<Id>)
    requires KahnInv(g, needed, order, frontier)
    ensures |order| + (if frontier == [] then 0 else 1) <= |needed|
  {
    ElementsCount(order);
    if frontier == [] {
      SubsetCount(Elements(order), needed);
    } else {
      var id := frontier[|frontier| - 1];
      assert id in frontier;
      SubsetCount(Elements(order), needed - {id});
    }
  }

  /** The order Kahn's algorithm produces from a loop state: a function of the graph alone. */
  ghost function KahnFrom(g: Graph, needed: set<Id>, order: seq<Id>, frontier: seq<Id>): seq<Id>
    requires KahnInv(g, needed, order, frontier)
    decreases |needed| - |order|
  {
    FrontierLeavesRoom(g, needed, order, frontier);
    if frontier == [] then order else
    StepKeepsKahn(g, needed, order, frontier);
    KahnFrom(g, needed, order + [frontier[|frontier| - 1]], NextFrontier(g, needed, order, frontier))
  }

  /** The ids without dependencies, last one first. */
  ghost function Roots(g: Graph, needed: set<Id>): seq<Id> {
    Reverse(Listing(set c | c in needed && Deps(g, c) == []))
  }

  lemma RootsStartKahn(g: Graph, needed: set<Id>)
    ensures KahnInv(g, needed, [], Roots(g, needed))
  {
    var roots := set c | c in needed && Deps(g, c) == [];
    var listing := Listing(roots);
    SortedHasNoDuplicates(listing);
    ReverseKeepsElements(listing);
    forall c
      ensures c in Roots(g, needed) <==> c in roots
    {
      assert c in listing <==> c in Elements(listing);
    }
    forall c | c in needed
      ensures AllIn(Deps(g, c), []) <==> c in Roots(g, needed)
    {
      if Deps(g, c) != [] {
        assert Deps(g, c)[0] in Deps(g, c);
      }
    }
  }

  ghost function KahnOrder(g: Graph, needed: set<Id>): seq<Id> {
    RootsStartKahn(g, needed);
    KahnFrom(g, needed, [], Roots(g, needed))
  }

  lemma {:induction false} KahnEnds(g: Graph, needed: set<Id>, order: seq<Id>, frontier: seq<Id>)
    requires KahnInv(g, needed, order, frontier)
    ensures KahnInv(g, needed, KahnFrom(g, needed, order, frontier), [])
    decreases |needed| - |order|
  {
    FrontierLeavesRoom(g, needed, order, frontier);
    if frontier != [] {
      StepKeepsKahn(g, needed, order, frontier);
      KahnEnds(g, needed, order + [frontier[|frontier| - 1]], NextFrontier(g, needed, order, frontier));
    }
  }

  lemma RestHasNoSinks(g: Graph, needed: set<Id>, order: seq<Id>)
    requires Closed(g, needed) && KahnInv(g, needed, order, [])
    ensures NoSinks(g, needed - Elements(order))
  {
    var rest := needed - Elements(order);
    forall c | c in rest
      ensures HasDepIn(g, c, rest)
    {
      assert !AllIn(Deps(g, c), order);
      var d :| d in Deps(g, c) && d !in order;
      assert d in rest;
    }
  }

  lemma LeftoverHasNoSinks(g: Graph, target: Id, needed: set<Id>, order: seq<Id>)
    requires IsNeeded(g, target, needed) && KahnInv(g, needed, order, [])
    ensures NoSinks(g, needed - Elements(order))
  {
    NeededIsClosed(g, target, needed);
    RestHasNoSinks(g, needed, order);
  }

  lemma NeededCycle(g: Graph, target: Id, needed: set<Id>, p: seq<Id>)
    requires IsNeeded(g, target, needed)
    requires Walk(g, p) && |p| >= 2 && p[0] == p[|p| - 1] && p[0] in needed
    ensures HasCycle(g, target)
  {
    assert Reaches(g, target, p[0]);
  }

  /** When the frontier is exhausted, what is left over contains a cycle. */
  lemma LeftoverHasCycle(g: Graph, target: Id, needed: set<Id>, order: seq<Id>)
    requires IsNeeded(g, target, needed) && KahnInv(g, needed, order, []) && Elements(order) != needed
    ensures HasCycle(g, target)
  {
    var rest := needed - Elements(order);
    assert rest != {} by {
      assert Elements(order) <= needed;
      assert needed == rest + Elements(order);
    }
    LeftoverHasNoSinks(g, target, needed, order);
    var start :| start in rest;
    CycleInside(g, rest, start);
    var p :| Walk(g, p) && |p| >= 2 && p[0] == p[|p| - 1] && p[0] in rest;
    NeededCycle(g, target, needed, p);
  }

  /** Kahn's order lists every needed id exactly when there is no cycle, and then it is a chain. */
  lemma KahnIsComplete(g: Graph, target: Id, needed: set<Id>)
    requires IsNeeded(g, target, needed)
    ensures |KahnOrder(g, needed)| == |needed| <==> !HasCycle(g, target)
    ensures |KahnOrder(g, needed)| == |needed| ==> IsChain(g, target, KahnOrder(g, needed))
  {
    RootsStartKahn(g, needed);
    KahnEnds(g, needed, [], Roots(g, needed));
    var order := KahnOrder(g, needed);
    ElementsCount(order);
    SubsetCount(Elements(order), needed);
    if Elements(order) == needed {
      CompleteOrderIsChain(g, target, order);
    } else {
      LeftoverHasCycle(g, target, needed, order);
    }
  }
}
