/** The cycle gate: a three-colour depth-first topological sort over the
    dependency map. `visiting` holds the in-progress ids, `visited` the
    finished ones, `order` the finished ids in finishing order. The search is
    written functionally: `None` is the source's early `return false`. */
module TopoSort {
  import opened Wrappers
  import opened Seqs
  import opened Graph
  import opened DepGraph

  datatype DfsState = DfsState(visiting: set<NodeId>, visited: set<NodeId>, order: seq<NodeId>)

  /** Every id the dependency map mentions. */
  ghost function Universe(g: Adjacency): set<NodeId> {
    g.Keys + (set k, i | k in g && 0 <= i < |g[k]| :: g[k][i])
  }

  /** A walk along dependencies: each id depends on the next one. */
  ghost predicate DepPath(g: Adjacency, p: seq<NodeId>) {
    forall i :: 0 <= i < |p| - 1 ==> p[i + 1] in Deps(g, p[i])
  }

  /** A closed dependency walk. */
  ghost predicate IsCycle(g: Adjacency, p: seq<NodeId>) {
    |p| >= 2 && p[0] == p[|p| - 1] && DepPath(g, p)
  }

  /** Some id depends on itself, directly or through other ids. */
  ghost predicate HasCycle(g: Adjacency) {
    exists p :: IsCycle(g, p)
  }

  /** Every id in `order` comes after all of its dependencies. */
  ghost predicate DepsFirst(g: Adjacency, order: seq<NodeId>) {
    forall i, j :: 0 <= i < |order| && 0 <= j < |Deps(g, order[i])| ==>
      Deps(g, order[i])[j] in order[..i]
  }

  /** A topological order of the graph: no id twice, every node present,
      dependencies first. */
  ghost predicate ValidOrder(g: Adjacency, nodes: seq<Node>, order: seq<NodeId>) {
    && NoDup(order)
    && (forall j :: 0 <= j < |nodes| ==> nodes[j].id in order)
    && DepsFirst(g, order)
  }

  /** What the search keeps true between steps. */
  ghost predicate Inv(g: Adjacency, st: DfsState) {
    && st.visiting !! st.visited
    && st.visiting <= Universe(g)
    && NoDup(st.order)
    && (forall x :: x in st.order <==> x in st.visited)
    && DepsFirst(g, st.order)
  }

  /** The in-progress ids, in the order they were entered, form a walk. */
  ghost predicate StackOk(g: Adjacency, st: DfsState, stack: seq<NodeId>) {
    (forall x :: x in stack <==> x in st.visiting) && DepPath(g, stack)
  }

  /** A successful step leaves the in-progress set as it found it and only
      adds finished ids. */
  ghost predicate Extends(st: DfsState, st': DfsState) {
    st'.visiting == st.visiting && st.visited <= st'.visited && st.order <= st'.order
  }

  /** Marks `n` finished once its dependencies are. */
  function Finish(st: DfsState, n: NodeId): DfsState {
    DfsState(st.visiting - {n}, st.visited + {n}, st.order + [n])
  }

  /** `visit(nodeId)`: `None` when an in-progress id is re-entered. On
      success `n` is finished and the invariant holds; on failure the graph
      has a cycle. */
  function Visit(g: Adjacency, n: NodeId, st: DfsState, ghost stack: seq<NodeId>): (r: Option<DfsState>)
    requires Inv(g, st) && StackOk(g, st, stack)
    requires |stack| > 0 ==> n in Deps(g, stack[|stack| - 1])
    ensures r.Some? ==> Inv(g, r.value) && Extends(st, r.value) && n in r.value.visited
    ensures r.None? ==> HasCycle(g)
    decreases |Universe(g) - st.visiting|, 2
  {
    if n in st.visiting then
      CycleFromStack(g, st, stack, n);
      None
    else if n in st.visited then Some(st)
    else VisitFresh(g, n, st, stack)
  }

  /** `visit` on an id neither finished nor in progress: enter it, visit
      its dependencies, finish it. */
  function VisitFresh(g: Adjacency, n: NodeId, st: DfsState, ghost stack: seq<NodeId>): (r: Option<DfsState>)
    requires Inv(g, st) && StackOk(g, st, stack) && n !in st.visiting && n !in st.visited
    requires |stack| > 0 ==> n in Deps(g, stack[|stack| - 1])
    ensures r.Some? ==> Inv(g, r.value) && Extends(st, r.value) && n in r.value.visited
    ensures r.None? ==> HasCycle(g)
    decreases |Universe(g) - st.visiting|, 1
  {
    if |Deps(g, n)| == 0 then
      FinishKeepsInv(g, st, st, n);
      Some(Finish(st, n))
    else VisitDeps(g, n, st, stack)
  }

  /** Entering `n`, visiting its dependencies in order, then finishing it. */
  function VisitDeps(g: Adjacency, n: NodeId, st: DfsState, ghost stack: seq<NodeId>): (r: Option<DfsState>)
    requires Inv(g, st) && StackOk(g, st, stack) && n !in st.visiting && n !in st.visited
    requires |stack| > 0 ==> n in Deps(g, stack[|stack| - 1])
    requires |Deps(g, n)| > 0
    ensures r.Some? ==> Inv(g, r.value) && Extends(st, r.value) && n in r.value.visited
    ensures r.None? ==> HasCycle(g)
    decreases |Universe(g) - st.visiting|, 0
  {
    var entered := DfsState(st.visiting + {n}, st.visited, st.order);
    Enter(g, st, stack, n);
    match VisitList(g, Deps(g, n), entered, stack + [n])
    case None => None
    case Some(st1) =>
      FinishAfterDeps(g, st, st1, n);
      Some(Finish(st1, n))
  }

  /** Finishing `n` once the loop over its dependencies returned. */
  lemma FinishAfterDeps(g: Adjacency, st: DfsState, st1: DfsState, n: NodeId)
    requires Inv(g, st) && n !in st.visiting && n !in st.visited
    requires Inv(g, st1) && Extends(DfsState(st.visiting + {n}, st.visited, st.order), st1)
    requires forall j :: 0 <= j < |Deps(g, n)| ==> Deps(g, n)[j] in st1.visited
    ensures Inv(g, Finish(st1, n)) && Extends(st, Finish(st1, n)) && n in Finish(st1, n).visited
  {
    FinishKeepsInv(g, st, st1, n);
  }

  /** Entering `n` keeps the invariant, extends the walk and shrinks the
      ids left to enter. */
  lemma Enter(g: Adjacency, st: DfsState, stack: seq<NodeId>, n: NodeId)
    requires Inv(g, st) && StackOk(g, st, stack) && n !in st.visiting && n !in st.visited
    requires |stack| > 0 ==> n in Deps(g, stack[|stack| - 1])
    requires |Deps(g, n)| > 0
    ensures var e := DfsState(st.visiting + {n}, st.visited, st.order);
            Inv(g, e) && StackOk(g, e, stack + [n])
            && |Universe(g) - e.visiting| < |Universe(g) - st.visiting|
            && (stack + [n])[|stack|] == n
  {
    assert n in Universe(g);
    assert Universe(g) - (st.visiting + {n}) == (Universe(g) - st.visiting) - {n};
    var p := stack + [n];
    forall i | 0 <= i < |p| - 1 ensures p[i + 1] in Deps(g, p[i]) {
      if i < |stack| - 1 {
        assert p[i] == stack[i] && p[i + 1] == stack[i + 1];
      }
    }
  }

  /** The `for (const dep of dependencies)` loop of `visit`. */
  function VisitList(g: Adjacency, deps: seq<NodeId>, st: DfsState, ghost stack: seq<NodeId>): (r: Option<DfsState>)
    requires Inv(g, st) && StackOk(g, st, stack) && |stack| > 0
    requires forall j :: 0 <= j < |deps| ==> deps[j] in Deps(g, stack[|stack| - 1])
    ensures r.Some? ==> Inv(g, r.value) && Extends(st, r.value)
    ensures r.Some? ==> forall j :: 0 <= j < |deps| ==> deps[j] in r.value.visited
    ensures r.None? ==> HasCycle(g)
    decreases |Universe(g) - st.visiting|, 3, |deps|
  {
    if |deps| == 0 then Some(st)
    else
      match Visit(g, deps[0], st, stack)
      case None => None
      case Some(st1) => VisitList(g, deps[1..], st1, stack)
  }

  /** Finishing `n` after its dependencies keeps the invariant. */
  lemma FinishKeepsInv(g: Adjacency, st: DfsState, st1: DfsState, n: NodeId)
    requires Inv(g, st) && n !in st.visiting && n !in st.visited
    requires Inv(g, st1) && st1.visiting - {n} == st.visiting && st.visited <= st1.visited
    requires st.order <= st1.order && n !in st1.visited
    requires forall j :: 0 <= j < |Deps(g, n)| ==> Deps(g, n)[j] in st1.visited
    ensures Inv(g, Finish(st1, n)) && Extends(st, Finish(st1, n)) && n in Finish(st1, n).visited
  {
    var o := st1.order + [n];
    assert o[..|st1.order|] == st1.order;
    forall i, j | 0 <= i < |o| && 0 <= j < |Deps(g, o[i])|
      ensures Deps(g, o[i])[j] in o[..i]
    {
      if i < |st1.order| {
        assert o[..i] == st1.order[..i];
      }
    }
    assert st.order <= o;
  }

  /** Re-entering an in-progress id closes a cycle: the walk from its first
      entry to the top of the stack, and back. */
  lemma CycleFromStack(g: Adjacency, st: DfsState, stack: seq<NodeId>, n: NodeId)
    requires StackOk(g, st, stack) && n in st.visiting
    requires |stack| > 0 ==> n in Deps(g, stack[|stack| - 1])
    ensures HasCycle(g)
  {
    var k :| 0 <= k < |stack| && stack[k] == n;
    var p := stack[k..] + [n];
    forall i | 0 <= i < |p| - 1 ensures p[i + 1] in Deps(g, p[i]) {
      if i < |stack| - k - 1 {
        assert p[i] == stack[k + i] && p[i + 1] == stack[k + i + 1];
      }
    }
    assert IsCycle(g, p);
  }

  /** The outer `for (const node of this.nodes)` loop. */
  function SortFrom(g: Adjacency, nodes: seq<Node>, i: nat, st: DfsState): (r: Option<seq<NodeId>>)
    requires i <= |nodes| && Inv(g, st) && st.visiting == {}
    requires forall j :: 0 <= j < i ==> nodes[j].id in st.visited
    ensures r.Some? ==> ValidOrder(g, nodes, r.value)
    ensures r.None? ==> HasCycle(g)
    decreases |nodes| - i
  {
    if i == |nodes| then
      assert forall j :: 0 <= j < |nodes| ==> nodes[j].id in st.order;
      Some(st.order)
    else if nodes[i].id in st.visited then SortFrom(g, nodes, i + 1, st)
    else
      match Visit(g, nodes[i].id, st, [])
      case None => None
      case Some(st1) => SortFrom(g, nodes, i + 1, st1)
  }

  /** `topologicalSort`: the empty sequence when a cycle is found, otherwise
      a topological order of every id reached. With a non-empty node list the
      result is empty only when the dependency map has a cycle, and, for a
      map keyed by node ids only, always when it has one. */
  function TopologicalSort(g: Adjacency, nodes: seq<Node>): (r: seq<NodeId>)
    ensures r == [] && |nodes| > 0 ==> HasCycle(g)
    ensures !(r == [] && |nodes| > 0) ==> ValidOrder(g, nodes, r)
    ensures g.Keys <= NodeIds(nodes) && HasCycle(g) ==> r == [] && |nodes| > 0
  {
    match SortFrom(g, nodes, 0, DfsState({}, {}, []))
    case None => []
    case Some(order) =>
      ValidOrderAcyclic(g, nodes, order);
      assert |nodes| > 0 ==> nodes[0].id in order;
      order
  }

  /** A topological order that places every key rules out a cycle. */
  lemma ValidOrderAcyclic(g: Adjacency, nodes: seq<Node>, order: seq<NodeId>)
    requires ValidOrder(g, nodes, order)
    ensures g.Keys <= NodeIds(nodes) ==> !HasCycle(g)
  {
    if g.Keys <= NodeIds(nodes) && HasCycle(g) {
      var p :| IsCycle(g, p);
      forall i | 0 <= i < |p| - 1 ensures DescendingStep(order, p, i) {
        DependencyPrecedes(g, nodes, order, p[i], p[i + 1]);
      }
      Descends(order, p, |p| - 1);
    }
  }

  /** A dependency of a key sits strictly earlier in a topological order. */
  lemma DependencyPrecedes(g: Adjacency, nodes: seq<Node>, order: seq<NodeId>, a: NodeId, d: NodeId)
    requires ValidOrder(g, nodes, order) && g.Keys <= NodeIds(nodes)
    requires d in Deps(g, a)
    ensures a in order && d in order && IndexOf(order, d) < IndexOf(order, a)
  {
    assert a in NodeIds(nodes);
    var m :| 0 <= m < |nodes| && nodes[m].id == a;
    var k := IndexOf(order, a);
    var j :| 0 <= j < |Deps(g, a)| && Deps(g, a)[j] == d;
    assert d in order[..k];
    var q :| 0 <= q < k && order[..k][q] == d;
    IndexOfUnique(order, q);
  }

  /** Positions strictly decrease along a walk whose every step does. */
  lemma {:induction false} Descends(order: seq<NodeId>, p: seq<NodeId>, m: nat)
    requires 1 <= m < |p|
    requires forall i :: 0 <= i < |p| - 1 ==> DescendingStep(order, p, i)
    ensures p[0] in order && p[m] in order && IndexOf(order, p[m]) < IndexOf(order, p[0])
  {
    assert DescendingStep(order, p, m - 1);
    if m > 1 { Descends(order, p, m - 1); }
  }

  /** Step `i` of walk `p` goes strictly earlier in `order`. */
  ghost predicate DescendingStep(order: seq<NodeId>, p: seq<NodeId>, i: nat)
    requires i < |p| - 1
  {
    p[i] in order && p[i + 1] in order && IndexOf(order, p[i + 1]) < IndexOf(order, p[i])
  }
}
