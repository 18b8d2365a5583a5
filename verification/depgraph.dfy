/** The derived dependency maps: for every node, which ids feed it
    (`forward`, the source's `dependencyGraph`) and which ids it feeds
    (`backward`, the source's `reverseGraph`). A JavaScript `Set` is modelled
    as a duplicate-free sequence in insertion order. */
module DepGraph {
  import opened Wrappers
  import opened Seqs
  import opened Graph

  type Adjacency = map<NodeId, seq<NodeId>>

  datatype DependencyGraph = DependencyGraph(forward: Adjacency, backward: Adjacency)

  /** `dependencyGraph.get(id) || []`: what `id` depends on. */
  function Deps(g: Adjacency, id: NodeId): seq<NodeId> {
    if id in g then g[id] else []
  }

  /** Every node id mapped to an empty set. */
  function EmptyAdjacency(nodes: seq<Node>): (a: Adjacency)
    ensures a.Keys == NodeIds(nodes)
    ensures forall k :: k in a ==> a[k] == []
  {
    map k | k in NodeIds(nodes) :: []
  }

  /** `map.get(key)?.add(value)`: nothing happens for an unknown key. */
  function AddDependency(a: Adjacency, key: NodeId, value: NodeId): (r: Adjacency)
    ensures r.Keys == a.Keys
  {
    if key in a then a[key := AddUnique(a[key], value)] else a
  }

  /** One iteration of the edge loop: the target depends on the source and
      the source feeds the target. */
  function ApplyEdge(g: DependencyGraph, e: Edge): DependencyGraph {
    DependencyGraph(AddDependency(g.forward, e.target, e.source),
                    AddDependency(g.backward, e.source, e.target))
  }

  /** The sources of the edges entering `t`, in edge order, repeats kept. */
  function SourcesInto(edges: seq<Edge>, t: NodeId): seq<NodeId> {
    if |edges| == 0 then []
    else
      var last := edges[|edges| - 1];
      SourcesInto(edges[..|edges| - 1], t) + (if last.target == t then [last.source] else [])
  }

  /** The targets of the edges leaving `s`, in edge order, repeats kept. */
  function TargetsFrom(edges: seq<Edge>, s: NodeId): seq<NodeId> {
    if |edges| == 0 then []
    else
      var last := edges[|edges| - 1];
      TargetsFrom(edges[..|edges| - 1], s) + (if last.source == s then [last.target] else [])
  }

  /** `buildDependencyGraph`: start from an empty entry per node and apply the
      edges in order. Each entry is the first-occurrence order of the edges
      touching that node, whatever the other edges are; an edge whose target
      (resp. source) is not a node adds nothing to `forward` (resp.
      `backward`). */
  function BuildDependencyGraph(nodes: seq<Node>, edges: seq<Edge>): (g: DependencyGraph)
    ensures g.forward.Keys == NodeIds(nodes) && g.backward.Keys == NodeIds(nodes)
    ensures forall t :: t in g.forward ==> g.forward[t] == Dedup(SourcesInto(edges, t))
    ensures forall s :: s in g.backward ==> g.backward[s] == Dedup(TargetsFrom(edges, s))
  {
    if |edges| == 0 then DependencyGraph(EmptyAdjacency(nodes), EmptyAdjacency(nodes))
    else
      var init := edges[..|edges| - 1];
      var e := edges[|edges| - 1];
      assert edges == init + [e];
      var prev := BuildDependencyGraph(nodes, init);
      var r := ApplyEdge(prev, e);
      assert forall t :: t in r.forward ==> r.forward[t] == Dedup(SourcesInto(edges, t)) by {
        forall t | t in r.forward ensures r.forward[t] == Dedup(SourcesInto(edges, t)) {
          ForwardStep(prev.forward, init, e, t);
        }
      }
      assert forall s :: s in r.backward ==> r.backward[s] == Dedup(TargetsFrom(edges, s)) by {
        forall s | s in r.backward ensures r.backward[s] == Dedup(TargetsFrom(edges, s)) {
          BackwardStep(prev.backward, init, e, s);
        }
      }
      r
  }

  lemma ForwardStep(prev: Adjacency, init: seq<Edge>, e: Edge, t: NodeId)
    requires t in prev && prev[t] == Dedup(SourcesInto(init, t))
    ensures AddDependency(prev, e.target, e.source)[t] == Dedup(SourcesInto(init + [e], t))
  {
    var all := init + [e];
    assert all[..|all| - 1] == init;
    if e.target == t {
      assert SourcesInto(all, t) == SourcesInto(init, t) + [e.source];
      DedupStep(SourcesInto(init, t), e.source);
    } else {
      assert SourcesInto(all, t) == SourcesInto(init, t);
    }
  }

  lemma BackwardStep(prev: Adjacency, init: seq<Edge>, e: Edge, s: NodeId)
    requires s in prev && prev[s] == Dedup(TargetsFrom(init, s))
    ensures AddDependency(prev, e.source, e.target)[s] == Dedup(TargetsFrom(init + [e], s))
  {
    var all := init + [e];
    assert all[..|all| - 1] == init;
    if e.source == s {
      assert TargetsFrom(all, s) == TargetsFrom(init, s) + [e.target];
      DedupStep(TargetsFrom(init, s), e.target);
    } else {
      assert TargetsFrom(all, s) == TargetsFrom(init, s);
    }
  }

  /** Deduplicating one more element is adding it to the set. */
  lemma DedupStep(s: seq<NodeId>, x: NodeId)
    ensures Dedup(s + [x]) == AddUnique(Dedup(s), x)
  {
    assert (s + [x])[..|s|] == s;
  }

  /** Sources-into membership: `x` feeds `t` through some edge. */
  lemma {:induction false} SourcesIntoMembership(edges: seq<Edge>, t: NodeId, x: NodeId)
    ensures x in SourcesInto(edges, t) <==>
            exists i :: 0 <= i < |edges| && edges[i].target == t && edges[i].source == x
  {
    if |edges| > 0 {
      var init := edges[..|edges| - 1];
      SourcesIntoMembership(init, t, x);
      if x in SourcesInto(init, t) {
        var i :| 0 <= i < |init| && init[i].target == t && init[i].source == x;
        assert edges[i] == init[i];
      }
      if exists i :: 0 <= i < |edges| && edges[i].target == t && edges[i].source == x {
        var i :| 0 <= i < |edges| && edges[i].target == t && edges[i].source == x;
        if i < |init| { assert init[i] == edges[i]; }
      }
    }
  }

  /** Targets-from membership: `s` feeds `x` through some edge. */
  lemma {:induction false} TargetsFromMembership(edges: seq<Edge>, s: NodeId, x: NodeId)
    ensures x in TargetsFrom(edges, s) <==>
            exists i :: 0 <= i < |edges| && edges[i].source == s && edges[i].target == x
  {
    if |edges| > 0 {
      var init := edges[..|edges| - 1];
      TargetsFromMembership(init, s, x);
      if x in TargetsFrom(init, s) {
        var i :| 0 <= i < |init| && init[i].source == s && init[i].target == x;
        assert edges[i] == init[i];
      }
      if exists i :: 0 <= i < |edges| && edges[i].source == s && edges[i].target == x {
        var i :| 0 <= i < |edges| && edges[i].source == s && edges[i].target == x;
        if i < |init| { assert init[i] == edges[i]; }
      }
    }
  }

  /** Membership in the dependency maps, in terms of the edges: `x` is in
      `forward[t]` iff `t` is a node and some edge runs from `x` to `t`;
      `x` is in `backward[s]` iff `s` is a node and some edge runs from `s`
      to `x`. Entries never repeat an id. */
  lemma DependencyMembership(nodes: seq<Node>, edges: seq<Edge>, a: NodeId, x: NodeId)
    ensures var g := BuildDependencyGraph(nodes, edges);
            && (x in Deps(g.forward, a) <==>
                a in NodeIds(nodes) &&
                exists i :: 0 <= i < |edges| && edges[i].target == a && edges[i].source == x)
            && (x in Deps(g.backward, a) <==>
                a in NodeIds(nodes) &&
                exists i :: 0 <= i < |edges| && edges[i].source == a && edges[i].target == x)
            && NoDup(Deps(g.forward, a)) && NoDup(Deps(g.backward, a))
  {
    var g := BuildDependencyGraph(nodes, edges);
    SourcesIntoMembership(edges, a, x);
    TargetsFromMembership(edges, a, x);
    if a in g.forward {
      var d := SourcesInto(edges, a);
      assert x in Dedup(d) <==> x in d by {
        if x in d { var k :| 0 <= k < |d| && d[k] == x; }
        if x in Dedup(d) { var k :| 0 <= k < |Dedup(d)| && Dedup(d)[k] == x; }
      }
      var b := TargetsFrom(edges, a);
      assert x in Dedup(b) <==> x in b by {
        if x in b { var k :| 0 <= k < |b| && b[k] == x; }
        if x in Dedup(b) { var k :| 0 <= k < |Dedup(b)| && Dedup(b)[k] == x; }
      }
    }
  }

  /** Wiring the same two ports twice adds nothing: an edge whose endpoints
      already appear on an earlier edge leaves both maps unchanged. */
  lemma RepeatedEdgeAddsNothing(nodes: seq<Node>, edges: seq<Edge>, e: Edge)
    requires exists i :: 0 <= i < |edges| && edges[i].source == e.source && edges[i].target == e.target
    ensures BuildDependencyGraph(nodes, edges + [e]) == BuildDependencyGraph(nodes, edges)
  {
    var all := edges + [e];
    assert all[..|all| - 1] == edges;
    var g := BuildDependencyGraph(nodes, edges);
    assert BuildDependencyGraph(nodes, all) == ApplyEdge(g, e);
    SourcesIntoMembership(edges, e.target, e.source);
    TargetsFromMembership(edges, e.source, e.target);
    if e.target in g.forward {
      InDedup(SourcesInto(edges, e.target), e.source);
      UnchangedEntry(g.forward, e.target, e.source);
    }
    if e.source in g.backward {
      InDedup(TargetsFrom(edges, e.source), e.target);
      UnchangedEntry(g.backward, e.source, e.target);
    }
  }

  lemma UnchangedEntry(a: Adjacency, key: NodeId, value: NodeId)
    requires key in a && value in a[key]
    ensures AddDependency(a, key, value) == a
  {
    assert AddUnique(a[key], value) == a[key];
    assert a[key := a[key]] == a;
  }

  lemma InDedup(s: seq<NodeId>, x: NodeId)
    requires x in s
    ensures x in Dedup(s)
  {
    var k :| 0 <= k < |s| && s[k] == x;
  }
}
