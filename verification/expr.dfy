/** The expression synthesiser (`generateExpression`). An expression is
    first built as a small tree and then rendered; `Render` of the tree is
    exactly the text the source concatenates. The path-local visited set is
    an immutable set, so every fan-out naturally gets its own copy. */
module Expr {
  import opened Wrappers
  import opened Seqs
  import opened Graph
  import opened DepGraph
  import opened TopoSort

  /** The compiler object: the snapshot plus the dependency maps built from
      it by the constructor. */
  datatype Compiler = Compiler(nodes: seq<Node>, edges: seq<Edge>, graph: DependencyGraph)

  /** `new PsyLangCodeGenerator(nodes, edges)`. */
  function NewCompiler(nodes: seq<Node>, edges: seq<Edge>): Compiler
  {
    Compiler(nodes, edges, BuildDependencyGraph(nodes, edges))
  }

  /** The maps are the ones built from the snapshot. */
  predicate WellFormed(c: Compiler) {
    c.graph == BuildDependencyGraph(c.nodes, c.edges)
  }

  datatype Expr =
    | Atom(text: string)                    // leaves and literal defaults
    | CircularRef(id: NodeId)               // id already on the current path
    | UnknownNode(id: NodeId)               // id names no node
    | UnknownExpr(nodeType: string)         // node type with no expression form
    | Infix(op: string, operands: seq<Expr>) // `(a op b op ...)`

  const CircularPrefix := "[循环引用:"
  const UnknownNodePrefix := "[未知节点:"
  const UnknownExprPrefix := "[未知表达式:"

  /** The text of an expression. */
  function Render(e: Expr): string
    decreases e
  {
    match e
    case Atom(t) => t
    case CircularRef(id) => CircularPrefix + id + "]"
    case UnknownNode(id) => UnknownNodePrefix + id + "]"
    case UnknownExpr(t) => UnknownExprPrefix + t + "]"
    case Infix(op, xs) => "(" + Join(RenderAll(xs), " " + op + " ") + ")"
  }

  function RenderAll(xs: seq<Expr>): (r: seq<string>)
    decreases xs
    ensures |r| == |xs|
    ensures forall i :: 0 <= i < |xs| ==> r[i] == Render(xs[i])
  {
    if |xs| == 0 then [] else [Render(xs[0])] + RenderAll(xs[1..])
  }

  /** A two-operand infix expression reads `(L op R)`. */
  lemma RenderBinary(op: string, l: Expr, r: Expr)
    ensures Render(Infix(op, [l, r])) == "(" + Render(l) + " " + op + " " + Render(r) + ")"
  {
    assert RenderAll([l, r])[1..] == [Render(r)];
  }

  /** `getConnectedNode`: the source of the first edge entering `id` on
      handle `handle` (loose handle matching), if any. */
  function GetConnectedNode(edges: seq<Edge>, id: NodeId, handle: Option<string>): (r: Option<NodeId>)
    ensures r.None? <==> forall i :: 0 <= i < |edges| ==>
                           !(edges[i].target == id && HandleMatches(edges[i].targetHandle, handle))
    ensures r.Some? ==> exists i :: 0 <= i < |edges| && edges[i].target == id
                                   && HandleMatches(edges[i].targetHandle, handle)
                                   && edges[i].source == r.value
                                   && forall j :: 0 <= j < i ==>
                                        !(edges[j].target == id && HandleMatches(edges[j].targetHandle, handle))
  {
    if |edges| == 0 then None
    else if edges[0].target == id && HandleMatches(edges[0].targetHandle, handle) then Some(edges[0].source)
    else
      var r := GetConnectedNode(edges[1..], id, handle);
      assert forall i :: 1 <= i < |edges| ==> edges[i] == edges[1..][i - 1];
      if r.Some? then
        var i :| 0 <= i < |edges[1..]| && edges[1..][i].target == id
                 && HandleMatches(edges[1..][i].targetHandle, handle)
                 && edges[1..][i].source == r.value
                 && forall j :: 0 <= j < i ==>
                      !(edges[1..][j].target == id && HandleMatches(edges[1..][j].targetHandle, handle));
        assert edges[i + 1] == edges[1..][i];
        r
      else r
  }

  /** JavaScript truthiness of a looked-up id (`inputA ? … : …`). */
  predicate Present(x: Option<NodeId>) {
    x.Some? && x.value != ""
  }

  /** `generateExpression(id, visited)`. An id already on the path becomes
      the circular-reference marker and an id naming no node the unknown-node
      marker; neither recurses. */
  function GenerateExpression(c: Compiler, id: NodeId, visited: set<NodeId>): (e: Expr)
    ensures id in visited ==> e == CircularRef(id)
    ensures id !in visited && id !in NodeIds(c.nodes) ==> e == UnknownNode(id)
    decreases |NodeIds(c.nodes) - visited|, 0
  {
    if id in visited then CircularRef(id)
    else
      match FindNode(c.nodes, id)
      case None => UnknownNode(id)
      case Some(node) =>
        assert NodeIds(c.nodes) - (visited + {id}) == (NodeIds(c.nodes) - visited) - {id};
        Dispatch(c, node, visited + {id})
  }

  /** The `switch (data.nodeType)` of `generateExpression`, for a known node
      whose id is already on the path `v`. */
  function Dispatch(c: Compiler, node: Node, v: set<NodeId>): (e: Expr)
    ensures node.nodeType == Answer ==> Render(e) == "Answer[" + Setting(node.config, "questionId", "1") + "]"
    ensures node.nodeType == Score ==> Render(e) == "Score[" + Setting(node.config, "questionId", "1") + "]"
    ensures node.nodeType == Number ==> Render(e) == Setting(node.config, "value", "0")
    ensures node.nodeType == Assign ==> e == Operand(c, node.id, "value", v)
    ensures node.nodeType == Comparison ==> e.Infix? && |e.operands| == 2
    ensures node.nodeType == Logical ==> e == Atom("true") || (e.Infix? && |e.operands| >= 2)
    ensures (|| node.nodeType == Sum || node.nodeType == Output || node.nodeType == Label
             || node.nodeType == Condition || node.nodeType.Other?) ==>
              Render(e) == UnknownExprPrefix + NodeTypeName(node.nodeType) + "]"
    decreases |NodeIds(c.nodes) - v|, 2
  {
    var id := node.id;
    var cfg := node.config;
    match node.nodeType
    case Answer => Atom("Answer[" + Setting(cfg, "questionId", "1") + "]")
    case Score => Atom("Score[" + Setting(cfg, "questionId", "1") + "]")
    case Number => Atom(Setting(cfg, "value", "0"))
    case Math =>
      var deps := Deps(c.graph.forward, id);
      if |deps| == 0 then Atom("0")
      else if |deps| == 1 then GenerateExpression(c, deps[0], v)
      else
        var op := Setting(cfg, "operator", "+");
        if MultiInputOperator(op) then Infix(op, GenerateAll(c, deps, v))
        else Infix(op, [Operand(c, id, "input-a", v), Operand(c, id, "input-b", v)])
    case Comparison =>
      Infix(Setting(cfg, "operator", ">"), [Operand(c, id, "input-a", v), Operand(c, id, "input-b", v)])
    case Logical =>
      var deps := Deps(c.graph.forward, id);
      if |deps| < 2 then Atom("true")
      else Infix(Setting(cfg, "operator", "&&"), GenerateAll(c, deps, v))
    case Assign => Operand(c, id, "value", v)
    case _ => UnknownExpr(NodeTypeName(node.nodeType))
  }

  /** The expression fed into `id`'s port `handle`, or the literal `0` when
      the port is unconnected. */
  function Operand(c: Compiler, id: NodeId, handle: string, v: set<NodeId>): Expr
    decreases |NodeIds(c.nodes) - v|, 1
  {
    var src := GetConnectedNode(c.edges, id, Some(handle));
    if Present(src) then GenerateExpression(c, src.value, v) else Atom("0")
  }

  /** `dependencies.map(dep => generateExpression(dep, new Set(visited)))`. */
  function GenerateAll(c: Compiler, deps: seq<NodeId>, v: set<NodeId>): (r: seq<Expr>)
    ensures |r| == |deps|
    decreases |NodeIds(c.nodes) - v|, 1, |deps|
  {
    if |deps| == 0 then []
    else [GenerateExpression(c, deps[0], v)] + GenerateAll(c, deps[1..], v)
  }

  /** The rendered expression, as the source returns it. */
  function ExpressionText(c: Compiler, id: NodeId, visited: set<NodeId>): string {
    Render(GenerateExpression(c, id, visited))
  }

  /** Operands are rendered in dependency order, each from the parent's
      path set. */
  lemma GenerateAllInOrder(c: Compiler, deps: seq<NodeId>, v: set<NodeId>, i: nat)
    requires i < |deps|
    ensures GenerateAll(c, deps, v)[i] == GenerateExpression(c, deps[i], v)
  {
    if i > 0 { GenerateAllInOrder(c, deps[1..], v, i - 1); }
  }

  /** An operand comes from the first edge on its port; an unconnected port
      yields the literal `0`. */
  lemma OperandByPort(c: Compiler, id: NodeId, handle: string, v: set<NodeId>)
    ensures (forall i :: 0 <= i < |c.edges| ==>
               !(c.edges[i].target == id && HandleMatches(c.edges[i].targetHandle, Some(handle))))
            ==> Operand(c, id, handle, v) == Atom("0")
    ensures forall i :: 0 <= i < |c.edges| && c.edges[i].target == id
                        && c.edges[i].targetHandle == Some(handle) && c.edges[i].source != ""
                        && (forall j :: 0 <= j < i ==>
                              !(c.edges[j].target == id && HandleMatches(c.edges[j].targetHandle, Some(handle))))
                        ==> Operand(c, id, handle, v) == GenerateExpression(c, c.edges[i].source, v)
  {
    var src := GetConnectedNode(c.edges, id, Some(handle));
    forall i | 0 <= i < |c.edges| && c.edges[i].target == id
               && c.edges[i].targetHandle == Some(handle) && c.edges[i].source != ""
               && (forall j :: 0 <= j < i ==>
                     !(c.edges[j].target == id && HandleMatches(c.edges[j].targetHandle, Some(handle))))
      ensures Operand(c, id, handle, v) == GenerateExpression(c, c.edges[i].source, v)
    {
      assert src.Some?;
      var k :| 0 <= k < |c.edges| && c.edges[k].target == id
               && HandleMatches(c.edges[k].targetHandle, Some(handle))
               && c.edges[k].source == src.value
               && forall j :: 0 <= j < k ==>
                    !(c.edges[j].target == id && HandleMatches(c.edges[j].targetHandle, Some(handle)));
      if k < i { assert false; }
      if i < k { assert false; }
    }
  }

  /** Math rendering by arity: no input gives `0`, one input passes its
      expression through unchanged, `+`/`*` fold every dependency in
      dependency order, any other operator takes its left operand from port
      `input-a` and its right from `input-b`. */
  lemma MathArity(c: Compiler, id: NodeId, visited: set<NodeId>)
    requires id !in visited && HasType(c.nodes, id, Math)
    ensures var deps := Deps(c.graph.forward, id);
            var v := visited + {id};
            var op := Setting(FindNode(c.nodes, id).value.config, "operator", "+");
            var e := GenerateExpression(c, id, visited);
            && (|deps| == 0 ==> e == Atom("0"))
            && (|deps| == 1 ==> Render(e) == ExpressionText(c, deps[0], v))
            && (|deps| >= 2 && MultiInputOperator(op) ==>
                  e.Infix? && e.op == op && |e.operands| == |deps| &&
                  forall i :: 0 <= i < |deps| ==> e.operands[i] == GenerateExpression(c, deps[i], v))
            && (|deps| >= 2 && !MultiInputOperator(op) ==>
                  Render(e) == "(" + Render(Operand(c, id, "input-a", v)) + " " + op + " "
                               + Render(Operand(c, id, "input-b", v)) + ")")
  {
    var deps := Deps(c.graph.forward, id);
    var v := visited + {id};
    var op := Setting(FindNode(c.nodes, id).value.config, "operator", "+");
    if |deps| >= 2 {
      if MultiInputOperator(op) {
        forall i | 0 <= i < |deps| ensures GenerateAll(c, deps, v)[i] == GenerateExpression(c, deps[i], v) {
          GenerateAllInOrder(c, deps, v, i);
        }
      } else {
        RenderBinary(op, Operand(c, id, "input-a", v), Operand(c, id, "input-b", v));
      }
    }
  }

  /** Comparison rendering: `(L op R)` with `L` from port `input-a`, `R` from
      port `input-b`, and `>` when no operator is configured. */
  lemma ComparisonOperands(c: Compiler, id: NodeId, visited: set<NodeId>)
    requires id !in visited && HasType(c.nodes, id, Comparison)
    ensures var v := visited + {id};
            var cfg := FindNode(c.nodes, id).value.config;
            ExpressionText(c, id, visited)
            == "(" + Render(Operand(c, id, "input-a", v)) + " " + Setting(cfg, "operator", ">") + " "
                   + Render(Operand(c, id, "input-b", v)) + ")"
    ensures "operator" !in FindNode(c.nodes, id).value.config ==>
              Setting(FindNode(c.nodes, id).value.config, "operator", ">") == ">"
  {
    var v := visited + {id};
    var node := FindNode(c.nodes, id).value;
    var cfg := node.config;
    assert GenerateExpression(c, id, visited) == Dispatch(c, node, v);
    RenderBinary(Setting(cfg, "operator", ">"), Operand(c, id, "input-a", v), Operand(c, id, "input-b", v));
  }

  /** Logical rendering: fewer than two inputs give `true`, otherwise every
      dependency is joined in dependency order. */
  lemma LogicalArity(c: Compiler, id: NodeId, visited: set<NodeId>)
    requires id !in visited && HasType(c.nodes, id, Logical)
    ensures var deps := Deps(c.graph.forward, id);
            var v := visited + {id};
            var e := GenerateExpression(c, id, visited);
            && (|deps| < 2 ==> e == Atom("true"))
            && (|deps| >= 2 ==>
                  e.Infix? && |e.operands| == |deps| &&
                  e.op == Setting(FindNode(c.nodes, id).value.config, "operator", "&&") &&
                  forall i :: 0 <= i < |deps| ==> e.operands[i] == GenerateExpression(c, deps[i], v))
  {
    var deps := Deps(c.graph.forward, id);
    var v := visited + {id};
    if |deps| >= 2 {
      forall i | 0 <= i < |deps| ensures GenerateAll(c, deps, v)[i] == GenerateExpression(c, deps[i], v) {
        GenerateAllInOrder(c, deps, v, i);
      }
    }
  }

  /** No circular-reference marker anywhere in the tree. */
  ghost predicate FreeOfCircularRefs(e: Expr)
    decreases e
  {
    match e
    case CircularRef(_) => false
    case Infix(_, xs) => forall i :: 0 <= i < |xs| ==> FreeOfCircularRefs(xs[i])
    case _ => true
  }

  /** `d` sits strictly before `a` in `order`. */
  ghost predicate Precedes(order: seq<NodeId>, d: NodeId, a: NodeId) {
    d in order && a in order && IndexOf(order, d) < IndexOf(order, a)
  }

  /** What the gate gives the synthesiser: every node is placed, every
      dependency of a node precedes it, and every edge into a node is one of
      its dependencies. */
  ghost predicate Ranked(c: Compiler, order: seq<NodeId>) {
    && (forall a :: a in NodeIds(c.nodes) ==> a in order)
    && (forall a, d :: a in NodeIds(c.nodes) && d in Deps(c.graph.forward, a) ==> Precedes(order, d, a))
    && (forall i :: 0 <= i < |c.edges| && c.edges[i].target in NodeIds(c.nodes) ==>
          c.edges[i].source in Deps(c.graph.forward, c.edges[i].target))
  }

  /** A topological order of a well-formed compiler ranks it. */
  lemma ValidOrderRanks(c: Compiler, order: seq<NodeId>)
    requires WellFormed(c) && ValidOrder(c.graph.forward, c.nodes, order)
    ensures Ranked(c, order)
  {
    forall a | a in NodeIds(c.nodes) ensures a in order {
      var k :| 0 <= k < |c.nodes| && c.nodes[k].id == a;
    }
    OrderPrecedes(c, order);
    EdgesAreDependencies(c);
  }

  /** In a topological order every dependency of a node comes first. */
  lemma OrderPrecedes(c: Compiler, order: seq<NodeId>)
    requires WellFormed(c) && ValidOrder(c.graph.forward, c.nodes, order)
    ensures forall a, d :: a in NodeIds(c.nodes) && d in Deps(c.graph.forward, a) ==> Precedes(order, d, a)
  {
    forall a, d | a in NodeIds(c.nodes) && d in Deps(c.graph.forward, a) ensures Precedes(order, d, a) {
      DependencyPrecedes(c.graph.forward, c.nodes, order, a, d);
    }
  }

  /** Every edge into a node makes its source a dependency of that node. */
  lemma EdgesAreDependencies(c: Compiler)
    requires WellFormed(c)
    ensures forall i :: 0 <= i < |c.edges| && c.edges[i].target in NodeIds(c.nodes) ==>
              c.edges[i].source in Deps(c.graph.forward, c.edges[i].target)
  {
    forall i | 0 <= i < |c.edges| && c.edges[i].target in NodeIds(c.nodes)
      ensures c.edges[i].source in Deps(c.graph.forward, c.edges[i].target)
    {
      DependencyMembership(c.nodes, c.edges, c.edges[i].target, c.edges[i].source);
    }
  }

  /** Every id on the path sits later in `order` than `id`. */
  ghost predicate Above(order: seq<NodeId>, visited: set<NodeId>, id: NodeId) {
    forall x :: x in visited ==> x in order && id in order && IndexOf(order, x) > IndexOf(order, id)
  }

  /** Every id on the path sits no earlier in `order` than `id`. */
  ghost predicate NotBelow(order: seq<NodeId>, visited: set<NodeId>, id: NodeId) {
    id in order && forall x :: x in visited ==> x in order && IndexOf(order, x) >= IndexOf(order, id)
  }

  /** The circular-reference guard is defence in depth only: once the graph
      has a topological order (the cycle gate passed), an expression started
      from an empty path, or from any path above it, never meets it. */
  lemma NoCircularRefsAfterGate(c: Compiler, order: seq<NodeId>, id: NodeId)
    requires WellFormed(c) && ValidOrder(c.graph.forward, c.nodes, order)
    ensures FreeOfCircularRefs(GenerateExpression(c, id, {}))
  {
    ValidOrderRanks(c, order);
    NoCircularRefs(c, order, id, {});
  }

  lemma NoCircularRefs(c: Compiler, order: seq<NodeId>, id: NodeId, visited: set<NodeId>)
    requires Ranked(c, order) && Above(order, visited, id)
    ensures FreeOfCircularRefs(GenerateExpression(c, id, visited))
    decreases |NodeIds(c.nodes) - visited|, 0
  {
    if id !in visited && id in NodeIds(c.nodes) {
      var node := FindNode(c.nodes, id).value;
      var v := visited + {id};
      assert NodeIds(c.nodes) - v == (NodeIds(c.nodes) - visited) - {id};
      assert NotBelow(order, v, id);
      NoCircularDispatch(c, order, node, v);
    }
  }

  lemma NoCircularDispatch(c: Compiler, order: seq<NodeId>, node: Node, v: set<NodeId>)
    requires Ranked(c, order) && node.id in NodeIds(c.nodes) && NotBelow(order, v, node.id)
    ensures FreeOfCircularRefs(Dispatch(c, node, v))
    decreases |NodeIds(c.nodes) - v|, 3
  {
    var id := node.id;
    var deps := Deps(c.graph.forward, id);
    match node.nodeType
    case Math =>
      NoCircularMath(c, order, node, v);
    case Comparison =>
      NoCircularOperand(c, order, id, "input-a", v);
      NoCircularOperand(c, order, id, "input-b", v);
    case Logical =>
      if |deps| >= 2 { NoCircularAll(c, order, id, deps, v); }
    case Assign =>
      NoCircularOperand(c, order, id, "value", v);
    case _ =>
  }

  lemma NoCircularMath(c: Compiler, order: seq<NodeId>, node: Node, v: set<NodeId>)
    requires Ranked(c, order) && node.id in NodeIds(c.nodes) && NotBelow(order, v, node.id)
    requires node.nodeType == Math
    ensures FreeOfCircularRefs(Dispatch(c, node, v))
    decreases |NodeIds(c.nodes) - v|, 2
  {
    var id := node.id;
    var deps := Deps(c.graph.forward, id);
    if |deps| == 1 {
      assert Precedes(order, deps[0], id);
      StepBelow(order, v, id, deps[0]);
      NoCircularRefs(c, order, deps[0], v);
    } else if |deps| >= 2 {
      NoCircularAll(c, order, id, deps, v);
      NoCircularOperand(c, order, id, "input-a", v);
      NoCircularOperand(c, order, id, "input-b", v);
    }
  }

  lemma NoCircularOperand(c: Compiler, order: seq<NodeId>, id: NodeId, handle: string, v: set<NodeId>)
    requires Ranked(c, order) && id in NodeIds(c.nodes) && NotBelow(order, v, id)
    ensures FreeOfCircularRefs(Operand(c, id, handle, v))
    decreases |NodeIds(c.nodes) - v|, 1
  {
    var src := GetConnectedNode(c.edges, id, Some(handle));
    if Present(src) {
      var i :| 0 <= i < |c.edges| && c.edges[i].target == id
               && HandleMatches(c.edges[i].targetHandle, Some(handle)) && c.edges[i].source == src.value;
      assert Precedes(order, src.value, id);
      StepBelow(order, v, id, src.value);
      NoCircularRefs(c, order, src.value, v);
    }
  }

  lemma NoCircularAll(c: Compiler, order: seq<NodeId>, id: NodeId, deps: seq<NodeId>, v: set<NodeId>)
    requires Ranked(c, order) && id in NodeIds(c.nodes) && NotBelow(order, v, id)
    requires forall j :: 0 <= j < |deps| ==> deps[j] in Deps(c.graph.forward, id)
    ensures forall j :: 0 <= j < |deps| ==> FreeOfCircularRefs(GenerateAll(c, deps, v)[j])
    decreases |NodeIds(c.nodes) - v|, 1, |deps|
  {
    forall j | 0 <= j < |deps| ensures FreeOfCircularRefs(GenerateAll(c, deps, v)[j]) {
      GenerateAllInOrder(c, deps, v, j);
      assert Precedes(order, deps[j], id);
      StepBelow(order, v, id, deps[j]);
      NoCircularRefs(c, order, deps[j], v);
    }
  }

  /** Moving to an earlier id keeps the whole path above it. */
  lemma StepBelow(order: seq<NodeId>, v: set<NodeId>, id: NodeId, d: NodeId)
    requires NotBelow(order, v, id) && Precedes(order, d, id)
    ensures Above(order, v, d)
  {
  }
}
