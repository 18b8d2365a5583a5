/** The editor's pure rules: the data kind of each connection point, which
    connections are admitted, which edges survive a configuration change,
    and how palette entries become nodes. */
module Editor {
  import opened Wrappers
  import opened Seqs
  import opened Graph
  import Statements

  /** `HandleDataType`: what flows through a connection point. */
  datatype PortKind = NumberPort | BooleanPort | ExecutionPort

  /** Which end of an edge a connection point serves. */
  datatype Side = SourceSide | TargetSide

  /** `handle || undefined`: an empty handle id reads as no id. */
  function Normalize(h: Option<string>): (r: Option<string>)
    ensures HandleMatches(r, h) && (r.Some? ==> r.value != "")
  {
    if Falsy(h) then None else h
  }

  /** A condition node configured as `elseif` (`conditionType || 'if'`). */
  predicate IsElseIf(cfg: Config) {
    Statements.ConditionKindOf(cfg) == Some(Statements.ElseIf)
  }

  /** A math node whose effective operator (`operator || '+'`) takes any
      number of inputs. */
  predicate MultiInputMath(cfg: Config) {
    MultiInputOperator(Setting(cfg, "operator", "+"))
  }

  /** The kind a node produces on its outgoing side. */
  function SourceKind(t: NodeType): (k: Option<PortKind>)
    ensures k.None? <==> t == Output || t == Label || t.Other?
    ensures k == Some(BooleanPort) <==> t == Comparison || t == Logical
    ensures k == Some(ExecutionPort) <==> t == Condition
  {
    match t
    case Answer => Some(NumberPort)
    case Score => Some(NumberPort)
    case Sum => Some(NumberPort)
    case Number => Some(NumberPort)
    case Math => Some(NumberPort)
    case Assign => Some(NumberPort)
    case Comparison => Some(BooleanPort)
    case Logical => Some(BooleanPort)
    case Condition => Some(ExecutionPort)
    case _ => None
  }

  /** The kind a node accepts on the incoming handle `handle`. */
  function TargetKind(t: NodeType, cfg: Config, handle: Option<string>): (k: Option<PortKind>)
    ensures k.None? <==> || t == Answer || t == Score || t == Sum || t == Number || t.Other?
                         || (t == Assign && handle != Some("value") && handle != Some("execution"))
    ensures k == Some(ExecutionPort) <==> || t == Label
                                          || ((t == Assign || (t == Condition && IsElseIf(cfg)))
                                              && handle == Some("execution"))
    ensures k == Some(BooleanPort) <==> t == Logical || (t == Condition && !(IsElseIf(cfg) && handle == Some("execution")))
  {
    match t
    case Math => Some(NumberPort)
    case Comparison => Some(NumberPort)
    case Output => Some(NumberPort)
    case Logical => Some(BooleanPort)
    case Condition =>
      if IsElseIf(cfg) && handle == Some("execution") then Some(ExecutionPort) else Some(BooleanPort)
    case Assign =>
      if handle == Some("value") then Some(NumberPort)
      else if handle == Some("execution") then Some(ExecutionPort)
      else None
    case Label => Some(ExecutionPort)
    case _ => None
  }

  /** `getHandleDataType`: the kind of a connection point, `None` for an
      unknown node or a point that carries no kind. */
  function PortKindOf(nodes: seq<Node>, id: NodeId, handle: Option<string>, side: Side): (r: Option<PortKind>)
    ensures id !in NodeIds(nodes) ==> r.None?
  {
    match FindNode(nodes, id)
    case None => None
    case Some(node) =>
      match side
      case SourceSide => SourceKind(node.nodeType)
      case TargetSide => TargetKind(node.nodeType, node.config, handle)
  }

  /** `areHandleTypesCompatible`: both kinds present and equal. */
  predicate Compatible(a: Option<PortKind>, b: Option<PortKind>) {
    a.Some? && b.Some? && a.value == b.value
  }

  /** Compatibility is symmetric and transitive, and a kind is compatible
      with itself exactly when it is present: a point with no kind accepts
      nothing. */
  lemma CompatibleIsPartialEquivalence(a: Option<PortKind>, b: Option<PortKind>, c: Option<PortKind>)
    ensures Compatible(a, a) <==> a.Some?
    ensures Compatible(a, b) ==> Compatible(b, a)
    ensures Compatible(a, b) && Compatible(b, c) ==> Compatible(a, c)
    ensures a.None? ==> !Compatible(a, b) && !Compatible(b, a)
  {
  }

  /** A connection point a node draws, with the kind it declares. */
  datatype RenderedHandle = RenderedHandle(side: Side, handle: Option<string>, kind: PortKind)

  /** The connection points each node component draws: the reference the
      kind table must agree with. */
  function RenderedHandles(node: Node): seq<RenderedHandle> {
    match node.nodeType
    case Answer => [RenderedHandle(SourceSide, None, NumberPort)]
    case Score => [RenderedHandle(SourceSide, None, NumberPort)]
    case Sum => [RenderedHandle(SourceSide, None, NumberPort)]
    case Number => [RenderedHandle(SourceSide, None, NumberPort)]
    case Math =>
      (if MultiInputMath(node.config) then [RenderedHandle(TargetSide, Some("multi-input"), NumberPort)]
       else [RenderedHandle(TargetSide, Some("input-a"), NumberPort), RenderedHandle(TargetSide, Some("input-b"), NumberPort)])
      + [RenderedHandle(SourceSide, None, NumberPort)]
    case Assign =>
      [RenderedHandle(TargetSide, Some("execution"), ExecutionPort), RenderedHandle(TargetSide, Some("value"), NumberPort),
       RenderedHandle(SourceSide, None, NumberPort)]
    case Output => [RenderedHandle(TargetSide, None, NumberPort)]
    case Logical => [RenderedHandle(TargetSide, Some("multi-input"), BooleanPort), RenderedHandle(SourceSide, None, BooleanPort)]
    case Comparison =>
      [RenderedHandle(TargetSide, Some("input-a"), NumberPort), RenderedHandle(TargetSide, Some("input-b"), NumberPort),
       RenderedHandle(SourceSide, None, BooleanPort)]
    case Condition =>
      (if IsElseIf(node.config)
       then [RenderedHandle(TargetSide, Some("condition"), BooleanPort), RenderedHandle(TargetSide, Some("execution"), ExecutionPort)]
       else [RenderedHandle(TargetSide, Some("condition"), BooleanPort)])
      + [RenderedHandle(SourceSide, Some("true"), ExecutionPort), RenderedHandle(SourceSide, Some("false"), ExecutionPort)]
    case Label => [RenderedHandle(TargetSide, None, ExecutionPort)]
    case Other(_) => []
  }

  /** The kind a node's own tables give a point, by side. */
  function KindAt(node: Node, handle: Option<string>, side: Side): Option<PortKind> {
    match side
    case SourceSide => SourceKind(node.nodeType)
    case TargetSide => TargetKind(node.nodeType, node.config, handle)
  }

  lemma {:induction false} DrawnKindAgrees(node: Node, k: nat)
    requires k < |RenderedHandles(node)|
    ensures var h := RenderedHandles(node)[k];
            KindAt(node, Normalize(h.handle), h.side) == Some(h.kind)
  {
    var hs := RenderedHandles(node);
    match node.nodeType
    case Math => {
      if MultiInputMath(node.config) {
        assert hs[k] in [RenderedHandle(TargetSide, Some("multi-input"), NumberPort), RenderedHandle(SourceSide, None, NumberPort)];
      } else {
        assert hs[k] in [RenderedHandle(TargetSide, Some("input-a"), NumberPort), RenderedHandle(TargetSide, Some("input-b"), NumberPort),
                         RenderedHandle(SourceSide, None, NumberPort)];
      }
    }
    case Condition => {
      if IsElseIf(node.config) {
        assert hs[k] in [RenderedHandle(TargetSide, Some("condition"), BooleanPort), RenderedHandle(TargetSide, Some("execution"), ExecutionPort),
                         RenderedHandle(SourceSide, Some("true"), ExecutionPort), RenderedHandle(SourceSide, Some("false"), ExecutionPort)];
      } else {
        assert hs[k] in [RenderedHandle(TargetSide, Some("condition"), BooleanPort),
                         RenderedHandle(SourceSide, Some("true"), ExecutionPort), RenderedHandle(SourceSide, Some("false"), ExecutionPort)];
      }
    }
    case _ => {}
  }

  /** The kind the connection check computes for every drawn connection
      point is the kind the node declares for it. */
  lemma RenderedKindsAgree(nodes: seq<Node>, id: NodeId, k: nat)
    requires id in NodeIds(nodes) && k < |RenderedHandles(FindNode(nodes, id).value)|
    ensures var h := RenderedHandles(FindNode(nodes, id).value)[k];
            PortKindOf(nodes, id, Normalize(h.handle), h.side) == Some(h.kind)
  {
    DrawnKindAgrees(FindNode(nodes, id).value, k);
  }

  /** The node draws an incoming connection point with this id. */
  predicate HasTargetHandle(node: Node, h: Option<string>) {
    exists j :: 0 <= j < |RenderedHandles(node)| && RenderedHandles(node)[j].side == TargetSide
                && RenderedHandles(node)[j].handle == h
  }

  /** `isSingleConnection`: the target handle takes at most one edge. */
  predicate IsSingleConnection(target: Node, handle: Option<string>) {
    match target.nodeType
    case Output => true
    case Label => true
    case Condition => true
    case Assign => true
    case Math =>
      var op := Lookup(target.config, "operator");
      (op == Some(Str("-")) || op == Some(Str("/"))) && (handle == Some("input-a") || handle == Some("input-b"))
    case Comparison => handle == Some("input-a") || handle == Some("input-b")
    case _ => false
  }

  /** Of the incoming points a node draws, only the `multi-input` points
      and the two inputs of a math node whose stored operator is neither
      `-` nor `/` take more than one edge. */
  lemma {:induction false} SingleDrawnPoints(n: Node, k: nat)
    requires k < |RenderedHandles(n)| && RenderedHandles(n)[k].side == TargetSide
    ensures var h := RenderedHandles(n)[k].handle;
            IsSingleConnection(n, h) <==>
              && h != Some("multi-input")
              && (n.nodeType == Math ==>
                    Lookup(n.config, "operator") == Some(Str("-")) || Lookup(n.config, "operator") == Some(Str("/")))
  {
    var hs := RenderedHandles(n);
    match n.nodeType
    case Math => {
      if MultiInputMath(n.config) {
        assert hs[k].handle == Some("multi-input");
      } else {
        assert hs[k].handle == Some("input-a") || hs[k].handle == Some("input-b");
      }
    }
    case Comparison => {
      assert hs[k].handle == Some("input-a") || hs[k].handle == Some("input-b");
    }
    case Logical => {
      assert hs[k].handle == Some("multi-input");
    }
    case Condition => {
      if IsElseIf(n.config) {
        assert hs[k].handle == Some("condition") || hs[k].handle == Some("execution");
      } else {
        assert hs[k].handle == Some("condition");
      }
    }
    case Assign => {
      assert hs[k].handle == Some("execution") || hs[k].handle == Some("value");
    }
    case _ => {}
  }

  /** Matching handles are equally single. */
  lemma SingleRespectsMatching(target: Node, a: Option<string>, b: Option<string>)
    requires HandleMatches(a, b)
    ensures IsSingleConnection(target, a) == IsSingleConnection(target, b)
  {
  }

  /** A connection request from the canvas. */
  datatype Connection = Connection(
    source: Option<NodeId>,
    target: Option<NodeId>,
    sourceHandle: Option<string>,
    targetHandle: Option<string>)

  /** Some edge already enters `target` on a handle matching `handle`. */
  function Occupied(edges: seq<Edge>, target: NodeId, handle: Option<string>): (b: bool)
    ensures b <==> exists k :: 0 <= k < |edges| && edges[k].target == target
                               && HandleMatches(edges[k].targetHandle, handle)
  {
    if |edges| == 0 then false
    else
      assert forall k :: 1 <= k < |edges| ==> edges[k] == edges[1..][k - 1];
      (edges[0].target == target && HandleMatches(edges[0].targetHandle, handle)) || Occupied(edges[1..], target, handle)
  }

  /** The outcome of the admission check. */
  datatype Verdict = Accepted | MissingEndpoint | UnknownEndpoint | IncompatibleKinds | HandleTaken

  /** The kinds on both ends of a connection. */
  function ConnectionKinds(nodes: seq<Node>, conn: Connection): (Option<PortKind>, Option<PortKind>)
    requires conn.source.Some? && conn.target.Some?
  {
    (PortKindOf(nodes, conn.source.value, Normalize(conn.sourceHandle), SourceSide),
     PortKindOf(nodes, conn.target.value, Normalize(conn.targetHandle), TargetSide))
  }

  /** `onConnect`'s checks, in order: both endpoints named, both known, the
      kinds compatible, and a single-connection target handle still free. */
  function Admission(nodes: seq<Node>, edges: seq<Edge>, conn: Connection): (v: Verdict)
    ensures v == MissingEndpoint <==> Falsy(conn.source) || Falsy(conn.target)
    ensures v == UnknownEndpoint <==>
              !Falsy(conn.source) && !Falsy(conn.target)
              && (conn.source.value !in NodeIds(nodes) || conn.target.value !in NodeIds(nodes))
    ensures v == IncompatibleKinds <==>
              && !Falsy(conn.source) && !Falsy(conn.target)
              && conn.source.value in NodeIds(nodes) && conn.target.value in NodeIds(nodes)
              && !Compatible(ConnectionKinds(nodes, conn).0, ConnectionKinds(nodes, conn).1)
    ensures v == HandleTaken <==>
              && !Falsy(conn.source) && !Falsy(conn.target)
              && conn.source.value in NodeIds(nodes) && conn.target.value in NodeIds(nodes)
              && Compatible(ConnectionKinds(nodes, conn).0, ConnectionKinds(nodes, conn).1)
              && IsSingleConnection(FindNode(nodes, conn.target.value).value, conn.targetHandle)
              && exists k :: 0 <= k < |edges| && edges[k].target == conn.target.value
                             && HandleMatches(edges[k].targetHandle, conn.targetHandle)
    ensures v == Accepted <==>
              && !Falsy(conn.source) && !Falsy(conn.target)
              && conn.source.value in NodeIds(nodes) && conn.target.value in NodeIds(nodes)
              && Compatible(ConnectionKinds(nodes, conn).0, ConnectionKinds(nodes, conn).1)
              && (IsSingleConnection(FindNode(nodes, conn.target.value).value, conn.targetHandle) ==>
                    forall k :: 0 <= k < |edges| && edges[k].target == conn.target.value ==>
                                  !HandleMatches(edges[k].targetHandle, conn.targetHandle))
  {
    if Falsy(conn.source) || Falsy(conn.target) then MissingEndpoint
    else if FindNode(nodes, conn.source.value).None? || FindNode(nodes, conn.target.value).None? then UnknownEndpoint
    else
      var kinds := ConnectionKinds(nodes, conn);
      if !Compatible(kinds.0, kinds.1) then IncompatibleKinds
      else if IsSingleConnection(FindNode(nodes, conn.target.value).value, conn.targetHandle)
              && Occupied(edges, conn.target.value, conn.targetHandle) then HandleTaken
      else Accepted
  }

  /** The edge an admitted connection adds. */
  function NewEdge(conn: Connection, edgeId: string): Edge
    requires conn.source.Some? && conn.target.Some?
  {
    Edge(edgeId, conn.source.value, conn.target.value, conn.sourceHandle, conn.targetHandle)
  }

  /** The same connection is already drawn: equal endpoints and matching
      handles on both ends. */
  predicate SameConnection(e: Edge, f: Edge) {
    e.source == f.source && e.target == f.target
    && HandleMatches(e.sourceHandle, f.sourceHandle) && HandleMatches(e.targetHandle, f.targetHandle)
  }

  /** Appending an edge, skipping one that duplicates an existing
      connection (the canvas library's `addEdge`). */
  function AddEdge(edges: seq<Edge>, e: Edge): (r: seq<Edge>)
    ensures (exists k :: 0 <= k < |edges| && SameConnection(edges[k], e)) ==> r == edges
    ensures (forall k :: 0 <= k < |edges| ==> !SameConnection(edges[k], e)) ==> r == edges + [e]
  {
    if exists k :: 0 <= k < |edges| && SameConnection(edges[k], e) then edges else edges + [e]
  }

  /** `onConnect`: a rejected connection leaves the edges unchanged, an
      admitted one adds its edge unless it is already drawn. */
  function Connect(nodes: seq<Node>, edges: seq<Edge>, conn: Connection, edgeId: string): (r: seq<Edge>)
    ensures Admission(nodes, edges, conn) != Accepted ==> r == edges
    ensures Admission(nodes, edges, conn) == Accepted ==> r == AddEdge(edges, NewEdge(conn, edgeId))
    ensures r == edges || (|r| == |edges| + 1 && r[..|edges|] == edges)
  {
    if Admission(nodes, edges, conn) == Accepted then AddEdge(edges, NewEdge(conn, edgeId)) else edges
  }

  /** Every edge joins points of compatible kinds. */
  ghost predicate WellTyped(nodes: seq<Node>, edges: seq<Edge>) {
    forall k :: 0 <= k < |edges| ==> EdgeTyped(nodes, edges[k])
  }

  ghost predicate EdgeTyped(nodes: seq<Node>, e: Edge) {
    Compatible(PortKindOf(nodes, e.source, Normalize(e.sourceHandle), SourceSide),
               PortKindOf(nodes, e.target, Normalize(e.targetHandle), TargetSide))
  }

  /** No two edges share a single-connection target handle. */
  ghost predicate SingleProducers(nodes: seq<Node>, edges: seq<Edge>) {
    forall j, k :: 0 <= j < k < |edges| && SharedTarget(nodes, edges[j], edges[k]) ==>
      !IsSingleConnection(FindNode(nodes, edges[k].target).value, edges[k].targetHandle)
  }

  /** Two edges entering the same known node on matching handles. */
  ghost predicate SharedTarget(nodes: seq<Node>, e: Edge, f: Edge) {
    e.target == f.target && f.target in NodeIds(nodes) && HandleMatches(e.targetHandle, f.targetHandle)
  }

  /** Every edge into a known node ends at a connection point that node
      draws. */
  ghost predicate TargetsAttached(nodes: seq<Node>, edges: seq<Edge>) {
    forall k :: 0 <= k < |edges| && edges[k].target in NodeIds(nodes) ==>
      HasTargetHandle(FindNode(nodes, edges[k].target).value, edges[k].targetHandle)
  }

  /** Connecting keeps every edge well typed and every single-connection
      handle with at most one producer; a connection dragged onto a drawn
      point keeps every edge attached. */
  lemma ConnectPreservesInvariants(nodes: seq<Node>, edges: seq<Edge>, conn: Connection, edgeId: string)
    requires WellTyped(nodes, edges) && SingleProducers(nodes, edges)
    ensures var r := Connect(nodes, edges, conn, edgeId);
            WellTyped(nodes, r) && SingleProducers(nodes, r)
    ensures TargetsAttached(nodes, edges)
            && (conn.target.Some? && conn.target.value in NodeIds(nodes) ==>
                  HasTargetHandle(FindNode(nodes, conn.target.value).value, conn.targetHandle))
            ==> TargetsAttached(nodes, Connect(nodes, edges, conn, edgeId))
  {
    var r := Connect(nodes, edges, conn, edgeId);
    if Admission(nodes, edges, conn) == Accepted && r != edges {
      var e := NewEdge(conn, edgeId);
      assert r == edges + [e];
      assert EdgeTyped(nodes, e);
      AppendKeepsInvariants(nodes, edges, e);
      AppendKeepsAttached(nodes, edges, e);
    }
  }

  /** Appending a well-typed edge that shares no single-connection handle
      keeps both invariants. */
  lemma AppendKeepsInvariants(nodes: seq<Node>, edges: seq<Edge>, e: Edge)
    requires WellTyped(nodes, edges) && SingleProducers(nodes, edges) && EdgeTyped(nodes, e)
    requires forall j :: 0 <= j < |edges| && SharedTarget(nodes, edges[j], e) ==>
               !IsSingleConnection(FindNode(nodes, e.target).value, e.targetHandle)
    ensures WellTyped(nodes, edges + [e]) && SingleProducers(nodes, edges + [e])
  {
    var r := edges + [e];
    forall j, k | 0 <= j < k < |r| && SharedTarget(nodes, r[j], r[k])
      ensures !IsSingleConnection(FindNode(nodes, r[k].target).value, r[k].targetHandle)
    {
      assert r[j] == edges[j];
      if k < |edges| {
        assert r[k] == edges[k];
      }
    }
    assert forall k :: 0 <= k < |edges| ==> r[k] == edges[k];
  }

  /** Appending an edge that ends at a drawn point keeps every edge
      attached. */
  lemma AppendKeepsAttached(nodes: seq<Node>, edges: seq<Edge>, e: Edge)
    ensures TargetsAttached(nodes, edges)
            && (e.target in NodeIds(nodes) ==> HasTargetHandle(FindNode(nodes, e.target).value, e.targetHandle))
            ==> TargetsAttached(nodes, edges + [e])
  {
    assert forall k :: 0 <= k < |edges| ==> (edges + [e])[k] == edges[k];
  }

  /** `preserveConnections` and `clearConnections`: which edges of the
      updated node survive. */
  datatype EdgePolicy = EdgePolicy(preserve: set<string>, clear: set<string>)

  /** Same arity class, or any comparison or logical operator change. */
  const KeepAll := EdgePolicy({"all"}, {})
  /** Math arity change: drop the inputs, keep the outputs. */
  const ClearInputs := EdgePolicy({"output"}, {"input"})
  /** `if` ↔ `elseif`: drop the execution input, keep the rest. */
  const SwapConditionKind := EdgePolicy({"condition", "output"}, {"execution"})
  /** Any other condition-type change: neither list names anything. */
  const NoLists := EdgePolicy({}, {})

  /** `(config.key as string) || ''`, kept as the raw value. */
  function OrEmpty(cfg: Config, key: string): Scalar {
    if key in cfg && Truthy(cfg[key]) then cfg[key] else Str("")
  }

  /** A raw operator value that is `+` or `*`. */
  predicate MultiInputValue(v: Option<Scalar>) {
    v == Some(Str("+")) || v == Some(Str("*"))
  }

  /** The math decision as written: the old operator defaults to `''`,
      the new one is read raw. */
  function MathPolicyAsWritten(before: Config, after: Config): (p: Option<EdgePolicy>)
    ensures var o, n := Some(OrEmpty(before, "operator")), Lookup(after, "operator");
            && (p.None? <==> o == n)
            && (p == Some(ClearInputs) <==> MultiInputValue(o) != MultiInputValue(n))
            && (p.Some? ==> p == Some(ClearInputs) || p == Some(KeepAll))
  {
    var o := Some(OrEmpty(before, "operator"));
    var n := Lookup(after, "operator");
    if o == n then None
    else if MultiInputValue(o) == MultiInputValue(n) then Some(KeepAll)
    else Some(ClearInputs)
  }

  /** The math decision on the effective operator (`operator || '+'`), the
      one the node's drawing, the property panel and the compiler use. */
  function MathPolicy(before: Config, after: Config): (p: Option<EdgePolicy>)
    ensures MultiInputMath(before) != MultiInputMath(after) ==> p == Some(ClearInputs)
    ensures MultiInputMath(before) == MultiInputMath(after) ==> p != Some(ClearInputs)
    ensures p.None? <==> Setting(before, "operator", "+") == Setting(after, "operator", "+")
    ensures p.Some? ==> p == Some(ClearInputs) || p == Some(KeepAll)
  {
    if Setting(before, "operator", "+") == Setting(after, "operator", "+") then None
    else if MultiInputMath(before) == MultiInputMath(after) then Some(KeepAll)
    else Some(ClearInputs)
  }

  /** A condition switched between `if` and `elseif`, the old type read
      with `''` for a missing one and the new one raw. */
  predicate SwapsConditionKind(before: Config, after: Config) {
    var o, n := OrEmpty(before, "conditionType"), Lookup(after, "conditionType");
    (o == Str("if") && n == Some(Str("elseif"))) || (o == Str("elseif") && n == Some(Str("if")))
  }

  /** The decisions for the other node types, shared by both versions. */
  function OtherPolicy(t: NodeType, before: Config, after: Config): (p: Option<EdgePolicy>)
    ensures t == Condition ==>
              && (p.None? <==> Some(OrEmpty(before, "conditionType")) == Lookup(after, "conditionType"))
              && (p == Some(SwapConditionKind) <==> SwapsConditionKind(before, after))
              && (p.Some? ==> p == Some(SwapConditionKind) || p == Some(NoLists))
    ensures t == Comparison || t == Logical ==>
              && (p.None? <==> Some(OrEmpty(before, "operator")) == Lookup(after, "operator"))
              && (p.Some? ==> p == Some(KeepAll))
    ensures t != Condition && t != Comparison && t != Logical ==> p.None?
  {
    match t
    case Condition =>
      if Some(OrEmpty(before, "conditionType")) == Lookup(after, "conditionType") then None
      else if SwapsConditionKind(before, after) then Some(SwapConditionKind)
      else Some(NoLists)
    case Comparison => if Some(OrEmpty(before, "operator")) == Lookup(after, "operator") then None else Some(KeepAll)
    case Logical => if Some(OrEmpty(before, "operator")) == Lookup(after, "operator") then None else Some(KeepAll)
    case _ => None
  }

  /** `onUpdateNode`'s decision as written, for any node type. */
  function PolicyAsWritten(t: NodeType, before: Config, after: Config): (p: Option<EdgePolicy>)
    ensures p == Some(ClearInputs) <==>
              t == Math && MultiInputValue(Some(OrEmpty(before, "operator"))) != MultiInputValue(Lookup(after, "operator"))
    ensures p == Some(SwapConditionKind) <==> t == Condition && SwapsConditionKind(before, after)
    ensures p == Some(NoLists) ==> t == Condition
    ensures t != Math && t != Condition && t != Comparison && t != Logical ==> p.None?
  {
    if t == Math then MathPolicyAsWritten(before, after) else OtherPolicy(t, before, after)
  }

  /** The decision with the corrected math rule. */
  function Policy(t: NodeType, before: Config, after: Config): (p: Option<EdgePolicy>)
    ensures p == Some(ClearInputs) <==> t == Math && MultiInputMath(before) != MultiInputMath(after)
    ensures p == Some(SwapConditionKind) <==> t == Condition && SwapsConditionKind(before, after)
    ensures p == Some(NoLists) ==> t == Condition
    ensures t != Math && t != Condition && t != Comparison && t != Logical ==> p.None?
  {
    if t == Math then MathPolicy(before, after) else OtherPolicy(t, before, after)
  }

  /** The filter's verdict on an edge entering the updated node. */
  predicate KeepsIncoming(h: Option<string>, p: EdgePolicy) {
    if "all" in p.preserve then true
    else if "input" in p.clear then false
    else if "execution" in p.clear && h == Some("execution") then false
    else if "condition" in p.preserve && h == Some("condition") then true
    else if "input" in p.preserve then true
    else (if Falsy(h) then "default" else h.value) !in p.clear
  }

  /** The filter's verdict on an edge leaving the updated node. */
  predicate KeepsOutgoing(p: EdgePolicy) {
    "all" in p.preserve || "output" in p.preserve || "output" !in p.clear
  }

  /** The filter's verdict on any edge: edges not touching `id` stay. */
  predicate KeepsEdge(e: Edge, id: NodeId, p: EdgePolicy) {
    if e.target == id then KeepsIncoming(e.targetHandle, p)
    else if e.source == id then KeepsOutgoing(p)
    else true
  }

  /** What each policy does to the node's own edges. */
  lemma PolicyEffects(h: Option<string>)
    ensures KeepsIncoming(h, KeepAll) && KeepsOutgoing(KeepAll)
    ensures !KeepsIncoming(h, ClearInputs) && KeepsOutgoing(ClearInputs)
    ensures KeepsIncoming(h, SwapConditionKind) <==> h != Some("execution")
    ensures KeepsOutgoing(SwapConditionKind)
    ensures KeepsIncoming(h, NoLists) && KeepsOutgoing(NoLists)
  {
  }

  /** The edge filter: the kept edges, in their order. */
  function PruneEdges(edges: seq<Edge>, id: NodeId, p: EdgePolicy): (r: seq<Edge>)
    ensures |r| <= |edges|
    ensures forall e :: e in r <==> e in edges && KeepsEdge(e, id, p)
    ensures (forall k :: 0 <= k < |edges| ==> KeepsEdge(edges[k], id, p)) ==> r == edges
  {
    if |edges| == 0 then []
    else
      var rest := PruneEdges(edges[1..], id, p);
      assert forall k :: 1 <= k < |edges| ==> edges[k] == edges[1..][k - 1];
      assert forall e :: e in edges <==> e == edges[0] || e in edges[1..];
      if KeepsEdge(edges[0], id, p) then [edges[0]] + rest else rest
  }

  /** The edges after the decision: unchanged when there is none. */
  function ApplyPolicy(edges: seq<Edge>, id: NodeId, p: Option<EdgePolicy>): (r: seq<Edge>)
    ensures forall e :: e in edges && e.source != id && e.target != id ==> e in r
    ensures forall e :: e in r ==> e in edges
    ensures p.None? || p == Some(KeepAll) || p == Some(NoLists) ==> r == edges
    ensures p == Some(ClearInputs) ==> forall e :: e in edges ==> (e in r <==> e.target != id)
    ensures p == Some(SwapConditionKind) ==>
              forall e :: e in edges ==> (e in r <==> e.target != id || e.targetHandle != Some("execution"))
  {
    if p.Some? then
      forall h ensures KeepsIncoming(h, KeepAll) && KeepsIncoming(h, NoLists) && !KeepsIncoming(h, ClearInputs)
                       && (KeepsIncoming(h, SwapConditionKind) <==> h != Some("execution")) {
        PolicyEffects(h);
      }
      PruneEdges(edges, id, p.value)
    else edges
  }

  /** The edges the filter keeps, as a mask over `edges`. */
  ghost function KeptMask(edges: seq<Edge>, id: NodeId, p: EdgePolicy): seq<bool> {
    seq(|edges|, j requires 0 <= j < |edges| => KeepsEdge(edges[j], id, p))
  }

  /** The filter keeps the kept edges in their order, repeats included:
      its result is `edges` at the kept positions. */
  lemma PruneKeepsOrder(edges: seq<Edge>, id: NodeId, p: EdgePolicy)
    ensures var pos, r := Positions(KeptMask(edges, id, p), 0), PruneEdges(edges, id, p);
            |r| == |pos| && forall k :: 0 <= k < |pos| ==> r[k] == edges[pos[k]]
  {
    var parts := seq(|edges| + 1, j requires 0 <= j <= |edges| => PruneEdges(edges[j..], id, p));
    PruneSteps(edges, id, p, parts);
    FilterByMask(KeptMask(edges, id, p), edges, parts, 0);
    assert edges[0..] == edges;
  }

  /** Each edge's contribution to `PruneEdges`. */
  lemma PruneSteps(edges: seq<Edge>, id: NodeId, p: EdgePolicy, parts: seq<seq<Edge>>)
    requires |parts| == |edges| + 1
    requires forall j :: 0 <= j <= |edges| ==> parts[j] == PruneEdges(edges[j..], id, p)
    ensures forall j :: 0 <= j < |edges| ==> FilterStep(KeptMask(edges, id, p), edges, parts, j)
  {
    forall j | 0 <= j < |edges|
      ensures FilterStep(KeptMask(edges, id, p), edges, parts, j)
    {
      assert edges[j..][1..] == edges[j + 1..];
      assert parts[j + 1] == PruneEdges(edges[j + 1..], id, p);
    }
  }

  /** `data: { ...node.data, ...newData }`: every node with the id takes the
      patch's configuration when the patch carries one. */
  function SetConfig(nodes: seq<Node>, id: NodeId, patch: Option<Config>): (r: seq<Node>)
    ensures |r| == |nodes|
    ensures forall k :: 0 <= k < |nodes| ==>
              r[k] == (if nodes[k].id == id && patch.Some? then nodes[k].(config := patch.value) else nodes[k])
  {
    if |nodes| == 0 then []
    else
      var n := nodes[0];
      assert forall k :: 1 <= k < |nodes| ==> nodes[k] == nodes[1..][k - 1];
      [if n.id == id && patch.Some? then n.(config := patch.value) else n] + SetConfig(nodes[1..], id, patch)
  }

  /** The configuration the decision reads: `{ ...oldConfig, ...patch }`. */
  function Merged(before: Config, patch: Option<Config>): Config {
    before + patch.GetOr(map[])
  }

  /** `onUpdateNode` as written: store the patch, then filter the node's
      edges by the decision on the raw values. Unrelated edges always
      stay; comparison and logical changes keep every edge; a math change
      drops exactly the node's inputs when the old operator (`''` when
      missing) and the new one (read raw) differ in being `+` or `*`, and
      keeps every edge otherwise; an `if` / `elseif` switch drops exactly
      its execution inputs, any other condition change keeps every edge. */
  function UpdateNodeAsWritten(nodes: seq<Node>, edges: seq<Edge>, id: NodeId, patch: Option<Config>): (r: (seq<Node>, seq<Edge>))
    ensures id !in NodeIds(nodes) ==> r == (nodes, edges)
    ensures id in NodeIds(nodes) ==> r.0 == SetConfig(nodes, id, patch)
    ensures forall e :: e in edges && e.source != id && e.target != id ==> e in r.1
    ensures forall e :: e in r.1 ==> e in edges
    ensures id in NodeIds(nodes) ==>
              var before := FindNode(nodes, id).value;
              var after := Merged(before.config, patch);
              var o, n := Some(OrEmpty(before.config, "operator")), Lookup(after, "operator");
              && (before.nodeType != Math && before.nodeType != Condition ==> r.1 == edges)
              && (before.nodeType == Math && MultiInputValue(o) == MultiInputValue(n) ==> r.1 == edges)
              && (before.nodeType == Math && MultiInputValue(o) != MultiInputValue(n) ==>
                    forall e :: e in edges ==> (e in r.1 <==> e.target != id))
              && (before.nodeType == Condition && !SwapsConditionKind(before.config, after) ==> r.1 == edges)
              && (before.nodeType == Condition && SwapsConditionKind(before.config, after) ==>
                    forall e :: e in edges ==> (e in r.1 <==> e.target != id || e.targetHandle != Some("execution")))
  {
    match FindNode(nodes, id)
    case None => (nodes, edges)
    case Some(before) =>
      var p := PolicyAsWritten(before.nodeType, before.config, Merged(before.config, patch));
      WrittenEdgeOutcome(before.nodeType, before.config, Merged(before.config, patch), edges, id);
      (SetConfig(nodes, id, patch), ApplyPolicy(edges, id, p))
  }

  /** The edges the decision as written leaves, by node type. */
  lemma WrittenEdgeOutcome(t: NodeType, before: Config, after: Config, edges: seq<Edge>, id: NodeId)
    ensures var kept := ApplyPolicy(edges, id, PolicyAsWritten(t, before, after));
            var o, n := Some(OrEmpty(before, "operator")), Lookup(after, "operator");
            && (t != Math && t != Condition ==> kept == edges)
            && (t == Math && MultiInputValue(o) == MultiInputValue(n) ==> kept == edges)
            && (t == Math && MultiInputValue(o) != MultiInputValue(n) ==>
                  forall e :: e in edges ==> (e in kept <==> e.target != id))
            && (t == Condition && !SwapsConditionKind(before, after) ==> kept == edges)
            && (t == Condition && SwapsConditionKind(before, after) ==>
                  forall e :: e in edges ==> (e in kept <==> e.target != id || e.targetHandle != Some("execution")))
  {
  }

  /** `onUpdateNode` with the math decision taken on the effective
      operator (`operator || '+'`) on both sides; every other decision is
      the one written. */
  function UpdateNode(nodes: seq<Node>, edges: seq<Edge>, id: NodeId, patch: Option<Config>): (r: (seq<Node>, seq<Edge>))
    ensures id !in NodeIds(nodes) ==> r == (nodes, edges)
    ensures id in NodeIds(nodes) ==> r.0 == SetConfig(nodes, id, patch)
    ensures forall e :: e in edges && e.source != id && e.target != id ==> e in r.1
    ensures forall e :: e in r.1 ==> e in edges
    ensures id in NodeIds(nodes) ==>
              var before := FindNode(nodes, id).value;
              var after := Merged(before.config, patch);
              && (before.nodeType != Math && before.nodeType != Condition ==> r.1 == edges)
              && (before.nodeType == Math && MultiInputMath(before.config) == MultiInputMath(after) ==> r.1 == edges)
              && (before.nodeType == Math && MultiInputMath(before.config) != MultiInputMath(after) ==>
                    forall e :: e in edges ==> (e in r.1 <==> e.target != id))
              && (before.nodeType == Condition && !SwapsConditionKind(before.config, after) ==> r.1 == edges)
              && (before.nodeType == Condition && SwapsConditionKind(before.config, after) ==>
                    forall e :: e in edges ==> (e in r.1 <==> e.target != id || e.targetHandle != Some("execution")))
  {
    match FindNode(nodes, id)
    case None => (nodes, edges)
    case Some(before) =>
      var p := Policy(before.nodeType, before.config, Merged(before.config, patch));
      CorrectedEdgeOutcome(before.nodeType, before.config, Merged(before.config, patch), edges, id);
      (SetConfig(nodes, id, patch), ApplyPolicy(edges, id, p))
  }

  /** The edges the corrected decision leaves, by node type. */
  lemma CorrectedEdgeOutcome(t: NodeType, before: Config, after: Config, edges: seq<Edge>, id: NodeId)
    ensures var kept := ApplyPolicy(edges, id, Policy(t, before, after));
            && (t != Math && t != Condition ==> kept == edges)
            && (t == Math && MultiInputMath(before) == MultiInputMath(after) ==> kept == edges)
            && (t == Math && MultiInputMath(before) != MultiInputMath(after) ==>
                  forall e :: e in edges ==> (e in kept <==> e.target != id))
            && (t == Condition && !SwapsConditionKind(before, after) ==> kept == edges)
            && (t == Condition && SwapsConditionKind(before, after) ==>
                  forall e :: e in edges ==> (e in kept <==> e.target != id || e.targetHandle != Some("execution")))
  {
  }

  /** The two versions differ only in reading a missing or empty operator:
      when the math node had a non-empty operator stored and the patch
      leaves a non-empty one, they produce the same nodes and edges. */
  lemma AsWrittenAgreesOnStoredOperators(nodes: seq<Node>, edges: seq<Edge>, id: NodeId, patch: Option<Config>)
    requires id in NodeIds(nodes)
    requires var before := FindNode(nodes, id).value;
             var after := Merged(before.config, patch);
             before.nodeType == Math ==>
               && "operator" in before.config && Truthy(before.config["operator"])
               && "operator" in after && Truthy(after["operator"])
    ensures UpdateNodeAsWritten(nodes, edges, id, patch) == UpdateNode(nodes, edges, id, patch)
  {
    var before := FindNode(nodes, id).value;
    var after := Merged(before.config, patch);
    if before.nodeType == Math {
      StoredOperatorsAgree(before.config, after);
    }
  }

  /** With both operators stored and non-empty, the two math decisions
      agree on clearing the inputs, and otherwise both keep every edge. */
  lemma StoredOperatorsAgree(before: Config, after: Config)
    requires "operator" in before && Truthy(before["operator"])
    requires "operator" in after && Truthy(after["operator"])
    ensures var w, c := MathPolicyAsWritten(before, after), MathPolicy(before, after);
            w == c || ((w.None? || w == Some(KeepAll)) && (c.None? || c == Some(KeepAll)))
  {
    NumbersAreNotWords();
    var o, n := before["operator"], after["operator"];
    assert OrEmpty(before, "operator") == o && Lookup(after, "operator") == Some(n);
    assert MultiInputValue(Some(o)) == MultiInputMath(before);
    assert MultiInputValue(Some(n)) == MultiInputMath(after);
  }

  /** Looking a node up after `SetConfig` finds the same node, with the
      patch's configuration when it is the updated one. */
  lemma {:induction false} SetConfigFind(nodes: seq<Node>, id: NodeId, patch: Option<Config>, x: NodeId)
    ensures var r := FindNode(SetConfig(nodes, id, patch), x);
            r == (if x == id && patch.Some? && FindNode(nodes, x).Some?
                  then Some(FindNode(nodes, x).value.(config := patch.value)) else FindNode(nodes, x))
  {
    if |nodes| > 0 {
      var r := SetConfig(nodes, id, patch);
      assert r[1..] == SetConfig(nodes[1..], id, patch);
      SetConfigFind(nodes[1..], id, patch, x);
    }
  }

  /** A number never renders as `elseif`, `+` or `*`: it starts with a sign
      or a digit. */
  lemma NumbersAreNotWords()
    ensures forall n :: IntToDecimal(n) != "elseif"
    ensures forall n :: !MultiInputOperator(IntToDecimal(n))
  {
    forall n ensures IntToDecimal(n) != "elseif" && !MultiInputOperator(IntToDecimal(n)) {
      var r := IntToDecimal(n);
      assert r[0] == '-' || '0' <= r[0] <= '9';
    }
  }

  /** A configuration value renders as `elseif` only when it is that
      string: numbers render as digits. */
  lemma ElseIfSetting(cfg: Config)
    requires IsElseIf(cfg)
    ensures OrEmpty(cfg, "conditionType") == Str("elseif")
  {
    NumbersAreNotWords();
  }

  /** A condition leaves `elseif` only by being set to `if`, the other
      choice the property panel offers. */
  predicate LeavesElseIfForIf(before: Node, after: Config) {
    before.nodeType == Condition && IsElseIf(before.config) && !IsElseIf(after) ==>
      Lookup(after, "conditionType") == Some(Str("if"))
  }

  /** An incoming point the node draws that the corrected decision keeps is
      still drawn after the change, with the same kind. */
  lemma DrawnTargetSurvives(before: Node, after: Config, h: Option<string>)
    requires HasTargetHandle(before, h) && LeavesElseIfForIf(before, after)
    ensures var p := Policy(before.nodeType, before.config, after);
            var nw := before.(config := after);
            (p.None? || KeepsIncoming(h, p.value)) ==>
              && HasTargetHandle(nw, h)
              && TargetKind(nw.nodeType, after, Normalize(h)) == TargetKind(before.nodeType, before.config, Normalize(h))
  {
    var nw := before.(config := after);
    var p := Policy(before.nodeType, before.config, after);
    HandlesIgnoreConfig(before, after);
    if before.nodeType == Math {
      if MultiInputMath(before.config) == MultiInputMath(after) {
        assert RenderedHandles(nw) == RenderedHandles(before);
      } else {
        PolicyEffects(h);
      }
    }
    if before.nodeType == Condition {
      if IsElseIf(before.config) == IsElseIf(after) {
        assert RenderedHandles(nw) == RenderedHandles(before);
      } else if IsElseIf(after) {
        assert h == Some("condition");
        assert RenderedHandles(nw)[0].handle == h;
      } else {
        ElseIfSetting(before.config);
        assert p == Some(SwapConditionKind);
        PolicyEffects(h);
        if KeepsIncoming(h, SwapConditionKind) {
          assert h == Some("condition");
          assert RenderedHandles(nw)[0].handle == h;
        }
      }
    }
  }

  /** Only math and condition nodes draw points that depend on their
      configuration. */
  lemma HandlesIgnoreConfig(n: Node, cfg: Config)
    ensures n.nodeType != Math && n.nodeType != Condition ==> RenderedHandles(n.(config := cfg)) == RenderedHandles(n)
    ensures n.nodeType == Math && MultiInputMath(n.config) == MultiInputMath(cfg) ==>
              RenderedHandles(n.(config := cfg)) == RenderedHandles(n)
    ensures n.nodeType == Condition && IsElseIf(n.config) == IsElseIf(cfg) ==>
              RenderedHandles(n.(config := cfg)) == RenderedHandles(n)
  {
  }

  /** One edge the corrected decision keeps stays well typed and attached
      once the node's configuration changes from `before` to `after`. */
  lemma EdgeStaysSound(nodes: seq<Node>, ns: seq<Node>, before: Node, after: Config, e: Edge)
    requires FindNode(nodes, before.id) == Some(before) && LeavesElseIfForIf(before, after)
    requires FindNode(ns, e.source) == (if e.source == before.id then Some(before.(config := after)) else FindNode(nodes, e.source))
    requires FindNode(ns, e.target) == (if e.target == before.id then Some(before.(config := after)) else FindNode(nodes, e.target))
    requires EdgeTyped(nodes, e)
    requires e.target in NodeIds(nodes) ==> HasTargetHandle(FindNode(nodes, e.target).value, e.targetHandle)
    requires e.target == before.id ==>
               var p := Policy(before.nodeType, before.config, after);
               p.None? || KeepsIncoming(e.targetHandle, p.value)
    ensures EdgeTyped(ns, e)
    ensures e.target in NodeIds(ns) ==> HasTargetHandle(FindNode(ns, e.target).value, e.targetHandle)
  {
    assert FindNode(ns, e.source).Some? && FindNode(ns, e.source).value.nodeType == FindNode(nodes, e.source).value.nodeType;
    if e.target == before.id {
      DrawnTargetSurvives(before, after, e.targetHandle);
    } else {
      assert FindNode(ns, e.target) == FindNode(nodes, e.target);
    }
  }

  /** A property-panel edit, `{ ...config, [key]: value }`, through the
      corrected decision keeps every edge well typed and attached to a
      drawn point, provided a condition type is set to `if` or `elseif`. */
  lemma UpdateKeepsEdgesSound(nodes: seq<Node>, edges: seq<Edge>, id: NodeId, key: string, value: Scalar)
    requires id in NodeIds(nodes)
    requires FindNode(nodes, id).value.nodeType == Condition && key == "conditionType" ==>
               value == Str("if") || value == Str("elseif")
    requires WellTyped(nodes, edges) && TargetsAttached(nodes, edges)
    ensures var r := UpdateNode(nodes, edges, id, Some(FindNode(nodes, id).value.config[key := value]));
            WellTyped(r.0, r.1) && TargetsAttached(r.0, r.1)
  {
    var before := FindNode(nodes, id).value;
    var patch := before.config[key := value];
    var after := Merged(before.config, Some(patch));
    assert after == patch;
    assert LeavesElseIfForIf(before, after) by {
      if key != "conditionType" {
        assert Setting(after, "conditionType", "if") == Setting(before.config, "conditionType", "if");
      }
    }
    var r := UpdateNode(nodes, edges, id, Some(patch));
    var p := Policy(before.nodeType, before.config, after);
    assert r.0 == SetConfig(nodes, id, Some(after));
    assert forall e :: e in r.1 ==> e.target == id ==> p.None? || KeepsIncoming(e.targetHandle, p.value) by {
      if p.Some? {
        assert r.1 == PruneEdges(edges, id, p.value);
      }
    }
    KeptEdgesSound(nodes, edges, before, after, r.1);
  }

  /** Edges drawn from `edges` that the corrected decision keeps stay well
      typed and attached once `before` takes the configuration `after`. */
  lemma KeptEdgesSound(nodes: seq<Node>, edges: seq<Edge>, before: Node, after: Config, kept: seq<Edge>)
    requires FindNode(nodes, before.id) == Some(before) && LeavesElseIfForIf(before, after)
    requires WellTyped(nodes, edges) && TargetsAttached(nodes, edges)
    requires forall e :: e in kept ==> e in edges
    requires forall e :: e in kept ==> e.target == before.id ==>
               var p := Policy(before.nodeType, before.config, after);
               p.None? || KeepsIncoming(e.targetHandle, p.value)
    ensures var ns := SetConfig(nodes, before.id, Some(after));
            WellTyped(ns, kept) && TargetsAttached(ns, kept)
  {
    var ns := SetConfig(nodes, before.id, Some(after));
    forall k | 0 <= k < |kept| ensures EdgeTyped(ns, kept[k]) && (kept[k].target in NodeIds(ns) ==>
                                         HasTargetHandle(FindNode(ns, kept[k].target).value, kept[k].targetHandle))
    {
      var e := kept[k];
      assert e in kept;
      var i :| 0 <= i < |edges| && edges[i] == e;
      SetConfigFind(nodes, before.id, Some(after), e.source);
      SetConfigFind(nodes, before.id, Some(after), e.target);
      EdgeStaysSound(nodes, ns, before, after, e);
    }
  }

  /** A math node set to `-` is binary; one with no operator is `+`. */
  lemma MinusIsBinary()
    ensures !MultiInputMath(map["operator" := Str("-")])
    ensures MultiInputMath(map[])
  {
    var cfg := map["operator" := Str("-")];
    assert cfg["operator"] == Str("-");
    assert Setting(cfg, "operator", "+") == "-";
  }

  /** A math node draws `multi-input` exactly when its operator takes any
      number of inputs, and `input-a` exactly when it does not. */
  lemma MathInputs(n: Node)
    requires n.nodeType == Math
    ensures HasTargetHandle(n, Some("multi-input")) <==> MultiInputMath(n.config)
    ensures HasTargetHandle(n, Some("input-a")) <==> !MultiInputMath(n.config)
  {
    var hs := RenderedHandles(n);
    if MultiInputMath(n.config) {
      assert hs[0].handle == Some("multi-input");
      assert forall j :: 0 <= j < |hs| ==> hs[j].handle != Some("input-a");
    } else {
      assert hs[0].handle == Some("input-a");
      assert forall j :: 0 <= j < |hs| ==> hs[j].handle != Some("multi-input");
    }
  }

  /** A math node with no stored operator, fed by an answer through its
      `multi-input` point, and the panel's edit that sets it to `-`. */
  const MissingOperatorNodes := [Node("a", Answer, map[]), Node("m", Math, map[])]
  const MissingOperatorEdges := [Edge("e", "a", "m", None, Some("multi-input"))]
  const MinusPatch: Option<Config> := Some(map["operator" := Str("-")])

  /** Before the edit the example is sound: the node has no operator, so it
      is drawn as `+` with a `multi-input` point. */
  lemma MissingOperatorSound()
    ensures WellTyped(MissingOperatorNodes, MissingOperatorEdges)
    ensures TargetsAttached(MissingOperatorNodes, MissingOperatorEdges)
  {
    var nodes := MissingOperatorNodes;
    assert FindNode(nodes, "a") == Some(nodes[0]);
    assert FindNode(nodes, "m") == Some(nodes[1]);
    MinusIsBinary();
    MathInputs(nodes[1]);
    assert EdgeTyped(nodes, MissingOperatorEdges[0]);
  }

  /** The as-written decision reads the missing operator as `''`, not `+`,
      so switching to `-` keeps the `multi-input` edge, which the binary
      node no longer draws. */
  lemma StaleInputAfterMissingOperator()
    ensures UpdateNodeAsWritten(MissingOperatorNodes, MissingOperatorEdges, "m", MinusPatch).1 == MissingOperatorEdges
    ensures !TargetsAttached(UpdateNodeAsWritten(MissingOperatorNodes, MissingOperatorEdges, "m", MinusPatch).0,
                             MissingOperatorEdges)
  {
    var nodes := MissingOperatorNodes;
    var m := nodes[1];
    var m' := m.(config := MinusPatch.value);
    assert FindNode(nodes, "m") == Some(m);
    assert Merged(m.config, MinusPatch) == m'.config;
    assert MathPolicyAsWritten(m.config, m'.config) == Some(KeepAll);
    PolicyEffects(Some("multi-input"));
    var ns := UpdateNodeAsWritten(nodes, MissingOperatorEdges, "m", MinusPatch).0;
    SetConfigFind(nodes, "m", MinusPatch, "m");
    assert FindNode(ns, "m") == Some(m');
    MinusIsBinary();
    MathInputs(m');
    assert MissingOperatorEdges[0].target == "m";
  }

  /** The corrected decision reads the missing operator as `+`, sees the
      arity change and drops the input. */
  lemma MissingOperatorCorrected()
    ensures UpdateNode(MissingOperatorNodes, MissingOperatorEdges, "m", MinusPatch).1 == []
    ensures TargetsAttached(UpdateNode(MissingOperatorNodes, MissingOperatorEdges, "m", MinusPatch).0,
                            UpdateNode(MissingOperatorNodes, MissingOperatorEdges, "m", MinusPatch).1)
  {
    var nodes := MissingOperatorNodes;
    var m := nodes[1];
    assert FindNode(nodes, "m") == Some(m);
    assert Merged(m.config, MinusPatch) == MinusPatch.value;
    MinusIsBinary();
    assert MathPolicy(m.config, MinusPatch.value) == Some(ClearInputs);
    PolicyEffects(Some("multi-input"));
    assert !KeepsEdge(MissingOperatorEdges[0], "m", ClearInputs);
  }

  /** A `+` math node fed through its `multi-input` point, and the edit
      that empties its operator. */
  const PlusNodes := [Node("a", Answer, map[]), Node("m", Math, map["operator" := Str("+")])]
  const EmptyOperatorPatch: Option<Config> := Some(map["operator" := Str("")])

  /** As written, the empty operator is read raw, which is not `+` or `*`,
      so the edit drops the `multi-input` edge although the node, still
      read as `+`, keeps drawing that point. */
  lemma EmptyOperatorClearsInputs()
    ensures UpdateNodeAsWritten(PlusNodes, MissingOperatorEdges, "m", EmptyOperatorPatch).1 == []
    ensures var ns := UpdateNodeAsWritten(PlusNodes, MissingOperatorEdges, "m", EmptyOperatorPatch).0;
            FindNode(ns, "m").Some? && HasTargetHandle(FindNode(ns, "m").value, Some("multi-input"))
  {
    var nodes := PlusNodes;
    var m := nodes[1];
    var m' := m.(config := EmptyOperatorPatch.value);
    assert FindNode(nodes, "m") == Some(m);
    assert Merged(m.config, EmptyOperatorPatch) == m'.config;
    assert OrEmpty(m.config, "operator") == Str("+");
    assert MathPolicyAsWritten(m.config, m'.config) == Some(ClearInputs);
    PolicyEffects(Some("multi-input"));
    assert !KeepsEdge(MissingOperatorEdges[0], "m", ClearInputs);
    SetConfigFind(nodes, "m", EmptyOperatorPatch, "m");
    assert Setting(m'.config, "operator", "+") == "+";
    MathInputs(m');
  }

  /** On the effective operator the edit changes nothing and the edge
      stays. */
  lemma EmptyOperatorCorrected()
    ensures UpdateNode(PlusNodes, MissingOperatorEdges, "m", EmptyOperatorPatch).1 == MissingOperatorEdges
  {
    var nodes := PlusNodes;
    var m := nodes[1];
    assert FindNode(nodes, "m") == Some(m);
    assert Merged(m.config, EmptyOperatorPatch) == EmptyOperatorPatch.value;
    assert Setting(m.config, "operator", "+") == "+";
    assert Setting(EmptyOperatorPatch.value, "operator", "+") == "+";
  }

  /** The configuration a palette entry starts with (`nodeConfigs`). */
  function DefaultConfig(name: string): Option<Config> {
    if name == "answer" || name == "score" then Some(map["questionId" := Num(1)])
    else if name == "sum" then Some(map[])
    else if name == "number" then Some(map["value" := Num(0)])
    else if name == "math" then Some(map["operator" := Str("+")])
    else if name == "comparison" then Some(map["operator" := Str(">")])
    else if name == "logical" then Some(map["operator" := Str("&&")])
    else if name == "output" then Some(map["outputId" := Num(1)])
    else if name == "label" then Some(map["labelId" := Num(1), "value" := Str("High")])
    else if name == "condition" || name == "if" then Some(map["conditionType" := Str("if")])
    else if name == "elseif" then Some(map["conditionType" := Str("elseif")])
    else if name == "assign" then Some(map["targetOutput" := Num(1)])
    else None
  }

  /** The node type a palette entry creates: `if` and `elseif` are
      condition nodes, every other entry keeps its name. */
  function PaletteType(name: string): (t: NodeType)
    ensures name == "if" || name == "elseif" ==> t == Condition
    ensures name != "if" && name != "elseif" ==> NodeTypeName(t) == name
  {
    if name == "if" || name == "elseif" then Condition
    else
      NameParseRoundTrip(name);
      ParseNodeType(name)
  }

  /** `onAddNode(name, custom)` with the id counter at `counter`: a custom
      configuration wins over the entry's default. */
  function PaletteNode(name: string, custom: Option<Config>, counter: nat): (n: Node)
    ensures n.id == NatToDecimal(counter)
    ensures custom.Some? ==> n.config == custom.value
  {
    var cfg := if custom.Some? then custom.value else DefaultConfig(name).GetOr(map[]);
    Node(NatToDecimal(counter), PaletteType(name), cfg)
  }

  /** The `if` entry creates a chain root of kind `if`; the `elseif` entry
      creates a condition of kind `elseif` that starts no chain. */
  lemma PaletteConditions(counter: nat)
    ensures var n := PaletteNode("if", None, counter);
            n.nodeType == Condition && Statements.ChainRoot(n)
            && Statements.ConditionKindOf(n.config) == Some(Statements.If)
    ensures var n := PaletteNode("elseif", None, counter);
            n.nodeType == Condition && !Statements.ChainRoot(n)
            && Statements.ConditionKindOf(n.config) == Some(Statements.ElseIf) && IsElseIf(n.config)
  {
    assert Setting(PaletteNode("if", None, counter).config, "conditionType", "if") == "if";
    assert Setting(PaletteNode("elseif", None, counter).config, "conditionType", "if") == "elseif";
  }

  /** Every id is the decimal rendering of a counter value below `counter`. */
  predicate IdsBelow(nodes: seq<Node>, counter: nat) {
    forall i :: 0 <= i < |nodes| ==> DecimalId(nodes[i].id) && DecimalValue(nodes[i].id) < counter
  }

  predicate DecimalId(s: string) {
    forall i :: 0 <= i < |s| ==> '0' <= s[i] <= '9'
  }

  /** Adding a node from the palette with the current counter keeps ids
      distinct and the counter ahead of every id. */
  lemma AddNodeKeepsIdsUnique(nodes: seq<Node>, name: string, custom: Option<Config>, counter: nat)
    requires UniqueIds(nodes) && IdsBelow(nodes, counter)
    ensures var r := nodes + [PaletteNode(name, custom, counter)];
            UniqueIds(r) && IdsBelow(r, counter + 1)
  {
    var n := PaletteNode(name, custom, counter);
    var r := nodes + [n];
    DecimalRoundTrip(counter);
    forall i, j | 0 <= i < j < |r| ensures r[i].id != r[j].id {
      if j == |nodes| {
        assert r[i] == nodes[i];
        assert DecimalValue(r[i].id) < counter;
      } else {
        assert r[i] == nodes[i] && r[j] == nodes[j];
      }
    }
    forall i | 0 <= i < |r| ensures DecimalId(r[i].id) && DecimalValue(r[i].id) < counter + 1 {
      if i < |nodes| {
        assert r[i] == nodes[i];
      }
    }
  }
}
