/** `generate()`: the cycle gate, the code text built from a banner and two
    optional sections, and the validation warnings. */
module Generator {
  import opened Wrappers
  import opened Seqs
  import opened Graph
  import opened DepGraph
  import opened TopoSort
  import opened Expr
  import opened Statements

  /** `{ code, errors, warnings }`. */
  datatype CodeGenerationResult = CodeGenerationResult(code: string, errors: seq<string>, warnings: seq<string>)

  const CycleError := "检测到循环依赖，无法生成代码"
  const NoInputWarning := "没有输入节点 (Answer/Score)"
  const NoOutputWarning := "没有输出节点 (Output)"
  const UnconnectedPrefix := "发现 "

  const BannerTitle := "# PsyLang Generated Code"
  const BannerCredit := "# Generated by PsyLang Visual Builder"
  const ScoresHeader := "# Calculate scores"
  const ClassificationHeader := "# Classification logic"

  /** The three opening lines of every generated program. */
  function Banner(): seq<string> {
    [BannerTitle, BannerCredit, ""]
  }

  /** `发现 <n> 个未连接的节点`. */
  function UnconnectedWarning(n: nat): (w: string)
    ensures StartsWith(w, UnconnectedPrefix)
  {
    UnconnectedPrefix + NatToDecimal(n) + " 个未连接的节点"
  }

  /** The dependency graph of the edges has a cycle. */
  ghost predicate EdgeCycle(nodes: seq<Node>, edges: seq<Edge>) {
    HasCycle(BuildDependencyGraph(nodes, edges).forward)
  }

  /** The lines of the program: the banner, then the scores section when
      there are assignments, then the classification section when there
      are conditions. */
  function CodeLines(assignments: seq<string>, conditions: seq<string>): (r: seq<string>)
    ensures |r| == 3 + (if assignments != [] then |assignments| + 2 else 0) + (if conditions != [] then |conditions| + 1 else 0)
    ensures r[..3] == Banner()
    ensures assignments != [] ==>
              r[3] == ScoresHeader && r[4..4 + |assignments|] == assignments && r[4 + |assignments|] == ""
    ensures conditions != [] ==>
              r[|r| - |conditions| - 1] == ClassificationHeader && r[|r| - |conditions|..] == conditions
    ensures assignments == [] && conditions == [] ==> r == Banner()
  {
    var b, sc, cl := Banner(), ScoresSection(assignments), ClassificationSection(conditions);
    ConcatParts(b, sc, cl);
    ScoresInside(b, assignments, cl);
    b + sc + cl
  }

  /** The assignments sit right after the scores header, whatever
      surrounds the section. */
  lemma ScoresInside(pre: seq<string>, assignments: seq<string>, post: seq<string>)
    ensures assignments != [] ==>
              (pre + ScoresSection(assignments) + post)[|pre| + 1..|pre| + 1 + |assignments|] == assignments
  {
    if assignments != [] {
      var sc := ScoresSection(assignments);
      ConcatParts(pre, sc, post);
      assert sc[1..1 + |assignments|] == assignments;
    }
  }

  /** A banner or section header line. */
  predicate HeaderLine(l: string) {
    l == BannerTitle || l == BannerCredit || l == ScoresHeader || l == ClassificationHeader
  }

  /** The scores section: its header, the assignments and an empty line. */
  function ScoresSection(assignments: seq<string>): seq<string> {
    if assignments != [] then [ScoresHeader] + assignments + [""] else []
  }

  /** The classification section: its header and the conditions. */
  function ClassificationSection(conditions: seq<string>): seq<string> {
    if conditions != [] then [ClassificationHeader] + conditions else []
  }

  lemma ScoresSectionComments(assignments: seq<string>)
    requires forall k :: 0 <= k < |assignments| ==> StartsWith(assignments[k], "Output[")
    ensures var a := ScoresSection(assignments);
            && (forall k :: 0 <= k < |a| ==> !CommentLine(a[k]) || a[k] == ScoresHeader)
            && (ScoresHeader in a <==> assignments != [])
            && ClassificationHeader !in a
  {
    var a := ScoresSection(assignments);
    forall k | 0 <= k < |a| ensures (!CommentLine(a[k]) || a[k] == ScoresHeader) && a[k] != ClassificationHeader {
      if 1 <= k <= |assignments| {
        assert a[k] == assignments[k - 1];
        assert a[k][0] == 'O';
      }
    }
    if assignments != [] {
      assert a[0] == ScoresHeader;
    }
  }

  lemma ClassificationSectionComments(conditions: seq<string>)
    requires NoComments(conditions)
    ensures var b := ClassificationSection(conditions);
            && (forall k :: 0 <= k < |b| ==> !CommentLine(b[k]) || b[k] == ClassificationHeader)
            && (ClassificationHeader in b <==> conditions != [])
            && ScoresHeader !in b
  {
    var b := ClassificationSection(conditions);
    forall k | 0 <= k < |b| ensures (!CommentLine(b[k]) || b[k] == ClassificationHeader) && b[k] != ScoresHeader {
      if k >= 1 {
        assert b[k] == conditions[k - 1];
        assert !CommentLine(b[k]);
      }
    }
    if conditions != [] {
      assert b[0] == ClassificationHeader;
    }
  }

  /** The only comment lines of the program are the banner's and the
      headers of the sections present; each header appears exactly when
      its section is non-empty. */
  lemma CodeLinesComments(assignments: seq<string>, conditions: seq<string>)
    requires forall k :: 0 <= k < |assignments| ==> StartsWith(assignments[k], "Output[")
    requires NoComments(conditions)
    ensures var r := CodeLines(assignments, conditions);
            && (forall k :: 0 <= k < |r| && CommentLine(r[k]) ==> HeaderLine(r[k]))
            && (ScoresHeader in r <==> assignments != [])
            && (ClassificationHeader in r <==> conditions != [])
  {
    var r := CodeLines(assignments, conditions);
    var a := ScoresSection(assignments);
    var b := ClassificationSection(conditions);
    assert r == Banner() + a + b;
    ScoresSectionComments(assignments);
    ClassificationSectionComments(conditions);
    forall k | 0 <= k < |r| && CommentLine(r[k]) ensures HeaderLine(r[k]) {
      if 3 <= k < 3 + |a| {
        assert r[k] == a[k - 3];
      } else if k >= 3 + |a| {
        assert r[k] == b[k - 3 - |a|];
      }
    }
    assert ScoresHeader !in Banner() && ClassificationHeader !in Banner();
  }

  /** `edges.some(e => e.target === id)`. */
  function HasIncoming(edges: seq<Edge>, id: NodeId): (b: bool)
    ensures b <==> exists k :: 0 <= k < |edges| && edges[k].target == id
  {
    if |edges| == 0 then false
    else
      assert forall k :: 1 <= k < |edges| ==> edges[k] == edges[1..][k - 1];
      edges[0].target == id || HasIncoming(edges[1..], id)
  }

  /** `edges.some(e => e.source === id)`. */
  function HasOutgoing(edges: seq<Edge>, id: NodeId): (b: bool)
    ensures b <==> exists k :: 0 <= k < |edges| && edges[k].source == id
  {
    if |edges| == 0 then false
    else
      assert forall k :: 1 <= k < |edges| ==> edges[k] == edges[1..][k - 1];
      edges[0].source == id || HasOutgoing(edges[1..], id)
  }

  /** A node missing the connections its role needs: inputs need an
      outgoing edge, outputs and labels an incoming one, every other node
      either. */
  predicate Unconnected(edges: seq<Edge>, node: Node) {
    match node.nodeType
    case Answer => !HasOutgoing(edges, node.id)
    case Score => !HasOutgoing(edges, node.id)
    case Output => !HasIncoming(edges, node.id)
    case Label => !HasIncoming(edges, node.id)
    case _ => !HasIncoming(edges, node.id) && !HasOutgoing(edges, node.id)
  }

  /** The positions of the unconnected nodes: the reference for the count. */
  ghost function UnconnectedPositions(nodes: seq<Node>, edges: seq<Edge>, i: nat): set<nat> {
    set j: nat | i <= j < |nodes| && Unconnected(edges, nodes[j])
  }

  /** `unconnectedNodes.length`, counted from node `i` on. */
  function UnconnectedCount(nodes: seq<Node>, edges: seq<Edge>, i: nat): (n: nat)
    requires i <= |nodes|
    ensures n <= |nodes| - i
    ensures n == 0 <==> forall j :: i <= j < |nodes| ==> !Unconnected(edges, nodes[j])
    decreases |nodes| - i
  {
    if i == |nodes| then 0
    else (if Unconnected(edges, nodes[i]) then 1 else 0) + UnconnectedCount(nodes, edges, i + 1)
  }

  /** The count is the number of unconnected positions. */
  lemma {:induction false} UnconnectedCountIsCardinality(nodes: seq<Node>, edges: seq<Edge>, i: nat)
    requires i <= |nodes|
    ensures UnconnectedCount(nodes, edges, i) == |UnconnectedPositions(nodes, edges, i)|
    decreases |nodes| - i
  {
    if i == |nodes| {
      assert UnconnectedPositions(nodes, edges, i) == {};
    } else {
      UnconnectedCountIsCardinality(nodes, edges, i + 1);
      var later := UnconnectedPositions(nodes, edges, i + 1);
      assert i !in later;
      if Unconnected(edges, nodes[i]) {
        assert UnconnectedPositions(nodes, edges, i) == {i} + later;
      } else {
        assert UnconnectedPositions(nodes, edges, i) == later;
      }
    }
  }

  /** Some node is an answer or a score. */
  predicate HasInput(nodes: seq<Node>) {
    exists j :: 0 <= j < |nodes| && (nodes[j].nodeType == Answer || nodes[j].nodeType == Score)
  }

  /** Some node is an output. */
  predicate HasOutput(nodes: seq<Node>) {
    exists j :: 0 <= j < |nodes| && nodes[j].nodeType == Output
  }

  /** The validation warnings, in the source's order. */
  function Warnings(nodes: seq<Node>, edges: seq<Edge>): (w: seq<string>)
    ensures NoInputWarning in w <==> !HasInput(nodes)
    ensures NoOutputWarning in w <==> !HasOutput(nodes)
    ensures (exists k :: 0 <= k < |w| && StartsWith(w[k], UnconnectedPrefix))
            <==> UnconnectedCount(nodes, edges, 0) > 0
    ensures UnconnectedCount(nodes, edges, 0) > 0 ==>
              w[|w| - 1] == UnconnectedWarning(UnconnectedCount(nodes, edges, 0))
  {
    WarningLines(!HasInput(nodes), !HasOutput(nodes), UnconnectedCount(nodes, edges, 0))
  }

  /** The three checks' messages, in order: each present exactly when its
      check fires, the unconnected count last. */
  function WarningLines(noInput: bool, noOutput: bool, count: nat): (w: seq<string>)
    ensures NoInputWarning in w <==> noInput
    ensures NoOutputWarning in w <==> noOutput
    ensures (exists k :: 0 <= k < |w| && StartsWith(w[k], UnconnectedPrefix)) <==> count > 0
    ensures count > 0 ==> w[|w| - 1] == UnconnectedWarning(count)
  {
    assert NoInputWarning != NoOutputWarning by { assert NoInputWarning[3] != NoOutputWarning[3]; }
    assert !StartsWith(NoInputWarning, UnconnectedPrefix) by { assert NoInputWarning[0] != UnconnectedPrefix[0]; }
    assert !StartsWith(NoOutputWarning, UnconnectedPrefix) by { assert NoOutputWarning[0] != UnconnectedPrefix[0]; }
    var w := (if noInput then [NoInputWarning] else [])
             + (if noOutput then [NoOutputWarning] else [])
             + (if count > 0 then [UnconnectedWarning(count)] else []);
    assert forall k :: 0 <= k < |w| ==> w[k] == NoInputWarning || w[k] == NoOutputWarning || count > 0;
    assert count > 0 ==> w[|w| - 1] == UnconnectedWarning(count) && StartsWith(w[|w| - 1], UnconnectedPrefix);
    w
  }

  /** The program's lines once the gate has passed. */
  function ProgramLines(c: Compiler, order: seq<NodeId>): seq<string>
    requires Ranked(c, order)
  {
    CodeLines(GenerateAssignments(c, 0), GenerateConditions(c, order))
  }

  /** `new PsyLangCodeGenerator(nodes, edges).generate()`. The gate fails
      exactly when the dependencies have a cycle, and then the result is
      the single cycle error with no code and no warnings; otherwise there
      is no error and the warnings report the missing inputs, missing
      outputs and unconnected nodes. */
  function Generate(nodes: seq<Node>, edges: seq<Edge>): (r: CodeGenerationResult)
    ensures r.errors != [] <==> EdgeCycle(nodes, edges)
    ensures EdgeCycle(nodes, edges) ==> r == CodeGenerationResult("", [CycleError], [])
    ensures !EdgeCycle(nodes, edges) ==> r.warnings == Warnings(nodes, edges)
  {
    var c := NewCompiler(nodes, edges);
    var sorted := TopologicalSort(c.graph.forward, nodes);
    if sorted == [] && |nodes| > 0 then
      CodeGenerationResult("", [CycleError], [])
    else
      ValidOrderRanks(c, sorted);
      CodeGenerationResult(Join(ProgramLines(c, sorted), "\n"), [], Warnings(nodes, edges))
  }

  /** A successful run's program starts with the banner, carries a section
      header exactly when its section has lines, has no other comment
      lines, and its classification section is balanced. */
  lemma ProgramShape(nodes: seq<Node>, edges: seq<Edge>, order: seq<NodeId>)
    requires Ranked(NewCompiler(nodes, edges), order)
    ensures var c := NewCompiler(nodes, edges);
            var r := ProgramLines(c, order);
            && r[..3] == Banner()
            && (ScoresHeader in r <==> exists j :: 0 <= j < |nodes| && DrivenOutput(c, nodes[j]))
            && (ClassificationHeader in r <==> GenerateConditions(c, order) != [])
            && (forall k :: 0 <= k < |r| && CommentLine(r[k]) ==> HeaderLine(r[k]))
            && Balanced(GenerateConditions(c, order), "")
  {
    var c := NewCompiler(nodes, edges);
    ConditionsWellFormed(c, order);
    CodeLinesComments(GenerateAssignments(c, 0), GenerateConditions(c, order));
  }
}
