/** Statement generation: the flat `Output[..] = ..` assignments, the
    statements of a branch, the if / else-if chain walked along `false`
    edges, and the classification section (chain roots plus standalone
    labels). */
module Statements {
  import opened Wrappers
  import opened Seqs
  import opened Graph
  import opened DepGraph
  import opened Expr

  const BlockIndent := "    "

  /** An indentation made of spaces only, as the source always passes. */
  predicate Spaces(s: string) {
    forall i :: 0 <= i < |s| ==> s[i] == ' '
  }

  /** A comment line of the emitted text. */
  predicate CommentLine(l: string) {
    StartsWith(l, "#")
  }

  /** `Output[<id>] = <expr>` for an output node; its value is its first
      coarse dependency, rendered from an empty path. */
  function OutputAssignment(c: Compiler, node: Node): (r: Option<string>)
    ensures r.Some? <==> |Deps(c.graph.forward, node.id)| > 0
    ensures r.Some? ==> StartsWith(r.value, "Output[")
    ensures r.Some? ==> r.value + ";" == OutputLine("", Setting(node.config, "outputId", "0"),
                                                   ExpressionText(c, Deps(c.graph.forward, node.id)[0], {}))
  {
    var deps := Deps(c.graph.forward, node.id);
    if |deps| > 0 then
      var slot, value := Setting(node.config, "outputId", "0"), ExpressionText(c, deps[0], {});
      assert "" + "Output[" + slot + "] = " + value + ";" == "Output[" + slot + "] = " + value + ";";
      Some("Output[" + slot + "] = " + value)
    else None
  }

  /** An output node that has at least one dependency. */
  predicate DrivenOutput(c: Compiler, node: Node) {
    node.nodeType == Output && |Deps(c.graph.forward, node.id)| > 0
  }

  /** `generateAssignments`, from node `i` on: one line per driven output,
      in node order. */
  function GenerateAssignments(c: Compiler, i: nat): (r: seq<string>)
    requires i <= |c.nodes|
    ensures |r| <= |c.nodes| - i
    ensures r == [] <==> forall j :: i <= j < |c.nodes| ==> !DrivenOutput(c, c.nodes[j])
    ensures forall k :: 0 <= k < |r| ==> StartsWith(r[k], "Output[")
    decreases |c.nodes| - i
  {
    if i == |c.nodes| then []
    else
      var node := c.nodes[i];
      var here := if node.nodeType == Output then OutputAssignment(c, node) else None;
      (if here.Some? then [here.value] else []) + GenerateAssignments(c, i + 1)
  }

  /** The driven outputs, as a mask over the nodes. */
  ghost function DrivenMask(c: Compiler): seq<bool> {
    seq(|c.nodes|, j requires 0 <= j < |c.nodes| => DrivenOutput(c, c.nodes[j]))
  }

  /** Each node's assignment line, `""` for the nodes that have none. */
  ghost function AssignmentLines(c: Compiler): seq<string> {
    seq(|c.nodes|, j requires 0 <= j < |c.nodes| => OutputAssignment(c, c.nodes[j]).GetOr(""))
  }

  /** From node `i` on, the assignments are exactly those of the driven
      outputs, one each, in node order. */
  lemma AssignmentsInNodeOrder(c: Compiler, i: nat)
    requires i <= |c.nodes|
    ensures var pos, r := Positions(DrivenMask(c), i), GenerateAssignments(c, i);
            |r| == |pos| && forall k :: 0 <= k < |pos| ==> OutputAssignment(c, c.nodes[pos[k]]) == Some(r[k])
  {
    AssignmentsSelected(c, i);
    DrivenSelection(c, GenerateAssignments(c, i), Positions(DrivenMask(c), i));
  }

  lemma AssignmentsSelected(c: Compiler, i: nat)
    requires i <= |c.nodes|
    ensures SelectedAt(GenerateAssignments(c, i), AssignmentLines(c), Positions(DrivenMask(c), i))
  {
    var parts := seq(|c.nodes| + 1, j requires 0 <= j <= |c.nodes| => GenerateAssignments(c, j));
    AssignmentsSteps(c, parts);
    FilterByMask(DrivenMask(c), AssignmentLines(c), parts, i);
  }

  /** Each node's contribution to `GenerateAssignments`. */
  lemma AssignmentsSteps(c: Compiler, parts: seq<seq<string>>)
    requires |parts| == |c.nodes| + 1
    requires forall j :: 0 <= j <= |c.nodes| ==> parts[j] == GenerateAssignments(c, j)
    ensures forall j :: 0 <= j < |c.nodes| ==> FilterStep(DrivenMask(c), AssignmentLines(c), parts, j)
  {
    forall j | 0 <= j < |c.nodes|
      ensures FilterStep(DrivenMask(c), AssignmentLines(c), parts, j)
    {
      assert parts[j + 1] == GenerateAssignments(c, j + 1);
    }
  }

  /** Lines selected at driven positions are those nodes' assignments. */
  lemma DrivenSelection(c: Compiler, r: seq<string>, pos: seq<nat>)
    requires forall k :: 0 <= k < |pos| ==> pos[k] < |c.nodes| && DrivenMask(c)[pos[k]]
    ensures SelectedAt(r, AssignmentLines(c), pos)
            ==> |r| == |pos| && forall k :: 0 <= k < |pos| ==> OutputAssignment(c, c.nodes[pos[k]]) == Some(r[k])
  {
  }

  /** `getConnectedNodesFromHandle`: the targets of the edges leaving `id`
      on handle `handle`, in edge order. */
  function ConnectedFromHandle(edges: seq<Edge>, id: NodeId, handle: Option<string>): (r: seq<NodeId>)
    ensures |r| <= |edges|
    ensures forall x :: x in r <==>
              exists i :: 0 <= i < |edges| && edges[i].source == id
                          && HandleMatches(edges[i].sourceHandle, handle) && edges[i].target == x
  {
    if |edges| == 0 then []
    else
      var rest := ConnectedFromHandle(edges[1..], id, handle);
      assert forall i :: 1 <= i < |edges| ==> edges[i] == edges[1..][i - 1];
      assert forall x :: x in rest <==>
               exists i :: 1 <= i < |edges| && edges[i].source == id
                           && HandleMatches(edges[i].sourceHandle, handle) && edges[i].target == x by {
        forall x | x in rest
          ensures exists i :: 1 <= i < |edges| && edges[i].source == id
                              && HandleMatches(edges[i].sourceHandle, handle) && edges[i].target == x
        {
          var i :| 0 <= i < |edges[1..]| && edges[1..][i].source == id
                   && HandleMatches(edges[1..][i].sourceHandle, handle) && edges[1..][i].target == x;
          assert edges[i + 1] == edges[1..][i];
        }
      }
      if edges[0].source == id && HandleMatches(edges[0].sourceHandle, handle) then [edges[0].target] + rest
      else rest
  }

  /** The edges `ConnectedFromHandle` follows, as a mask over `edges`. */
  ghost function LeavingMask(edges: seq<Edge>, id: NodeId, handle: Option<string>): seq<bool> {
    seq(|edges|, j requires 0 <= j < |edges| => edges[j].source == id && HandleMatches(edges[j].sourceHandle, handle))
  }

  /** One target per matching edge from `i` on, in edge order, repeats
      kept. */
  lemma ConnectedInEdgeOrder(edges: seq<Edge>, id: NodeId, handle: Option<string>, i: nat)
    requires i <= |edges|
    ensures var pos, r := Positions(LeavingMask(edges, id, handle), i), ConnectedFromHandle(edges[i..], id, handle);
            |r| == |pos| && forall k :: 0 <= k < |pos| ==> r[k] == edges[pos[k]].target
  {
    ConnectedSelected(edges, id, handle, i);
    TargetsSelection(edges, ConnectedFromHandle(edges[i..], id, handle), Positions(LeavingMask(edges, id, handle), i));
  }

  /** The targets from edge `i` on are the matching edges' targets,
      selected in order. */
  lemma {:induction false} ConnectedSelected(edges: seq<Edge>, id: NodeId, handle: Option<string>, i: nat)
    requires i <= |edges|
    ensures SelectedAt(ConnectedFromHandle(edges[i..], id, handle), Targets(edges), Positions(LeavingMask(edges, id, handle), i))
    decreases |edges| - i
  {
    if i < |edges| {
      ConnectedSelected(edges, id, handle, i + 1);
      LeavingStep(edges, id, handle, i);
      SelectionCons(LeavingMask(edges, id, handle), Targets(edges), i, ConnectedFromHandle(edges[i + 1..], id, handle));
    } else {
      assert edges[i..] == [];
    }
  }

  /** A selection of the targets names each selected edge's target. */
  lemma TargetsSelection(edges: seq<Edge>, r: seq<NodeId>, pos: seq<nat>)
    ensures SelectedAt(r, Targets(edges), pos) ==> |r| == |pos| && forall k :: 0 <= k < |pos| ==> r[k] == edges[pos[k]].target
  {
  }

  /** The target of every edge. */
  ghost function Targets(edges: seq<Edge>): (t: seq<NodeId>)
    ensures |t| == |edges| && forall j :: 0 <= j < |edges| ==> t[j] == edges[j].target
  {
    seq(|edges|, j requires 0 <= j < |edges| => edges[j].target)
  }

  /** Edge `i`'s contribution to the listed targets. */
  lemma LeavingStep(edges: seq<Edge>, id: NodeId, handle: Option<string>, i: nat)
    requires i < |edges|
    ensures ConnectedFromHandle(edges[i..], id, handle)
            == (if edges[i].source == id && HandleMatches(edges[i].sourceHandle, handle) then [edges[i].target] else [])
               + ConnectedFromHandle(edges[i + 1..], id, handle)
  {
    assert edges[i..][1..] == edges[i + 1..];
  }

  /** `Label[<labelId>] = "<value>";` at indentation `indent`. */
  function LabelLine(cfg: Config, indent: string): (l: string)
    ensures StatementLine(l, indent)
  {
    var l := indent + "Label[" + Setting(cfg, "labelId", "0") + "] = \"" + Setting(cfg, "value", "Unknown") + "\";";
    assert l == (indent + "Label[") + (Setting(cfg, "labelId", "0") + "] = \"" + Setting(cfg, "value", "Unknown") + "\";");
    l
  }

  /** The fields of a label line, each at its place: the indent, `Label[`,
      the label id (`0` by default), `] = "`, the value (`Unknown` by
      default) and `";`. */
  lemma LabelLineFields(cfg: Config, indent: string)
    ensures var l, id, v := LabelLine(cfg, indent), Setting(cfg, "labelId", "0"), Setting(cfg, "value", "Unknown");
            && |l| == |indent| + |id| + |v| + 13
            && l[..|indent|] == indent
            && l[|indent|..|indent| + 6] == "Label["
            && l[|indent| + 6..|indent| + 6 + |id|] == id
            && l[|indent| + 6 + |id|..|indent| + 11 + |id|] == "] = \""
            && l[|indent| + 11 + |id|..|l| - 2] == v
            && l[|l| - 2..] == "\";"
  {
  }

  /** A branch statement at indentation `indent`: an output or label
      assignment ending in `;`. */
  predicate StatementLine(l: string, indent: string) {
    && (StartsWith(l, indent + "Output[") || StartsWith(l, indent + "Label["))
    && |l| > 0 && l[|l| - 1] == ';'
  }

  /** One branch statement for the node `id`, if its type yields one. */
  function BranchStatement(c: Compiler, id: NodeId, indent: string): (r: Option<string>)
    ensures r.Some? ==> StatementLine(r.value, indent)
    ensures r.Some? <==> || HasType(c.nodes, id, Label)
                         || (HasType(c.nodes, id, Output) && |Deps(c.graph.forward, id)| > 0)
                         || (HasType(c.nodes, id, Assign) && Present(GetConnectedNode(c.edges, id, Some("value"))))
    ensures HasType(c.nodes, id, Output) ==>
              var a := OutputAssignment(c, FindNode(c.nodes, id).value);
              r == if a.Some? then Some(indent + a.value + ";") else None
    ensures HasType(c.nodes, id, Label) ==> r == Some(LabelLine(FindNode(c.nodes, id).value.config, indent))
    ensures HasType(c.nodes, id, Assign) && r.Some? ==>
              r.value == OutputLine(indent, Setting(FindNode(c.nodes, id).value.config, "targetOutput", "1"),
                                    ExpressionText(c, GetConnectedNode(c.edges, id, Some("value")).value, {}))
  {
    match FindNode(c.nodes, id)
    case None => None
    case Some(node) =>
      match node.nodeType
      case Output =>
        var deps := Deps(c.graph.forward, id);
        if |deps| > 0 then
          var slot, value := Setting(node.config, "outputId", "0"), ExpressionText(c, deps[0], {});
          IndentedAssignment(indent, slot, value);
          Some(OutputLine(indent, slot, value))
        else None
      case Label => Some(LabelLine(node.config, indent))
      case Assign =>
        var valueInput := GetConnectedNode(c.edges, id, Some("value"));
        if Present(valueInput) then
          Some(OutputLine(indent, Setting(node.config, "targetOutput", "1"), ExpressionText(c, valueInput.value, {})))
        else None
      case _ => None
  }

  /** A top-level assignment, indented and closed by `;`, is the branch
      form of the same assignment. */
  lemma IndentedAssignment(indent: string, slot: string, value: string)
    ensures indent + ("Output[" + slot + "] = " + value) + ";" == OutputLine(indent, slot, value)
  {
  }

  /** `Output[<slot>] = <value>;` at indentation `indent`. */
  function OutputLine(indent: string, slot: string, value: string): (l: string)
    ensures StatementLine(l, indent)
  {
    var l := indent + "Output[" + slot + "] = " + value + ";";
    assert l == (indent + "Output[") + (slot + "] = " + value + ";");
    l
  }

  /** The fields of an output line, each at its place: the indent,
      `Output[`, the slot, `] = `, the value and `;`. */
  lemma OutputLineFields(indent: string, slot: string, value: string)
    ensures var l := OutputLine(indent, slot, value);
            && |l| == |indent| + |slot| + |value| + 12
            && l[..|indent|] == indent
            && l[|indent|..|indent| + 7] == "Output["
            && l[|indent| + 7..|indent| + 7 + |slot|] == slot
            && l[|indent| + 7 + |slot|..|indent| + 11 + |slot|] == "] = "
            && l[|indent| + 11 + |slot|..|l| - 1] == value
            && l[|l| - 1] == ';'
  {
  }

  /** `generateBranchStatements`: the statements of the nodes `ids`, in
      order; every label yields a line, nodes of other types never do. */
  function GenerateBranchStatements(c: Compiler, ids: seq<NodeId>, indent: string): (r: seq<string>)
    ensures |r| <= |ids|
    ensures forall k :: 0 <= k < |r| ==> StatementLine(r[k], indent)
    ensures (exists j :: 0 <= j < |ids| && HasType(c.nodes, ids[j], Label)) ==> r != []
    ensures (forall j :: 0 <= j < |ids| ==>
               !(HasType(c.nodes, ids[j], Output) || HasType(c.nodes, ids[j], Label)
                 || HasType(c.nodes, ids[j], Assign))) ==> r == []
  {
    if |ids| == 0 then []
    else
      var here := BranchStatement(c, ids[0], indent);
      var rest := GenerateBranchStatements(c, ids[1..], indent);
      var head := if here.Some? then [here.value] else [];
      assert forall k :: 0 <= k < |head| ==> StatementLine(head[k], indent);
      StatementsConcat(head, rest, indent);
      assert (exists j :: 0 <= j < |ids| && HasType(c.nodes, ids[j], Label)) ==> head + rest != [] by {
        if exists j :: 0 <= j < |ids| && HasType(c.nodes, ids[j], Label) {
          var j :| 0 <= j < |ids| && HasType(c.nodes, ids[j], Label);
          if j > 0 {
            assert ids[1..][j - 1] == ids[j];
          }
        }
      }
      assert forall j :: 1 <= j < |ids| ==> ids[j] == ids[1..][j - 1];
      head + rest
  }

  /** The ids of `ids` that yield a branch statement, as a mask. */
  ghost function StatementMask(c: Compiler, ids: seq<NodeId>, indent: string): seq<bool> {
    seq(|ids|, j requires 0 <= j < |ids| => BranchStatement(c, ids[j], indent).Some?)
  }

  /** The statements of `ids[i..]` are those of the ids that yield one, one
      each, in the order of `ids`. */
  lemma BranchStatementsInOrder(c: Compiler, ids: seq<NodeId>, indent: string, i: nat)
    requires i <= |ids|
    ensures var pos, r := Positions(StatementMask(c, ids, indent), i), GenerateBranchStatements(c, ids[i..], indent);
            |r| == |pos| && forall k :: 0 <= k < |pos| ==> BranchStatement(c, ids[pos[k]], indent) == Some(r[k])
  {
    BranchSelected(c, ids, indent, i);
    StatementSelection(c, ids, indent, GenerateBranchStatements(c, ids[i..], indent),
                       Positions(StatementMask(c, ids, indent), i));
  }

  /** Each id's statement, or the empty text when it yields none. */
  ghost function StatementLines(c: Compiler, ids: seq<NodeId>, indent: string): seq<string> {
    seq(|ids|, j requires 0 <= j < |ids| => BranchStatement(c, ids[j], indent).GetOr(""))
  }

  /** The statements from id `i` on are the yielded ones, selected in order. */
  lemma {:induction false} BranchSelected(c: Compiler, ids: seq<NodeId>, indent: string, i: nat)
    requires i <= |ids|
    ensures SelectedAt(GenerateBranchStatements(c, ids[i..], indent), StatementLines(c, ids, indent),
                       Positions(StatementMask(c, ids, indent), i))
    decreases |ids| - i
  {
    if i < |ids| {
      BranchSelected(c, ids, indent, i + 1);
      BranchStep(c, ids, indent, i);
      SelectionCons(StatementMask(c, ids, indent), StatementLines(c, ids, indent), i,
                    GenerateBranchStatements(c, ids[i + 1..], indent));
    }
  }

  /** Id `i`'s contribution to the statements. */
  lemma BranchStep(c: Compiler, ids: seq<NodeId>, indent: string, i: nat)
    requires i < |ids|
    ensures var here := BranchStatement(c, ids[i], indent);
            GenerateBranchStatements(c, ids[i..], indent)
            == (if here.Some? then [here.value] else []) + GenerateBranchStatements(c, ids[i + 1..], indent)
  {
    assert ids[i..][1..] == ids[i + 1..];
  }

  /** A selection of the yielded statements is a list of actual statements. */
  lemma StatementSelection(c: Compiler, ids: seq<NodeId>, indent: string, r: seq<string>, pos: seq<nat>)
    requires forall k :: 0 <= k < |pos| ==> pos[k] < |ids| && StatementMask(c, ids, indent)[pos[k]]
    ensures SelectedAt(r, StatementLines(c, ids, indent), pos)
            ==> |r| == |pos| && forall k :: 0 <= k < |pos| ==> BranchStatement(c, ids[pos[k]], indent) == Some(r[k])
  {
  }


  /** Statement lines concatenated are statement lines. */
  lemma StatementsConcat(a: seq<string>, b: seq<string>, indent: string)
    requires forall k :: 0 <= k < |a| ==> StatementLine(a[k], indent)
    requires forall k :: 0 <= k < |b| ==> StatementLine(b[k], indent)
    ensures forall k :: 0 <= k < |a + b| ==> StatementLine((a + b)[k], indent)
  {
  }

  /** JavaScript `WhiteSpace` and `LineTerminator` characters: what `trim`
      strips. */
  predicate JsWhitespace(ch: char) {
    || ch == ' ' || ch == '\t' || ch == '\n' || ch == '\r'
    || ch == '\U{000B}' || ch == '\U{000C}' || ch == '\U{00A0}' || ch == '\U{FEFF}'
    || ch == '\U{1680}' || ('\U{2000}' <= ch <= '\U{200A}') || ch == '\U{2028}' || ch == '\U{2029}'
    || ch == '\U{202F}' || ch == '\U{205F}' || ch == '\U{3000}'
  }

  function TrimStart(s: string): (r: string)
    ensures |r| <= |s| && r == s[|s| - |r|..]
    ensures forall i :: 0 <= i < |s| - |r| ==> JsWhitespace(s[i])
    ensures |r| > 0 ==> !JsWhitespace(r[0])
  {
    if |s| > 0 && JsWhitespace(s[0]) then
      var r := TrimStart(s[1..]);
      assert forall i :: 1 <= i < |s| ==> s[i] == s[1..][i - 1];
      r
    else s
  }

  function TrimEnd(s: string): (r: string)
    ensures |r| <= |s| && r == s[..|r|]
    ensures forall i :: |r| <= i < |s| ==> JsWhitespace(s[i])
    ensures |r| > 0 ==> !JsWhitespace(r[|r| - 1])
  {
    if |s| > 0 && JsWhitespace(s[|s| - 1]) then
      var r := TrimEnd(s[..|s| - 1]);
      assert forall i :: 0 <= i < |s| - 1 ==> s[i] == s[..|s| - 1][i];
      r
    else s
  }

  /** Every character of `s` outside `s[a..b]` is whitespace. */
  predicate WhitespaceOutside(s: string, a: nat, b: nat)
    requires a <= b <= |s|
  {
    forall i :: 0 <= i < |s| && (i < a || b <= i) ==> JsWhitespace(s[i])
  }

  /** `String.prototype.trim`: the slice of `s` left after removing leading
      and trailing whitespace; the slice neither starts nor ends with
      whitespace. */
  function Trim(s: string): (r: string)
    ensures exists a: nat, b: nat :: a <= b <= |s| && r == s[a..b] && WhitespaceOutside(s, a, b)
    ensures |r| > 0 ==> !JsWhitespace(r[0]) && !JsWhitespace(r[|r| - 1])
  {
    var t := TrimStart(s);
    var a := |s| - |t|;
    var r := TrimEnd(t);
    var b := a + |r|;
    SliceOfSuffix(s, a, r);
    assert WhitespaceOutside(s, a, b);
    r
  }

  /** A prefix of the suffix `s[a..]` is the slice `s[a..a + |r|]`. */
  lemma SliceOfSuffix(s: string, a: nat, r: string)
    requires a <= |s| && |r| <= |s| - a && r == s[a..][..|r|]
    ensures r == s[a..a + |r|]
    ensures forall i :: a + |r| <= i < |s| ==> s[i] == s[a..][i - a]
  {
  }

  /** Trimming a space-indented opening line removes exactly the
      indentation: the continuation of an else-if chain is not re-indented. */
  lemma {:induction false} TrimOpening(indent: string, expr: string)
    requires Spaces(indent)
    ensures Trim(indent + "if (" + expr + ") {") == "if (" + expr + ") {"
  {
    var line := "if (" + expr + ") {";
    assert indent + "if (" + expr + ") {" == indent + line;
    TrimStartSpaces(indent, line);
    assert line[|line| - 1] == '{';
    assert TrimEnd(line) == line;
  }

  lemma {:induction false} TrimStartSpaces(indent: string, line: string)
    requires Spaces(indent) && |line| > 0 && line[0] == 'i'
    ensures TrimStart(indent + line) == line
  {
    if |indent| > 0 {
      assert (indent + line)[1..] == indent[1..] + line;
      TrimStartSpaces(indent[1..], line);
    } else {
      assert indent + line == line;
    }
  }

  /** The two kinds of condition node. */
  datatype ConditionKind = If | ElseIf

  /** `(config.conditionType || 'if')`, read as a kind; any other value
      makes the chain empty. */
  function ConditionKindOf(cfg: Config): Option<ConditionKind> {
    var ct := Setting(cfg, "conditionType", "if");
    if ct == "if" then Some(If) else if ct == "elseif" then Some(ElseIf) else None
  }

  /** The one difference between the two kinds: an `if` opens its block at
      the current indentation, an `elseif` opening carries none. */
  function Lead(kind: ConditionKind, indent: string): string {
    match kind
    case If => indent
    case ElseIf => ""
  }

  /** The condition of node `id`: its `condition` port, or `true`. */
  function ConditionText(c: Compiler, id: NodeId): string {
    var cond := GetConnectedNode(c.edges, id, Some("condition"));
    if Present(cond) then ExpressionText(c, cond.value, {}) else "true"
  }

  /** The first id naming a condition node (`falseBranch.find(...)`). */
  function FirstCondition(c: Compiler, ids: seq<NodeId>): (r: Option<NodeId>)
    ensures r.Some? ==> r.value in ids && HasType(c.nodes, r.value, Condition)
    ensures r.None? ==> forall j :: 0 <= j < |ids| ==> !HasType(c.nodes, ids[j], Condition)
    ensures r.Some? ==> exists i :: 0 <= i < |ids| && ids[i] == r.value
                                    && forall j :: 0 <= j < i ==> !HasType(c.nodes, ids[j], Condition)
  {
    if |ids| == 0 then None
    else if HasType(c.nodes, ids[0], Condition) then Some(ids[0])
    else
      var rest := FirstCondition(c, ids[1..]);
      FirstConditionShift(c, ids, rest);
      rest
  }

  /** A first condition among the later ids, behind an id that is not a
      condition, is the first condition among all of them. */
  lemma FirstConditionShift(c: Compiler, ids: seq<NodeId>, rest: Option<NodeId>)
    requires |ids| > 0 && !HasType(c.nodes, ids[0], Condition)
    requires rest.None? ==> forall j :: 0 <= j < |ids| - 1 ==> !HasType(c.nodes, ids[1..][j], Condition)
    requires rest.Some? ==> exists i :: 0 <= i < |ids| - 1 && ids[1..][i] == rest.value
                                        && forall j :: 0 <= j < i ==> !HasType(c.nodes, ids[1..][j], Condition)
    ensures rest.None? ==> forall j :: 0 <= j < |ids| ==> !HasType(c.nodes, ids[j], Condition)
    ensures rest.Some? ==> exists i :: 0 <= i < |ids| && ids[i] == rest.value
                                      && forall j :: 0 <= j < i ==> !HasType(c.nodes, ids[j], Condition)
  {
    assert forall j :: 1 <= j < |ids| ==> ids[j] == ids[1..][j - 1];
    if rest.Some? {
      var i :| 0 <= i < |ids| - 1 && ids[1..][i] == rest.value
               && forall j :: 0 <= j < i ==> !HasType(c.nodes, ids[1..][j], Condition);
      assert ids[i + 1] == rest.value;
    }
  }

  /** The line opens a block. */
  predicate OpensBlock(l: string) {
    |l| > 0 && l[|l| - 1] == '{'
  }

  /** The line closes a block opened at indentation `indent`. */
  predicate ClosesBlock(l: string, indent: string) {
    StartsWith(l, indent + "}")
  }

  /** How many of the lines open a block. */
  function Opens(lines: seq<string>): nat {
    if |lines| == 0 then 0
    else Opens(lines[..|lines| - 1]) + (if OpensBlock(lines[|lines| - 1]) then 1 else 0)
  }

  /** How many of the lines close a block opened at `indent`. */
  function Closes(lines: seq<string>, indent: string): nat {
    if |lines| == 0 then 0
    else Closes(lines[..|lines| - 1], indent) + (if ClosesBlock(lines[|lines| - 1], indent) then 1 else 0)
  }

  lemma {:induction false} CountsConcat(a: seq<string>, b: seq<string>, indent: string)
    ensures Opens(a + b) == Opens(a) + Opens(b)
    ensures Closes(a + b, indent) == Closes(a, indent) + Closes(b, indent)
  {
    if |b| > 0 {
      assert (a + b)[..|a + b| - 1] == a + b[..|b| - 1];
      CountsConcat(a, b[..|b| - 1], indent);
    } else {
      assert a + b == a;
    }
  }

  lemma CountsSingle(l: string, indent: string)
    ensures Opens([l]) == (if OpensBlock(l) then 1 else 0)
    ensures Closes([l], indent) == (if ClosesBlock(l, indent) then 1 else 0)
  {
    assert [l][..0] == [];
  }

  /** Branch statements, one level deeper than `indent`, neither open nor
      close a block at `indent`. */
  lemma {:induction false} StatementsCountNothing(lines: seq<string>, indent: string)
    requires forall k :: 0 <= k < |lines| ==> StatementLine(lines[k], indent + BlockIndent)
    ensures Opens(lines) == 0 && Closes(lines, indent) == 0
  {
    if |lines| > 0 {
      var l := lines[|lines| - 1];
      assert StatementLine(l, indent + BlockIndent);
      assert l[|indent|] == (indent + BlockIndent)[|indent|] == ' ';
      StatementsCountNothing(lines[..|lines| - 1], indent);
    }
  }

  /** Every block the lines open is closed, and no line closes a block
      that is not open: as many opening lines as closing lines at
      indentation `indent`, read at nesting depth zero. */
  predicate Balanced(lines: seq<string>, indent: string) {
    Opens(lines) == Closes(lines, indent) && Nested(lines, indent, 0)
  }

  /** Read from `depth` open blocks on, no line closes more blocks than
      are open before it. */
  predicate Nested(lines: seq<string>, indent: string, depth: nat)
    decreases |lines|
  {
    || |lines| == 0
    || (Nested(lines[..|lines| - 1], indent, depth) && Closes(lines, indent) <= Opens(lines[..|lines| - 1]) + depth)
  }

  /** `Nested` read line by line: the blocks closed up to and including
      each line never exceed those open before it. */
  lemma {:induction false} NestedPrefixes(lines: seq<string>, indent: string, depth: nat)
    ensures Nested(lines, indent, depth) <==>
              forall n :: 0 <= n < |lines| ==> Closes(lines[..n + 1], indent) <= Opens(lines[..n]) + depth
  {
    if |lines| > 0 {
      var init := lines[..|lines| - 1];
      NestedPrefixes(init, indent, depth);
      forall n | 0 <= n <= |init| ensures init[..n] == lines[..n] { }
      assert lines[..|init| + 1] == lines;
    }
  }

  /** A closing line before any opening one is not balanced, although the
      counts agree. */
  lemma CloseBeforeOpen()
    ensures var lines := ["}", "if (x) {"];
            Opens(lines) == Closes(lines, "") && !Balanced(lines, "")
  {
    var lines := ["}", "if (x) {"];
    assert lines[..1] == ["}"];
    assert ["}"][..0] == [];
  }

  /** Nested lines never close more blocks than the depth they start at
      and the blocks they open. */
  lemma NestedBound(lines: seq<string>, indent: string, depth: nat)
    requires Nested(lines, indent, depth)
    ensures Closes(lines, indent) <= Opens(lines) + depth
  {
    if |lines| > 0 {
      var init := lines[..|lines| - 1];
      assert Opens(lines) >= Opens(init);
    }
  }

  /** Nested lines followed by lines nested at the depth the first reach
      are nested. */
  lemma {:induction false} NestedConcat(a: seq<string>, b: seq<string>, indent: string, depth: nat)
    requires Nested(a, indent, depth)
    requires Closes(a, indent) <= Opens(a) + depth
    requires Nested(b, indent, depth + Opens(a) - Closes(a, indent))
    ensures Nested(a + b, indent, depth)
  {
    if |b| == 0 {
      assert a + b == a;
    } else {
      var init := b[..|b| - 1];
      assert (a + b)[..|a + b| - 1] == a + init;
      NestedConcat(a, init, indent, depth);
      CountsConcat(a, init, indent);
      CountsConcat(a, b, indent);
    }
  }

  /** The lines after nested lines are nested at the depth those reach. */
  lemma {:induction false} NestedSplit(a: seq<string>, b: seq<string>, indent: string, depth: nat)
    requires Nested(a + b, indent, depth)
    ensures Nested(a, indent, depth) && Closes(a, indent) <= Opens(a) + depth
    ensures Nested(b, indent, depth + Opens(a) - Closes(a, indent))
  {
    if |b| == 0 {
      assert a + b == a;
      NestedBound(a, indent, depth);
    } else {
      var init := b[..|b| - 1];
      assert (a + b)[..|a + b| - 1] == a + init;
      NestedSplit(a, init, indent, depth);
      CountsConcat(a, init, indent);
      CountsConcat(a, b, indent);
    }
  }

  /** A single line is nested iff it closes nothing or a block is open. */
  lemma NestedSingle(l: string, indent: string, depth: nat)
    ensures Nested([l], indent, depth) <==> !ClosesBlock(l, indent) || depth >= 1
  {
    CountsSingle(l, indent);
  }

  /** Branch statements one level deeper are nested at any depth. */
  lemma {:induction false} StatementsNested(lines: seq<string>, indent: string, depth: nat)
    requires forall k :: 0 <= k < |lines| ==> StatementLine(lines[k], indent + BlockIndent)
    ensures Nested(lines, indent, depth)
  {
    if |lines| > 0 {
      StatementsNested(lines[..|lines| - 1], indent, depth);
      StatementsCountNothing(lines, indent);
    }
  }

  /** Following a `false` edge from a condition node to another condition
      node moves strictly later in a dependency order: the chain walk ends. */
  lemma FalseEdgeAdvances(c: Compiler, order: seq<NodeId>, id: NodeId, next: NodeId)
    requires Ranked(c, order) && id in NodeIds(c.nodes)
    requires next in ConnectedFromHandle(c.edges, id, Some("false")) && HasType(c.nodes, next, Condition)
    ensures Precedes(order, id, next)
  {
    var i :| 0 <= i < |c.edges| && c.edges[i].source == id
             && HandleMatches(c.edges[i].sourceHandle, Some("false")) && c.edges[i].target == next;
    assert next in NodeIds(c.nodes);
  }

  /** Position of a node in the dependency order, counted from the end: the
      chain walk's measure. */
  ghost function Remaining(order: seq<NodeId>, id: NodeId): nat {
    if id in order then |order| - IndexOf(order, id) else 0
  }

  /** `generateConditionChain(id, indent)`: the opening line, the `true`
      branch one level deeper, then the `false` branch. A node that is not
      a condition, or whose kind is neither `if` nor `elseif`, yields no
      lines. */
  function ConditionChain(c: Compiler, order: seq<NodeId>, id: NodeId, indent: string): (r: seq<string>)
    requires Ranked(c, order)
    ensures r != [] <==> HasType(c.nodes, id, Condition) && ConditionKindOf(FindNode(c.nodes, id).value.config).Some?
    ensures r != [] ==>
              r[0] == Lead(ConditionKindOf(FindNode(c.nodes, id).value.config).value, indent)
                      + "if (" + ConditionText(c, id) + ") {"
    decreases Remaining(order, id), 1
  {
    match FindNode(c.nodes, id)
    case None => []
    case Some(node) =>
      if node.nodeType != Condition then []
      else
        match ConditionKindOf(node.config)
        case None => []
        case Some(kind) =>
          var opening := Lead(kind, indent) + "if (" + ConditionText(c, id) + ") {";
          var trueBranch := ConnectedFromHandle(c.edges, id, Some("true"));
          [opening] + GenerateBranchStatements(c, trueBranch, indent + BlockIndent) + FalseBranch(c, order, id, indent)
  }

  /** The `false` side of a chain link: `} else ` and the next condition's
      chain with its first line trimmed; or `} else {`, the statements and
      `}`; or a bare `}`. */
  function FalseBranch(c: Compiler, order: seq<NodeId>, id: NodeId, indent: string): (r: seq<string>)
    requires Ranked(c, order) && id in NodeIds(c.nodes)
    ensures r != [] && ClosesBlock(r[0], indent)
    decreases Remaining(order, id), 0
  {
    ClosingLines(indent);
    var falseBranch := ConnectedFromHandle(c.edges, id, Some("false"));
    if |falseBranch| == 0 then [indent + "}"]
    else
      var next := FirstCondition(c, falseBranch);
      if next.Some? && next.value != "" then
        FalseEdgeAdvances(c, order, id, next.value);
        var nextLines := ConditionChain(c, order, next.value, indent);
        [indent + "} else "] + Continuation(nextLines)
      else
        var falseStatements := GenerateBranchStatements(c, falseBranch, indent + BlockIndent);
        if |falseStatements| > 0 then [indent + "} else {"] + falseStatements + [indent + "}"]
        else [indent + "}"]
  }

  /** The three forms of a link's `false` side: with no `false` edge a bare
      `}`; with a condition among the `false` targets, `} else ` and that
      condition's chain, its opening line trimmed to `if (..) {`; with only
      statements, `} else {`, the statements and `}`, or a bare `}` when
      the targets yield none. */
  lemma FalseBranchForms(c: Compiler, order: seq<NodeId>, id: NodeId, indent: string)
    requires Ranked(c, order) && id in NodeIds(c.nodes)
    ensures var r, targets := FalseBranch(c, order, id, indent), ConnectedFromHandle(c.edges, id, Some("false"));
            && (targets == [] ==> r == [indent + "}"])
            && (targets != [] && FirstCondition(c, targets).Some? && FirstCondition(c, targets).value != "" ==>
                  var chain := ConditionChain(c, order, FirstCondition(c, targets).value, indent);
                  && |r| == |chain| + 1 && r[0] == indent + "} else "
                  && (chain != [] ==> r[1] == Trim(chain[0]) && r[2..] == chain[1..]))
            && (targets != [] && (FirstCondition(c, targets).None? || FirstCondition(c, targets).value == "") ==>
                  var s := GenerateBranchStatements(c, targets, indent + BlockIndent);
                  r == if s == [] then [indent + "}"] else [indent + "} else {"] + s + [indent + "}"])
  {
    var targets := ConnectedFromHandle(c.edges, id, Some("false"));
    if targets != [] {
      var next := FirstCondition(c, targets);
      if next.Some? && next.value != "" {
        ElseChainForm(c, order, id, next.value, indent);
      }
    }
  }

  /** The `else if` form of a link's `false` side. */
  lemma ElseChainForm(c: Compiler, order: seq<NodeId>, id: NodeId, next: NodeId, indent: string)
    requires Ranked(c, order) && id in NodeIds(c.nodes)
    requires var targets := ConnectedFromHandle(c.edges, id, Some("false"));
             targets != [] && FirstCondition(c, targets) == Some(next) && next != ""
    ensures var r, chain := FalseBranch(c, order, id, indent), ConditionChain(c, order, next, indent);
            && |r| == |chain| + 1 && r[0] == indent + "} else "
            && (chain != [] ==> r[1] == Trim(chain[0]) && r[2..] == chain[1..])
  {
    var chain := ConditionChain(c, order, next, indent);
    assert FalseBranch(c, order, id, indent) == [indent + "} else "] + Continuation(chain);
    ContinuationLines(indent + "} else ", chain);
  }

  /** A chain continued after `} else `: its first line trimmed. */
  function Continuation(lines: seq<string>): seq<string> {
    if |lines| > 0 then [Trim(lines[0])] + lines[1..] else []
  }

  /** Only the first line of a continuation changes. */
  lemma ContinuationLines(head: string, lines: seq<string>)
    ensures var r := [head] + Continuation(lines);
            && |r| == |lines| + 1 && r[0] == head
            && (lines != [] ==> r[1] == Trim(lines[0]) && r[2..] == lines[1..])
  {
    if lines != [] {
      assert ([head] + Continuation(lines))[2..] == lines[1..];
    }
  }

  /** On a space indentation the continuation after `} else ` is exactly
      the next condition's `if (..) {`, whatever its kind. */
  lemma ElseContinuation(c: Compiler, order: seq<NodeId>, id: NodeId, next: NodeId, indent: string)
    requires Ranked(c, order) && id in NodeIds(c.nodes) && Spaces(indent)
    requires var targets := ConnectedFromHandle(c.edges, id, Some("false"));
             targets != [] && FirstCondition(c, targets) == Some(next) && next != ""
    requires ConditionChain(c, order, next, indent) != []
    ensures var r := FalseBranch(c, order, id, indent);
            |r| >= 2 && r[0] == indent + "} else " && r[1] == "if (" + ConditionText(c, next) + ") {"
  {
    FalseBranchForms(c, order, id, indent);
    var kind := ConditionKindOf(FindNode(c.nodes, next).value.config).value;
    TrimOpening(Lead(kind, indent), ConditionText(c, next));
  }

  /** The three ways a chain link ends all close its block. */
  lemma ClosingLines(indent: string)
    ensures ClosesBlock(indent + "}", indent)
    ensures ClosesBlock(indent + "} else ", indent)
    ensures ClosesBlock(indent + "} else {", indent)
  {
    assert (indent + "} else ")[..|indent| + 1] == indent + "}";
    assert (indent + "} else {")[..|indent| + 1] == indent + "}";
  }

  /** A line that starts with a space indentation followed by text not
      starting with `#` is indented by it and is no comment. */
  lemma PrefixedLine(l: string, indent: string, rest: string)
    requires Spaces(indent) && StartsWith(l, indent + rest) && |rest| > 0 && rest[0] != '#'
    ensures StartsWith(l, indent) && !CommentLine(l)
  {
    assert l[..|indent|] == (indent + rest)[..|indent|] == indent;
    assert l[0] == (indent + rest)[0];
  }

  /** An opening line opens a block, closes none at `indent` and is no
      comment, whether it carries the indentation or not. */
  lemma OpeningLine(lead: string, indent: string, text: string)
    requires Spaces(indent) && (lead == indent || lead == "")
    ensures var l := lead + "if (" + text + ") {";
            OpensBlock(l) && !ClosesBlock(l, indent) && !CommentLine(l)
  {
    var l := lead + "if (" + text + ") {";
    assert l == lead + ("if (" + text + ") {");
    assert l[|lead|] == 'i';
    if lead == indent {
      assert l[|indent|] == 'i';
    } else if |indent| > 0 {
      assert l[0] == 'i' && indent[0] == ' ';
    }
    if |lead| > 0 {
      assert l[0] == lead[0] == ' ';
    }
  }

  /** Lines of a chain: indented by the chain's indentation, except that a
      trimmed continuation starts directly with `if (`. */
  predicate ChainLine(l: string, indent: string) {
    (StartsWith(l, indent) || StartsWith(l, "if (")) && !CommentLine(l)
  }

  /** Branch statements one level deeper are chain lines of the chain. */
  lemma StatementsAreChainLines(s: seq<string>, indent: string)
    requires Spaces(indent)
    requires forall k :: 0 <= k < |s| ==> StatementLine(s[k], indent + BlockIndent)
    ensures forall k :: 0 <= k < |s| ==> ChainLine(s[k], indent)
  {
    forall k | 0 <= k < |s| ensures ChainLine(s[k], indent) {
      assert StatementLine(s[k], indent + BlockIndent);
      if StartsWith(s[k], indent + BlockIndent + "Output[") {
        assert indent + BlockIndent + "Output[" == indent + (BlockIndent + "Output[");
        PrefixedLine(s[k], indent, BlockIndent + "Output[");
      } else {
        assert indent + BlockIndent + "Label[" == indent + (BlockIndent + "Label[");
        PrefixedLine(s[k], indent, BlockIndent + "Label[");
      }
    }
  }

  /** The statements of the `true` side of a chain link. */
  function TrueStatements(c: Compiler, id: NodeId, indent: string): (r: seq<string>)
    ensures forall k :: 0 <= k < |r| ==> StatementLine(r[k], indent + BlockIndent)
  {
    GenerateBranchStatements(c, ConnectedFromHandle(c.edges, id, Some("true")), indent + BlockIndent)
  }

  /** A non-empty chain is its opening line, the `true` statements and the
      `false` side. */
  lemma ChainSplit(c: Compiler, order: seq<NodeId>, id: NodeId, indent: string)
    requires Ranked(c, order) && ConditionChain(c, order, id, indent) != []
    ensures id in NodeIds(c.nodes)
    ensures var r := ConditionChain(c, order, id, indent);
            r == [r[0]] + (TrueStatements(c, id, indent) + FalseBranch(c, order, id, indent))
  {
  }

  /** One chain link, `[opening] + statements + false side`, is balanced
      when its false side closes the block the opening opens. */
  lemma LinkShape(lead: string, text: string, t: seq<string>, f: seq<string>, indent: string)
    requires Spaces(indent) && (lead == indent || lead == "")
    requires forall k :: 0 <= k < |t| ==> StatementLine(t[k], indent + BlockIndent)
    requires Closes(f, indent) == Opens(f) + 1 && Nested(f, indent, 1)
    requires forall k :: 0 <= k < |f| ==> ChainLine(f[k], indent)
    ensures var r := [lead + "if (" + text + ") {"] + (t + f);
            && Balanced(r, indent)
            && NoComments(r)
            && (forall k :: 1 <= k < |r| ==> ChainLine(r[k], indent))
  {
    var opening := lead + "if (" + text + ") {";
    var r := [opening] + (t + f);
    OpeningLine(lead, indent, text);
    CountsSingle(opening, indent);
    StatementsCountNothing(t, indent);
    CountsConcat(t, f, indent);
    CountsConcat([opening], t + f, indent);
    StatementsAreChainLines(t, indent);
    ChainLinesConcat(t, f, indent);
    ChainLinesAfter(opening, t + f, indent);
    LinkNested(opening, t, f, indent);
  }

  /** An opening line, statements one level deeper and a `false` side
      nested inside the opened block are nested. */
  lemma LinkNested(opening: string, t: seq<string>, f: seq<string>, indent: string)
    requires OpensBlock(opening) && !ClosesBlock(opening, indent)
    requires forall k :: 0 <= k < |t| ==> StatementLine(t[k], indent + BlockIndent)
    requires Nested(f, indent, 1)
    ensures Nested([opening] + (t + f), indent, 0)
  {
    CountsSingle(opening, indent);
    NestedSingle(opening, indent, 0);
    StatementsNested(t, indent, 1);
    StatementsCountNothing(t, indent);
    NestedConcat(t, f, indent, 1);
    NestedConcat([opening], t + f, indent, 0);
  }

  /** Chain lines stay chain lines when lists are concatenated. */
  lemma ChainLinesConcat(a: seq<string>, b: seq<string>, indent: string)
    requires forall k :: 0 <= k < |a| ==> ChainLine(a[k], indent)
    requires forall k :: 0 <= k < |b| ==> ChainLine(b[k], indent)
    ensures forall k :: 0 <= k < |a + b| ==> ChainLine((a + b)[k], indent)
  {
  }

  /** Chain lines after a first line are the chain lines of the whole. */
  lemma ChainLinesAfter(first: string, rest: seq<string>, indent: string)
    requires forall k :: 0 <= k < |rest| ==> ChainLine(rest[k], indent)
    ensures forall k :: 1 <= k < |[first] + rest| ==> ChainLine(([first] + rest)[k], indent)
  {
    var r := [first] + rest;
    forall k | 1 <= k < |r| ensures ChainLine(r[k], indent) {
      assert r[k] == rest[k - 1];
    }
  }

  /** A bare `}` closes the link's block. */
  lemma CloseShape(indent: string)
    requires Spaces(indent)
    ensures var f := [indent + "}"];
            && Closes(f, indent) == Opens(f) + 1 && Nested(f, indent, 1)
            && forall k :: 0 <= k < |f| ==> ChainLine(f[k], indent)
  {
    PrefixedLine(indent + "}", indent, "}");
    CountsSingle(indent + "}", indent);
    NestedSingle(indent + "}", indent, 1);
  }

  /** `} else {`, the statements and `}` close the link's block. */
  lemma ElseBlockShape(s: seq<string>, indent: string)
    requires Spaces(indent)
    requires forall k :: 0 <= k < |s| ==> StatementLine(s[k], indent + BlockIndent)
    ensures var f := [indent + "} else {"] + s + [indent + "}"];
            && Closes(f, indent) == Opens(f) + 1 && Nested(f, indent, 1)
            && forall k :: 0 <= k < |f| ==> ChainLine(f[k], indent)
  {
    ElseBlockNested(s, indent);
    var elseLine := indent + "} else {";
    var close := indent + "}";
    var f := [elseLine] + s + [close];
    PrefixedLine(elseLine, indent, "} else {");
    PrefixedLine(close, indent, "}");
    assert elseLine[|indent|] == '}';
    CountsSingle(elseLine, indent);
    CountsSingle(close, indent);
    StatementsCountNothing(s, indent);
    CountsConcat([elseLine], s, indent);
    CountsConcat([elseLine] + s, [close], indent);
    StatementsAreChainLines(s, indent);
    ChainLinesConcat([elseLine], s, indent);
    ChainLinesConcat([elseLine] + s, [close], indent);
  }

  /** Inside the link's block, `} else {` closes it and opens the next,
      and the statements and `}` stay inside that one. */
  lemma ElseBlockNested(s: seq<string>, indent: string)
    requires forall k :: 0 <= k < |s| ==> StatementLine(s[k], indent + BlockIndent)
    ensures Nested([indent + "} else {"] + s + [indent + "}"], indent, 1)
  {
    var elseLine := indent + "} else {";
    ClosingLines(indent);
    assert elseLine[|elseLine| - 1] == '{';
    CountsSingle(elseLine, indent);
    NestedSingle(elseLine, indent, 1);
    StatementsNested(s, indent, 1);
    StatementsCountNothing(s, indent);
    NestedConcat([elseLine], s, indent, 1);
    CountsConcat([elseLine], s, indent);
    NestedSingle(indent + "}", indent, 1);
    NestedConcat([elseLine] + s, [indent + "}"], indent, 1);
  }

  /** `} else ` followed by a balanced continuation closes the link's
      block. */
  lemma ElseChainShape(rest: seq<string>, indent: string)
    requires Spaces(indent)
    requires Closes(rest, indent) == Opens(rest) && Nested(rest, indent, 0)
    requires forall k :: 0 <= k < |rest| ==> ChainLine(rest[k], indent)
    ensures var f := [indent + "} else "] + rest;
            && Closes(f, indent) == Opens(f) + 1 && Nested(f, indent, 1)
            && forall k :: 0 <= k < |f| ==> ChainLine(f[k], indent)
  {
    ElseChainNested(rest, indent);
    var elseLine := indent + "} else ";
    var f := [elseLine] + rest;
    PrefixedLine(elseLine, indent, "} else ");
    assert elseLine[|indent|] == '}';
    CountsSingle(elseLine, indent);
    CountsConcat([elseLine], rest, indent);
    ChainLinesConcat([elseLine], rest, indent);
  }

  /** `} else ` closes the link's block, and the continuation starts at
      depth zero. */
  lemma ElseChainNested(rest: seq<string>, indent: string)
    requires Nested(rest, indent, 0)
    ensures Nested([indent + "} else "] + rest, indent, 1)
  {
    var elseLine := indent + "} else ";
    ClosingLines(indent);
    assert elseLine[|elseLine| - 1] == ' ';
    CountsSingle(elseLine, indent);
    NestedSingle(elseLine, indent, 1);
    NestedConcat([elseLine], rest, indent, 1);
  }

  /** A balanced chain whose opening line is replaced by the unindented
      opening stays balanced. */
  lemma ContinuationShape(lead: string, text: string, n: seq<string>, indent: string)
    requires Spaces(indent) && (lead == indent || lead == "")
    requires n != [] && n[0] == lead + "if (" + text + ") {"
    requires Balanced(n, indent)
    requires forall k :: 1 <= k < |n| ==> ChainLine(n[k], indent)
    ensures var rest := ["if (" + text + ") {"] + n[1..];
            && Closes(rest, indent) == Opens(rest) && Nested(rest, indent, 0)
            && (forall k :: 0 <= k < |rest| ==> ChainLine(rest[k], indent))
  {
    ContinuationNested(lead, text, n, indent);
    var first := "if (" + text + ") {";
    assert first == "" + "if (" + text + ") {";
    OpeningLine(lead, indent, text);
    OpeningLine("", indent, text);
    CountsSingle(n[0], indent);
    CountsSingle(first, indent);
    assert n == [n[0]] + n[1..];
    CountsConcat([n[0]], n[1..], indent);
    CountsConcat([first], n[1..], indent);
    var rest := [first] + n[1..];
    forall k | 0 <= k < |rest| ensures ChainLine(rest[k], indent) {
      if k >= 1 {
        assert rest[k] == n[k];
      }
    }
  }

  /** Replacing a nested chain's opening line by another opening line
      keeps it nested. */
  lemma ContinuationNested(lead: string, text: string, n: seq<string>, indent: string)
    requires Spaces(indent) && (lead == indent || lead == "")
    requires n != [] && n[0] == lead + "if (" + text + ") {"
    requires Nested(n, indent, 0)
    ensures Nested(["if (" + text + ") {"] + n[1..], indent, 0)
  {
    var first := "if (" + text + ") {";
    assert first == "" + "if (" + text + ") {";
    OpeningLine(lead, indent, text);
    OpeningLine("", indent, text);
    CountsSingle(n[0], indent);
    CountsSingle(first, indent);
    assert n == [n[0]] + n[1..];
    NestedSplit([n[0]], n[1..], indent, 0);
    NestedSingle(first, indent, 0);
    NestedConcat([first], n[1..], indent, 0);
  }

  /** A chain at a space indentation is well formed: every block it opens
      it closes, no line is a comment, and every line after the first is
      indented or is a trimmed `if (` continuation. */
  lemma {:induction false} ChainWellFormed(c: Compiler, order: seq<NodeId>, id: NodeId, indent: string)
    requires Ranked(c, order) && Spaces(indent)
    ensures var r := ConditionChain(c, order, id, indent);
            && Balanced(r, indent)
            && NoComments(r)
            && (forall k :: 1 <= k < |r| ==> ChainLine(r[k], indent))
    decreases Remaining(order, id), 1
  {
    var r := ConditionChain(c, order, id, indent);
    if r != [] {
      ChainSplit(c, order, id, indent);
      FalseBranchWellFormed(c, order, id, indent);
      var kind := ConditionKindOf(FindNode(c.nodes, id).value.config).value;
      LinkShape(Lead(kind, indent), ConditionText(c, id), TrueStatements(c, id, indent),
                FalseBranch(c, order, id, indent), indent);
    }
  }

  /** The `false` side closes the block its chain link opened, and keeps
      the chain's line shape. */
  lemma {:induction false} FalseBranchWellFormed(c: Compiler, order: seq<NodeId>, id: NodeId, indent: string)
    requires Ranked(c, order) && id in NodeIds(c.nodes) && Spaces(indent)
    ensures var f := FalseBranch(c, order, id, indent);
            && Closes(f, indent) == Opens(f) + 1 && Nested(f, indent, 1)
            && (forall k :: 0 <= k < |f| ==> ChainLine(f[k], indent))
    decreases Remaining(order, id), 0
  {
    var falseBranch := ConnectedFromHandle(c.edges, id, Some("false"));
    if |falseBranch| == 0 {
      CloseShape(indent);
    } else {
      var next := FirstCondition(c, falseBranch);
      if next.Some? && next.value != "" {
        FalseEdgeAdvances(c, order, id, next.value);
        var n := ConditionChain(c, order, next.value, indent);
        if |n| > 0 {
          ChainWellFormed(c, order, next.value, indent);
          var lead := Lead(ConditionKindOf(FindNode(c.nodes, next.value).value.config).value, indent);
          var text := ConditionText(c, next.value);
          ContinuationShape(lead, text, n, indent);
          TrimOpening(lead, text);
          assert Continuation(n) == ["if (" + text + ") {"] + n[1..];
          ElseChainShape(Continuation(n), indent);
        } else {
          ElseChainShape([], indent);
        }
      } else {
        var s := GenerateBranchStatements(c, falseBranch, indent + BlockIndent);
        if |s| > 0 {
          ElseBlockShape(s, indent);
        } else {
          CloseShape(indent);
        }
      }
    }
  }

  /** A chain root: a condition node whose stored `conditionType` is
      exactly `"if"`. */
  predicate ChainRoot(node: Node) {
    node.nodeType == Condition && Lookup(node.config, "conditionType") == Some(Str("if"))
  }

  /** Every chain root is a condition of kind `if`; the converse fails:
      a condition with no stored `conditionType` compiles as an `if` once
      it is reached but never starts a chain of its own. */
  lemma RootsAreIfConditions(node: Node)
    ensures ChainRoot(node) ==> node.nodeType == Condition && ConditionKindOf(node.config) == Some(If)
    ensures var bare := Node(node.id, Condition, map[]);
            ConditionKindOf(bare.config) == Some(If) && !ChainRoot(bare)
  {
  }

  /** The chains of the roots from node `i` on, each followed by an empty
      line when it is not empty. */
  function RootChains(c: Compiler, order: seq<NodeId>, i: nat): (r: seq<string>)
    requires Ranked(c, order) && i <= |c.nodes|
    ensures (forall j :: i <= j < |c.nodes| ==> !ChainRoot(c.nodes[j])) ==> r == []
    decreases |c.nodes| - i
  {
    if i == |c.nodes| then [] else RootBlock(c, order, i) + RootChains(c, order, i + 1)
  }

  /** Node `i`'s share of the root chains: its chain and an empty line when
      it is a root whose chain has lines, nothing otherwise. */
  function RootBlock(c: Compiler, order: seq<NodeId>, i: nat): seq<string>
    requires Ranked(c, order) && i < |c.nodes|
  {
    var node := c.nodes[i];
    var here := if ChainRoot(node) then ConditionChain(c, order, node.id, "") else [];
    if |here| > 0 then here + [""] else []
  }

  /** Some edge into `id` comes from a condition node. */
  predicate HasConditionInput(c: Compiler, id: NodeId)
  {
    exists k :: 0 <= k < |c.edges| && c.edges[k].target == id && HasType(c.nodes, c.edges[k].source, Condition)
  }

  /** `edges.some(...)`: the computable form of `HasConditionInput`. */
  function ConditionInputFrom(c: Compiler, id: NodeId, k: nat): (b: bool)
    requires k <= |c.edges|
    ensures b <==> exists j :: k <= j < |c.edges| && c.edges[j].target == id && HasType(c.nodes, c.edges[j].source, Condition)
    decreases |c.edges| - k
  {
    if k == |c.edges| then false
    else (c.edges[k].target == id && HasType(c.nodes, c.edges[k].source, Condition)) || ConditionInputFrom(c, id, k + 1)
  }

  /** The scan over the edges decides which labels stand alone. */
  lemma StandaloneByScan(c: Compiler, node: Node)
    ensures StandaloneLabel(c, node) <==> node.nodeType == Label && !ConditionInputFrom(c, node.id, 0)
  {
  }

  /** A label no condition node feeds: it is assigned outside any chain. */
  predicate StandaloneLabel(c: Compiler, node: Node) {
    node.nodeType == Label && !HasConditionInput(c, node.id)
  }

  /** A top-level label assignment. */
  predicate TopLabelLine(l: string) {
    StartsWith(l, "Label[") && l[|l| - 1] == ';'
  }

  /** The top-level label assignments, from node `i` on: one line per
      standalone label, in node order. */
  function StandaloneLabels(c: Compiler, i: nat): seq<string>
    requires i <= |c.nodes|
    decreases |c.nodes| - i
  {
    if i == |c.nodes| then []
    else
      var node := c.nodes[i];
      var rest := StandaloneLabels(c, i + 1);
      if node.nodeType == Label && !ConditionInputFrom(c, node.id, 0) then [LabelLine(node.config, "")] + rest
      else rest
  }

  /** A label line without indentation is a top-level label assignment. */
  lemma TopLabel(cfg: Config)
    ensures TopLabelLine(LabelLine(cfg, ""))
  {
    assert "" + "Label[" == "Label[";
  }

  /** There are no label lines from node `i` on exactly when no node from
      `i` on is a standalone label. */
  lemma {:induction false} StandaloneLabelsEmpty(c: Compiler, i: nat)
    requires i <= |c.nodes|
    ensures StandaloneLabels(c, i) == [] <==> forall j :: i <= j < |c.nodes| ==> !StandaloneLabel(c, c.nodes[j])
    decreases |c.nodes| - i
  {
    if i < |c.nodes| {
      StandaloneLabelsEmpty(c, i + 1);
      LabelStep(c, i);
    }
  }

  /** Every standalone label line is a top-level label assignment. */
  lemma StandaloneLabelsAreTop(c: Compiler, i: nat)
    requires i <= |c.nodes|
    ensures forall k :: 0 <= k < |StandaloneLabels(c, i)| ==> TopLabelLine(StandaloneLabels(c, i)[k])
  {
    LabelsInNodeOrder(c, i);
    var pos := Positions(StandaloneMask(c), i);
    forall k | 0 <= k < |pos| ensures TopLabelLine(LabelLine(c.nodes[pos[k]].config, "")) {
      TopLabel(c.nodes[pos[k]].config);
    }
  }

  /** The standalone labels, as a mask over the nodes. */
  ghost function StandaloneMask(c: Compiler): seq<bool> {
    seq(|c.nodes|, j requires 0 <= j < |c.nodes| => StandaloneLabel(c, c.nodes[j]))
  }

  /** Each node's top-level label line. */
  ghost function TopLabelLines(c: Compiler): seq<string> {
    seq(|c.nodes|, j requires 0 <= j < |c.nodes| => LabelLine(c.nodes[j].config, ""))
  }

  /** From node `i` on, one top-level label line per standalone label, in
      node order. */
  lemma LabelsInNodeOrder(c: Compiler, i: nat)
    requires i <= |c.nodes|
    ensures var pos, r := Positions(StandaloneMask(c), i), StandaloneLabels(c, i);
            |r| == |pos| && forall k :: 0 <= k < |pos| ==> r[k] == LabelLine(c.nodes[pos[k]].config, "")
  {
    LabelsSelected(c, i);
    var pos, r := Positions(StandaloneMask(c), i), StandaloneLabels(c, i);
    assert forall k :: 0 <= k < |pos| ==> r[k] == TopLabelLines(c)[pos[k]];
  }

  lemma LabelsSelected(c: Compiler, i: nat)
    requires i <= |c.nodes|
    ensures SelectedAt(StandaloneLabels(c, i), TopLabelLines(c), Positions(StandaloneMask(c), i))
  {
    var parts := seq(|c.nodes| + 1, j requires 0 <= j <= |c.nodes| => StandaloneLabels(c, j));
    LabelsSteps(c, parts);
    FilterByMask(StandaloneMask(c), TopLabelLines(c), parts, i);
  }

  /** Each node's contribution to `StandaloneLabels`. */
  lemma LabelsSteps(c: Compiler, parts: seq<seq<string>>)
    requires |parts| == |c.nodes| + 1
    requires forall j :: 0 <= j <= |c.nodes| ==> parts[j] == StandaloneLabels(c, j)
    ensures forall j :: 0 <= j < |c.nodes| ==> FilterStep(StandaloneMask(c), TopLabelLines(c), parts, j)
  {
    forall j | 0 <= j < |c.nodes|
      ensures FilterStep(StandaloneMask(c), TopLabelLines(c), parts, j)
    {
      LabelStep(c, j);
      assert parts[j + 1] == StandaloneLabels(c, j + 1);
    }
  }

  /** Node `j`'s contribution to `StandaloneLabels`. */
  lemma LabelStep(c: Compiler, j: nat)
    requires j < |c.nodes|
    ensures StandaloneLabels(c, j)
            == (if StandaloneLabel(c, c.nodes[j]) then [LabelLine(c.nodes[j].config, "")] else [])
               + StandaloneLabels(c, j + 1)
  {
    StandaloneByScan(c, c.nodes[j]);
  }

  /** `generateConditions`: every chain root's chain, then the standalone
      labels. */
  function GenerateConditions(c: Compiler, order: seq<NodeId>): (r: seq<string>)
    requires Ranked(c, order)
    ensures (exists j :: 0 <= j < |c.nodes| && StandaloneLabel(c, c.nodes[j])) ==> r != []
    ensures (forall j :: 0 <= j < |c.nodes| ==> !ChainRoot(c.nodes[j]) && !StandaloneLabel(c, c.nodes[j])) ==> r == []
  {
    StandaloneLabelsEmpty(c, 0);
    RootChains(c, order, 0) + StandaloneLabels(c, 0)
  }

  /** Each node's contribution to `RootChains`. */
  lemma RootChainsSteps(c: Compiler, order: seq<NodeId>, parts: seq<seq<string>>, blocks: seq<seq<string>>)
    requires Ranked(c, order) && |parts| == |c.nodes| + 1 && |blocks| == |c.nodes|
    requires forall k :: 0 <= k <= |c.nodes| ==> parts[k] == RootChains(c, order, k)
    requires forall k :: 0 <= k < |c.nodes| ==> blocks[k] == RootBlock(c, order, k)
    ensures forall k :: 0 <= k < |c.nodes| ==> ConcatStep(parts, blocks, k)
  {
    forall k | 0 <= k < |c.nodes|
      ensures ConcatStep(parts, blocks, k)
    {
      assert parts[k + 1] == RootChains(c, order, k + 1);
    }
  }

  /** A root's non-empty chain sits in the root chains as one contiguous
      block followed by an empty line. */
  lemma RootChainPlaced(c: Compiler, order: seq<NodeId>, j: nat)
    requires Ranked(c, order) && j < |c.nodes| && ChainRoot(c.nodes[j])
    requires |ConditionChain(c, order, c.nodes[j].id, "")| > 0
    ensures ContainsBlock(RootChains(c, order, 0), ConditionChain(c, order, c.nodes[j].id, ""), "")
  {
    var parts := seq(|c.nodes| + 1, k requires 0 <= k <= |c.nodes| => RootChains(c, order, k));
    var blocks := seq(|c.nodes|, k requires 0 <= k < |c.nodes| => RootBlock(c, order, k));
    RootChainsSteps(c, order, parts, blocks);
    BlockInParts(parts, blocks, 0, j, ConditionChain(c, order, c.nodes[j].id, ""), "");
  }

  /** The classification lines end with the label lines, one per
      standalone label, in node order. */
  lemma ConditionsEndWithLabels(c: Compiler, order: seq<NodeId>)
    requires Ranked(c, order)
    ensures var r, pos := GenerateConditions(c, order), Positions(StandaloneMask(c), 0);
            |pos| <= |r| && var tail := r[|r| - |pos|..];
            forall k :: 0 <= k < |pos| ==> tail[k] == LabelLine(c.nodes[pos[k]].config, "")
  {
    ConditionsSplit(c, order);
    LabelsInNodeOrder(c, 0);
    TailOf(RootChains(c, order, 0), StandaloneLabels(c, 0));
  }

  /** The section is the chains followed by the labels. */
  lemma ConditionsSplit(c: Compiler, order: seq<NodeId>)
    requires Ranked(c, order)
    ensures GenerateConditions(c, order) == RootChains(c, order, 0) + StandaloneLabels(c, 0)
  {
  }

  /** In front of the label lines, every root's non-empty chain appears as
      a block followed by an empty line. */
  lemma ConditionsHoldChains(c: Compiler, order: seq<NodeId>)
    requires Ranked(c, order)
    ensures var r, pos := GenerateConditions(c, order), Positions(StandaloneMask(c), 0);
            |pos| <= |r|
            && forall j :: (0 <= j < |c.nodes| && ChainRoot(c.nodes[j])
                            && |ConditionChain(c, order, c.nodes[j].id, "")| > 0) ==>
                 ContainsBlock(r[..|r| - |pos|], ConditionChain(c, order, c.nodes[j].id, ""), "")
  {
    var rc := RootChains(c, order, 0);
    LabelsInNodeOrder(c, 0);
    assert (rc + StandaloneLabels(c, 0))[..|rc|] == rc;
    forall j | 0 <= j < |c.nodes| && ChainRoot(c.nodes[j]) && |ConditionChain(c, order, c.nodes[j].id, "")| > 0
      ensures ContainsBlock(rc, ConditionChain(c, order, c.nodes[j].id, ""), "")
    {
      RootChainPlaced(c, order, j);
    }
  }

  /** Lines free of comments. */
  predicate NoComments(lines: seq<string>) {
    forall k :: 0 <= k < |lines| ==> !CommentLine(lines[k])
  }

  /** Balanced comment-free blocks stay so when concatenated. */
  lemma AppendWellFormed(a: seq<string>, b: seq<string>)
    requires Balanced(a, "") && NoComments(a) && Balanced(b, "") && NoComments(b)
    ensures Balanced(a + b, "") && NoComments(a + b)
  {
    CountsConcat(a, b, "");
    NestedConcat(a, b, "", 0);
    assert forall k :: |a| <= k < |a + b| ==> (a + b)[k] == b[k - |a|];
  }

  /** Top-level label lines open and close nothing and are no comments. */
  lemma {:induction false} LabelsWellFormed(lines: seq<string>)
    requires forall k :: 0 <= k < |lines| ==> TopLabelLine(lines[k])
    ensures Balanced(lines, "") && NoComments(lines)
  {
    if |lines| > 0 {
      var l := lines[|lines| - 1];
      assert TopLabelLine(l);
      assert l[0] == 'L';
      LabelsWellFormed(lines[..|lines| - 1]);
      assert lines == lines[..|lines| - 1] + [l];
    }
  }

  /** The empty separator line opens and closes nothing. */
  lemma SeparatorWellFormed()
    ensures Balanced([""], "") && NoComments([""])
  {
    CountsSingle("", "");
    NestedSingle("", "", 0);
  }

  /** With distinct node ids every chain root contributes lines: its chain
      and the separating empty line. */
  lemma {:induction false} RootChainsNonEmpty(c: Compiler, order: seq<NodeId>, i: nat, j: nat)
    requires Ranked(c, order) && UniqueIds(c.nodes) && i <= j < |c.nodes| && ChainRoot(c.nodes[j])
    ensures RootChains(c, order, i) != []
    decreases j - i
  {
    if i < j {
      RootChainsNonEmpty(c, order, i + 1, j);
    } else {
      FindNodeUnique(c.nodes, j);
      assert ConditionKindOf(c.nodes[j].config) == Some(If);
    }
  }

  /** The root chains are balanced, comment-free and separated by empty
      lines. */
  lemma {:induction false} RootChainsWellFormed(c: Compiler, order: seq<NodeId>, i: nat)
    requires Ranked(c, order) && i <= |c.nodes|
    ensures Balanced(RootChains(c, order, i), "") && NoComments(RootChains(c, order, i))
    decreases |c.nodes| - i
  {
    if i < |c.nodes| {
      var node := c.nodes[i];
      RootChainsWellFormed(c, order, i + 1);
      var here := if ChainRoot(node) then ConditionChain(c, order, node.id, "") else [];
      if ChainRoot(node) {
        ChainWellFormed(c, order, node.id, "");
      }
      SeparatedWellFormed(here, RootChains(c, order, i + 1));
    }
  }

  /** A chain followed, when it has lines, by an empty separator line, then
      more well-formed lines, is well formed. */
  lemma SeparatedWellFormed(here: seq<string>, rest: seq<string>)
    requires Balanced(here, "") && NoComments(here) && Balanced(rest, "") && NoComments(rest)
    ensures var r := (if |here| > 0 then here + [""] else []) + rest;
            Balanced(r, "") && NoComments(r)
  {
    if |here| > 0 {
      SeparatorWellFormed();
      AppendWellFormed(here, [""]);
      AppendWellFormed(here + [""], rest);
    } else {
      assert [] + rest == rest;
    }
  }

  /** The classification section is balanced and has no comment lines; a
      chain root makes it non-empty when ids are distinct. */
  lemma ConditionsWellFormed(c: Compiler, order: seq<NodeId>)
    requires Ranked(c, order)
    ensures Balanced(GenerateConditions(c, order), "") && NoComments(GenerateConditions(c, order))
    ensures UniqueIds(c.nodes) && (exists j :: 0 <= j < |c.nodes| && ChainRoot(c.nodes[j])) ==>
              GenerateConditions(c, order) != []
  {
    RootChainsWellFormed(c, order, 0);
    StandaloneLabelsAreTop(c, 0);
    LabelsWellFormed(StandaloneLabels(c, 0));
    AppendWellFormed(RootChains(c, order, 0), StandaloneLabels(c, 0));
    if UniqueIds(c.nodes) && exists j :: 0 <= j < |c.nodes| && ChainRoot(c.nodes[j]) {
      var j :| 0 <= j < |c.nodes| && ChainRoot(c.nodes[j]);
      RootChainsNonEmpty(c, order, 0, j);
    }
  }
}
