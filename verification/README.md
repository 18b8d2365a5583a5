# PsyLang visual builder: code generator and editor rules

This project models two parts of the PsyLang visual builder, a node-and-edge
editor for psychological-scale scoring rules.

- **The code generator** (`PsyLangCodeGenerator`). It builds a dependency
  graph from the edges and runs a depth-first topological sort. A cycle stops
  generation with a single error. Otherwise it renders:
  - expressions for answer, score, number, math, comparison, logical and
    assign nodes;
  - one `Output[..] = ..` line per driven output node;
  - an `if` / `} else ` chain for each `if` condition node, with
    standalone labels after the chains;
  - the warnings about missing inputs, missing outputs and unconnected nodes.
- **The editor's pure rules**:
  - the data kind of each connection point (`getHandleDataType`);
  - connection admission (`onConnect` with its kind check and the
    single-connection rule);
  - the edge pruning done when a node's configuration changes
    (`onUpdateNode`);
  - the mapping from a palette entry to a new node (`onAddNode`).

Modules:
- `Wrappers` (`Option`).
- `Seqs` (insertion-ordered sets as sequences, `Join`).
- `Graph`: nodes, edges, configuration values, JavaScript falsiness and the
  loose handle comparison.
- `DepGraph`: the dependency maps.
- `TopoSort`: the depth-first search, with a ghost stack that proves a
  failed search found a cycle.
- `Expr`: expressions as a tree, rendered to the source's text.
- `Statements`: branch statements, condition chains and labels.
- `Generator`: `generate`.
- `Editor`: the editor rules.

A list of lines is *balanced* at an indentation when it has as many lines
ending in `{` as lines starting with that indentation and `}`, and, read
from the top, no line closes a block that is not open.

A configuration is a map from keys to integers or strings. `x || d` becomes
`Setting`. A handle id is `Option<string>`, where `None` and `""` both stand
for a missing id.

## Model

| member | source | states |
|---|---|---|
| Graph.ParseNameRoundTrip | src/comp/New.tsx:189-192 | every node type the editor knows is read back from its name unchanged |
| Graph.NameParseRoundTrip | src/comp/New.tsx:189-192 | every type name, known or not, survives a parse and re-print |
| Graph.HandleMatchesEquivalence | src/utils/codeGenerator.ts:170-175 | the loose handle test (equal ids, or both ids missing) is reflexive, symmetric and transitive |
| Graph.FindNode | src/utils/codeGenerator.ts:81-83 | a lookup succeeds exactly for ids some node carries, and returns the first node in the list with that id |
| Graph.FindNodeUnique | src/utils/codeGenerator.ts:81-83 | when ids are distinct, looking up a node's id returns that very node |
| Graph.NatToDecimal | src/comp/New.tsx:1192 | a counter's text is a non-empty string of decimal digits |
| Graph.DecimalRoundTrip | src/comp/New.tsx:1192 | reading a counter's text back as a number gives the counter |
| Seqs.AddUnique | src/utils/codeGenerator.ts:34-35 | adding to an insertion-ordered set appends exactly when the element is new, keeps the old order and keeps elements distinct |
| Seqs.Dedup | src/utils/codeGenerator.ts:32-36 | the set of a list holds each of the list's elements once and nothing else |
| Seqs.DedupKeepsFirstOccurrences | src/utils/codeGenerator.ts:32-36 | the set of a list is the list's elements at their first occurrences, in list order |
| Seqs.Join | src/utils/codeGenerator.ts:457 | joining no lines gives the empty text, and joining one line gives that line |
| DepGraph.EmptyAdjacency | src/utils/codeGenerator.ts:26-29 | every node starts with an empty dependency entry, and no other key exists |
| DepGraph.AddDependency | src/utils/codeGenerator.ts:34-35 | `map.get(k)?.add(v)` never creates a key |
| DepGraph.BuildDependencyGraph | src/utils/codeGenerator.ts:24-37 | each node's entry in both maps is the de-duplicated list of its edge neighbours, in edge order; only nodes have entries |
| DepGraph.ForwardStep | src/utils/codeGenerator.ts:34 | one more edge extends a node's dependency entry exactly as the edge list grows |
| DepGraph.BackwardStep | src/utils/codeGenerator.ts:35 | one more edge extends a node's dependent entry exactly as the edge list grows |
| DepGraph.DedupStep | src/utils/codeGenerator.ts:34-35 | de-duplicating a list extended by one element is adding that element to the set of the list |
| DepGraph.SourcesIntoMembership | src/utils/codeGenerator.ts:34 | an id is among the sources into a node iff some edge runs from it to that node |
| DepGraph.TargetsFromMembership | src/utils/codeGenerator.ts:35 | an id is among the targets of a node iff some edge runs from that node to it |
| DepGraph.DependencyMembership | src/utils/codeGenerator.ts:24-37 | an id is in a node's dependency (or dependent) entry iff the id is a node and an edge runs from the other id to it (or from it to the other id); entries never repeat |
| DepGraph.RepeatedEdgeAddsNothing | src/utils/codeGenerator.ts:34-35 | a second edge between the same two nodes leaves both maps unchanged |
| DepGraph.UnchangedEntry | src/utils/codeGenerator.ts:34 | adding a dependency already present changes nothing |
| DepGraph.InDedup | src/utils/codeGenerator.ts:34 | nothing in the list is lost by de-duplication |
| TopoSort.Visit | src/utils/codeGenerator.ts:44-67 | a visit that returns true leaves the node finished and every finished node after its dependencies; a visit that returns false implies a dependency cycle |
| TopoSort.VisitFresh | src/utils/codeGenerator.ts:53-66 | visiting an unseen node finishes it with the search invariant kept, or reports a cycle only when one exists |
| TopoSort.VisitDeps | src/utils/codeGenerator.ts:53-66 | visiting an unseen node with dependencies finishes all of them before the node, or reports a cycle only when one exists |
| TopoSort.Enter | src/utils/codeGenerator.ts:53 | marking a node as being visited keeps the invariant and the stack a dependency path, and shrinks the termination measure |
| TopoSort.VisitList | src/utils/codeGenerator.ts:57-61 | the dependency loop finishes every dependency in the list, or stops only on a real cycle |
| TopoSort.FinishAfterDeps | src/utils/codeGenerator.ts:63-65 | a node is appended to the order only after all its dependencies were appended |
| TopoSort.FinishKeepsInv | src/utils/codeGenerator.ts:63-65 | finishing a node whose dependencies are all finished keeps the order free of repeats and dependencies first |
| TopoSort.CycleFromStack | src/utils/codeGenerator.ts:45-48 | meeting a node that is still being visited means the dependencies contain a cycle |
| TopoSort.SortFrom | src/utils/codeGenerator.ts:69-78 | the outer loop either yields a valid order containing every node, or fails only when the graph has a cycle |
| TopoSort.TopologicalSort | src/utils/codeGenerator.ts:39-79 | a non-empty node list gives the empty result only when the dependencies have a cycle, and, for maps keyed by node ids only (as the dependency maps are), always when they do; otherwise the result is a topological order of all nodes |
| TopoSort.ValidOrderAcyclic | src/utils/codeGenerator.ts:39-79 | a graph over the listed nodes that has a topological order has no cycle |
| TopoSort.DependencyPrecedes | src/utils/codeGenerator.ts:55-65 | in the sorted order every dependency comes strictly before the node that depends on it |
| TopoSort.Descends | src/utils/codeGenerator.ts:55-65 | along a dependency path the positions in a topological order strictly decrease, so no path returns to its start |
| Expr.RenderAll | src/utils/codeGenerator.ts:117-119 | rendering a list of expressions renders each in place |
| Expr.GetConnectedNode | src/utils/codeGenerator.ts:170-175 | the result is the source of the first edge into the node on the given handle, and there is none exactly when no such edge exists |
| Expr.GenerateExpression | src/utils/codeGenerator.ts:85-92 | a node already on the path renders as the circular-reference marker, and an unknown id as the unknown-node marker |
| Expr.Dispatch | src/utils/codeGenerator.ts:96-166 | answers and scores render as `Answer[..]` and `Score[..]` with question 1 by default; a number renders its value or `0`; an assign node is its `value` operand; a comparison has two operands; a logical node is `true` or joins at least two; every other kind, `sum` included, renders as the unknown-expression marker with its type name |
| Expr.GenerateAll | src/utils/codeGenerator.ts:117-119 | one expression per dependency |
| Expr.GenerateAllInOrder | src/utils/codeGenerator.ts:117-119 | the expressions follow the dependencies' order, each generated with the same path |
| Expr.OperandByPort | src/utils/codeGenerator.ts:125-129 | an operand comes from the first edge on its port, and an unconnected port gives the literal `0` |
| Expr.MathArity | src/utils/codeGenerator.ts:106-134 | no input gives `0`; one input passes through; `+` and `*` (or a missing operator) fold all dependencies in order; any other operator takes `input-a` and `input-b` |
| Expr.ComparisonOperands | src/utils/codeGenerator.ts:136-144 | a comparison renders `(input-a op input-b)` with `>` when no operator is set |
| Expr.LogicalArity | src/utils/codeGenerator.ts:146-156 | fewer than two inputs give `true`; otherwise all dependencies are joined in order by the operator, `&&` by default |
| Expr.ValidOrderRanks | src/utils/codeGenerator.ts:393-397 | once the sort succeeds, every edge into a node comes from a node earlier in the order |
| Expr.OrderPrecedes | src/utils/codeGenerator.ts:39-79 | the sorted order places each dependency before its dependent |
| Expr.EdgesAreDependencies | src/utils/codeGenerator.ts:32-36 | every edge into a node is recorded as a dependency of that node |
| Expr.NoCircularRefsAfterGate | src/utils/codeGenerator.ts:85-88 | once the cycle check passes, no generated expression contains the circular-reference marker |
| Expr.NoCircularRefs | src/utils/codeGenerator.ts:85-166 | an expression generated from a node ranked above everything on the path has no circular-reference marker |
| Expr.NoCircularDispatch | src/utils/codeGenerator.ts:96-166 | no node kind's rendering introduces a circular-reference marker when the path lies below it |
| Expr.NoCircularMath | src/utils/codeGenerator.ts:106-134 | a math node's rendering has no circular-reference marker when the path lies below it |
| Expr.NoCircularOperand | src/utils/codeGenerator.ts:125-129 | an operand taken from a port has no circular-reference marker |
| Expr.NoCircularAll | src/utils/codeGenerator.ts:117-119 | the list of dependency expressions has no circular-reference marker |
| Statements.OutputAssignment | src/utils/codeGenerator.ts:183-188 | an output node yields a line exactly when it has a dependency, and the line is `Output[id] = expr` with id `0` by default and the expression of its first dependency |
| Statements.GenerateAssignments | src/utils/codeGenerator.ts:177-192 | at most one line per node; no lines exactly when no output node is driven; every line assigns an output |
| Statements.AssignmentsInNodeOrder | src/utils/codeGenerator.ts:177-192 | the lines are the driven output nodes' assignments, one each, in node order |
| Statements.ConnectedFromHandle | src/utils/codeGenerator.ts:195-199 | an id is listed exactly when some edge leaves the node on the given handle towards it |
| Statements.ConnectedInEdgeOrder | src/utils/codeGenerator.ts:195-199 | the list is the targets of the matching edges, one per edge, repeats kept, in edge order |
| Statements.LabelLine | src/utils/codeGenerator.ts:220-224 | a label statement starts with the indent and `Label[` and ends in `;` |
| Statements.LabelLineFields | src/utils/codeGenerator.ts:220-224 | a label statement is the indent, `Label[`, the label id (`0` by default), `] = "`, the value (`Unknown` by default) and `";`, each at its place |
| Statements.OutputLine | src/utils/codeGenerator.ts:216 | an output statement starts with the indent and `Output[` and ends in `;` |
| Statements.OutputLineFields | src/utils/codeGenerator.ts:216 | an output statement is the indent, `Output[`, the slot, `] = `, the expression and `;`, each at its place |
| Statements.BranchStatement | src/utils/codeGenerator.ts:205-236 | a node yields a statement exactly when it is a label, a driven output or an assign with a `value` input; the statement is the label line, the output assignment with `;`, or `Output[targetOutput] = expr;` with target `1` by default |
| Statements.GenerateBranchStatements | src/utils/codeGenerator.ts:202-240 | at most one line per id, every line indented; a label among the ids forces a line; ids of other kinds only give no lines |
| Statements.BranchStatementsInOrder | src/utils/codeGenerator.ts:202-240 | the lines are the statements of the ids that yield one, in the order of the ids |
| Statements.StatementsConcat | src/utils/codeGenerator.ts:205 | statement lines stay statement lines when lists are concatenated |
| Statements.TrimStart | src/utils/codeGenerator.ts:279 | removes exactly the leading whitespace |
| Statements.TrimEnd | src/utils/codeGenerator.ts:279 | removes exactly the trailing whitespace |
| Statements.Trim | src/utils/codeGenerator.ts:279 | the result is a slice of the input with only whitespace outside it, and starts and ends with non-whitespace |
| Statements.TrimOpening | src/utils/codeGenerator.ts:275-280 | trimming an indented `if (..) {` line removes exactly its indentation |
| Statements.TrimStartSpaces | src/utils/codeGenerator.ts:279 | trimming the start of an indented line that starts with `i` removes exactly the indentation |
| Statements.FirstCondition | src/utils/codeGenerator.ts:268-271 | the result is the first of the `false` targets that is a condition node, and there is none only when no target is a condition |
| Statements.CountsConcat | src/utils/codeGenerator.ts:243-341 | block openings and closings add up over concatenation |
| Statements.StatementsCountNothing | src/utils/codeGenerator.ts:202-240 | branch statements neither open nor close blocks |
| Statements.FalseEdgeAdvances | src/utils/codeGenerator.ts:266-276 | following a `false` edge to a condition moves strictly forward in the topological order, so the chain recursion ends |
| Statements.ConditionChain | src/utils/codeGenerator.ts:243-341 | a chain is produced exactly for condition nodes whose kind is `if` or `elseif`; its first line is the indented `if (..) {` for `if` and the unindented one for `elseif` |
| Statements.FalseBranch | src/utils/codeGenerator.ts:266-295 | the `false` side always starts with a line that closes the link's block |
| Statements.FalseBranchForms | src/utils/codeGenerator.ts:266-295 | with no `false` edge the side is a bare `}`; with a condition among the `false` targets it is `} else ` then that condition's chain with its first line trimmed; otherwise `} else {`, the statements of the targets and `}`, or a bare `}` when they yield none |
| Statements.ElseContinuation | src/utils/codeGenerator.ts:273-280 | on a space indentation the line after `} else ` is exactly the next condition's unindented `if (..) {`, for either kind |
| Statements.PrefixedLine | src/utils/codeGenerator.ts:258 | a line that starts with the indent and a non-`#` character is indented and not a comment |
| Statements.OpeningLine | src/utils/codeGenerator.ts:258 | an `if (..) {` line opens a block, does not close one, and is not a comment |
| Statements.StatementsAreChainLines | src/utils/codeGenerator.ts:262-263 | statements one level deeper are legal lines inside a chain |
| Statements.TrueStatements | src/utils/codeGenerator.ts:261-263 | the `true` branch's lines are statements one level deeper |
| Statements.LinkShape | src/utils/codeGenerator.ts:258-295 | one link with a closing `false` side is balanced, comment-free and well-shaped |
| Statements.CloseShape | src/utils/codeGenerator.ts:294 | a bare `}` closes one block more than it opens |
| Statements.ElseBlockShape | src/utils/codeGenerator.ts:286-288 | `} else {`, statements and `}` close one block more than they open |
| Statements.ElseChainShape | src/utils/codeGenerator.ts:275-280 | `} else ` followed by a balanced continuation closes one block more than it opens |
| Statements.ContinuationShape | src/utils/codeGenerator.ts:276-280 | a chain with its first line trimmed stays balanced and well-shaped |
| Statements.ChainWellFormed | src/utils/codeGenerator.ts:243-341 | every condition chain opens and closes the same number of blocks, has no comment line, and each later line is indented or a trimmed `if (` continuation |
| Statements.FalseBranchWellFormed | src/utils/codeGenerator.ts:266-295 | the `false` side closes exactly the block its link opened |
| Statements.RootChains | src/utils/codeGenerator.ts:347-360 | without an `if` root there are no chain lines |
| Statements.RootsAreIfConditions | src/utils/codeGenerator.ts:347-351 | every chain root is a condition of kind `if`, while a condition with no stored kind is read as `if` but starts no chain |
| Statements.RootChainPlaced | src/utils/codeGenerator.ts:354-360 | each root's non-empty chain appears in the chain lines, followed by a blank line |
| Statements.ConditionInputFrom | src/utils/codeGenerator.ts:368-372 | a label has a condition input iff some edge into it comes from a condition node |
| Statements.StandaloneLabelsEmpty | src/utils/codeGenerator.ts:363-383 | no label lines exactly when there is no label without a condition input |
| Statements.StandaloneLabelsAreTop | src/utils/codeGenerator.ts:378-383 | every standalone label line is an unindented `Label[..] = ..;` statement |
| Statements.LabelsInNodeOrder | src/utils/codeGenerator.ts:363-383 | the lines are the labels without a condition input, one each, in node order |
| Statements.GenerateConditions | src/utils/codeGenerator.ts:343-386 | a standalone label makes the section non-empty; with no `if` root and no standalone label it is empty |
| Statements.ConditionsEndWithLabels | src/utils/codeGenerator.ts:343-386 | the section ends with the standalone label lines, in node order |
| Statements.ConditionsHoldChains | src/utils/codeGenerator.ts:343-386 | before the labels, the section holds each root's non-empty chain followed by a blank line |
| Statements.AppendWellFormed | src/utils/codeGenerator.ts:357 | balanced comment-free sections stay so when concatenated |
| Statements.LabelsWellFormed | src/utils/codeGenerator.ts:378-383 | standalone label lines are balanced and not comments |
| Statements.RootChainsNonEmpty | src/utils/codeGenerator.ts:354-360 | with distinct ids, an `if` root always contributes lines |
| Statements.RootChainsWellFormed | src/utils/codeGenerator.ts:354-360 | the chains with their blank separators are balanced and comment-free |
| Statements.SeparatedWellFormed | src/utils/codeGenerator.ts:356-359 | a chain followed by its separator and more chains stays balanced |
| Statements.ConditionsWellFormed | src/utils/codeGenerator.ts:343-386 | the classification section is balanced and comment-free, and non-empty when an `if` root exists and ids are distinct |
| Generator.UnconnectedWarning | src/utils/codeGenerator.ts:453 | the unconnected-node warning carries its fixed prefix |
| Generator.CodeLines | src/utils/codeGenerator.ts:400-420 | the program is the banner; then, when there are assignments, the scores header, the assignments in order and a blank; then, when there are conditions, the classification header and the conditions, which end the program; with neither it is the banner alone |
| Generator.ScoresSectionComments | src/utils/codeGenerator.ts:408-413 | the scores section's only comment is its header, present iff it has assignments |
| Generator.ClassificationSectionComments | src/utils/codeGenerator.ts:415-420 | the classification section's only comment is its header, present iff it has lines |
| Generator.CodeLinesComments | src/utils/codeGenerator.ts:400-420 | the only comment lines of the program are the banner and the headers, each header present exactly when its section is non-empty |
| Generator.HasIncoming | src/utils/codeGenerator.ts:438 | true iff some edge ends at the node |
| Generator.HasOutgoing | src/utils/codeGenerator.ts:439 | true iff some edge starts at the node |
| Generator.UnconnectedCount | src/utils/codeGenerator.ts:437-450 | the count is bounded by the node count and is zero iff no node is unconnected by its kind's rule |
| Generator.UnconnectedCountIsCardinality | src/utils/codeGenerator.ts:437-452 | the count equals the number of unconnected nodes |
| Generator.WarningLines | src/utils/codeGenerator.ts:429-454 | each warning is present iff its check fires, and the unconnected warning, if any, comes last with the count |
| Generator.Warnings | src/utils/codeGenerator.ts:422-454 | warnings report a missing input node iff there is none, a missing output iff there is none, and the unconnected count iff it is positive |
| Generator.Generate | src/utils/codeGenerator.ts:388-461 | an error appears exactly when the edges form a dependency cycle, and then there is no code and no warning; otherwise the warnings are the validation warnings |
| Generator.ProgramShape | src/utils/codeGenerator.ts:399-420 | a successful program starts with the banner, has the scores header iff some output is driven, the classification header iff conditions exist, no other comments, and a balanced classification section |
| Editor.Normalize | src/comp/New.tsx:1126-1127 | replacing an empty handle id with no id gives a handle loosely equal to the handle and never the empty id |
| Editor.PortKindOf | src/comp/New.tsx:112-177 | an unknown node has no kind on either side |
| Editor.SourceKind | src/comp/New.tsx:119-137 | an output point carries a number for answer, score, sum, number, math and assign nodes, a boolean for comparison and logical nodes, an execution flow for conditions, and nothing for output, label and unknown nodes |
| Editor.TargetKind | src/comp/New.tsx:138-177 | an input point carries an execution flow for labels and for the `execution` point of an assign or `elseif` condition, a boolean for logical nodes and every other condition point, nothing for answer, score, sum, number and unknown nodes or an assign point other than `value`, and a number otherwise |
| Editor.CompatibleIsPartialEquivalence | src/comp/New.tsx:182-185 | kinds are compatible only when both are present and equal, so compatibility is symmetric and transitive and a missing kind matches nothing |
| Editor.DrawnKindAgrees | src/comp/New.tsx:200-735 | every connection point a node component draws has the kind the kind table gives it |
| Editor.RenderedKindsAgree | src/comp/New.tsx:112-177 | `getHandleDataType` agrees with every drawn connection point of a known node |
| Editor.SingleRespectsMatching | src/comp/New.tsx:1135-1172 | the single-connection rule gives the same answer for loosely equal handles |
| Editor.SingleDrawnPoints | src/comp/New.tsx:1135-1172 | of the input points a node draws, exactly the `multi-input` points and the inputs of a math node whose operator is not stored as `-` or `/` accept more than one edge |
| Editor.Occupied | src/comp/New.tsx:1175-1177 | a handle is taken iff some edge already enters the target on a loosely equal handle |
| Editor.Admission | src/comp/New.tsx:1113-1189 | a connection is refused for a missing endpoint, an unknown node, incompatible kinds or a taken single-connection handle, each exactly in its case and in that order of precedence, and accepted iff none applies |
| Editor.AddEdge | src/comp/New.tsx:1186 | an edge joining the same ports as an existing one adds nothing; a new one is appended |
| Editor.Connect | src/comp/New.tsx:1113-1189 | a refused connection leaves the edges as they were; an accepted one appends at most the new edge |
| Editor.ConnectPreservesInvariants | src/comp/New.tsx:1126-1186 | connecting keeps every edge's kinds compatible and every single-connection handle with at most one producer, and keeps edges on drawn connection points |
| Editor.AppendKeepsInvariants | src/comp/New.tsx:1174-1182 | appending a typed edge that shares no single-connection handle keeps both invariants |
| Editor.AppendKeepsAttached | src/comp/New.tsx:1186 | appending an edge onto a drawn connection point keeps every edge attached |
| Editor.MathPolicyAsWritten | src/comp/New.tsx:1285-1302 | as written, with the old operator read as `operator or empty` and the new one raw: nothing happens iff they are equal, the inputs are cleared iff exactly one of them is `+` or `*`, and every other change keeps all |
| Editor.OtherPolicy | src/comp/New.tsx:1303-1334 | a condition whose stored type changes between `if` and `elseif` loses its execution inputs, any other type change keeps everything; a comparison or logical operator change keeps everything; an unchanged value does nothing |
| Editor.PolicyAsWritten | src/comp/New.tsx:1281-1334 | as written, only a math node crossing operator classes (old read with an empty default, new read raw) clears the inputs, only an `if`/`elseif` swap drops execution inputs, and nodes other than math, condition, comparison and logical are never filtered |
| Editor.Policy | src/comp/New.tsx:1281-1334 | corrected decision (see Findings): the same, with the math classes taken from the effective operators |
| Editor.MathPolicy | src/comp/New.tsx:1285-1302 | corrected decision (see Findings): with the operators read as `operator or +`, nothing happens iff they are equal, the inputs are cleared iff the change crosses between multi-input and two-input, and every other change keeps all |
| Editor.PolicyEffects | src/comp/New.tsx:1350-1374 | the filter's verdicts on the node's own edges: keep-all keeps every edge, clear-inputs drops every input and keeps outputs, the condition swap drops exactly the `execution` inputs and keeps outputs, and a condition change with no lists keeps everything |
| Editor.PruneEdges | src/comp/New.tsx:1350-1374 | the filter keeps exactly the edges the decision keeps, and changes nothing when it keeps all |
| Editor.PruneKeepsOrder | src/comp/New.tsx:1350-1374 | the filter keeps the kept edges in their original order, repeats included |
| Editor.ApplyPolicy | src/comp/New.tsx:1348-1377 | no decision, keep-all and the comparison and logical decisions leave the edges as they are; clear-inputs removes exactly the edges into the node; the condition swap removes exactly its `execution` inputs; edges not touching the node always stay |
| Editor.SetConfig | src/comp/New.tsx:1337-1346 | the node with the id takes the patch's configuration; every other node is unchanged |
| Editor.SetConfigFind | src/comp/New.tsx:1337-1346 | a lookup after the update finds the same node, with the new configuration when it is the updated one |
| Editor.UpdateNodeAsWritten | src/comp/New.tsx:1271-1383 | as written: the same promises, except that a math change drops exactly the node's inputs iff the stored old operator (or empty) and the raw new one differ in being `+` or `*` |
| Editor.UpdateNode | src/comp/New.tsx:1271-1383 | corrected update (see Findings): an unknown id changes nothing; the node takes the patch's configuration, while the decision reads the patch merged over the old configuration; edges not touching the node stay and no edge appears; non-math, non-condition changes keep all; a math change drops exactly the node's inputs iff the effective operator crosses classes; an `if`/`elseif` swap drops exactly its execution inputs, and any other condition change keeps all |
| Editor.AsWrittenAgreesOnStoredOperators | src/comp/New.tsx:1285-1302 | when a math node's old and new operators are both stored and non-empty, the update as written and the corrected update give the same nodes and edges |
| Editor.StoredOperatorsAgree | src/comp/New.tsx:1286-1291 | with both operators stored and non-empty, the two math decisions agree on clearing the inputs and otherwise both keep every edge |
| Editor.NumbersAreNotWords | src/comp/New.tsx:149 | no number renders as the word `elseif` |
| Editor.ElseIfSetting | src/comp/New.tsx:1304 | a node read as `elseif` has `conditionType` set to exactly `elseif` |
| Editor.DrawnTargetSurvives | src/comp/New.tsx:1303-1315 | under the corrected decision, an input point the pruning keeps is still drawn after the change, with the same kind |
| Editor.HandlesIgnoreConfig | src/comp/New.tsx:305-707 | a node's drawn points change only through a math node's operator class or a condition's `elseif` kind |
| Editor.EdgeStaysSound | src/comp/New.tsx:1350-1374 | under the corrected decision, a kept edge stays typed and attached after the node's configuration changes |
| Editor.KeptEdgesSound | src/comp/New.tsx:1350-1374 | under the corrected decision, the edges kept stay typed and attached |
| Editor.UpdateKeepsEdgesSound | src/comp/New.tsx:1271-1383 | the corrected update keeps every edge typed and on a drawn connection point after a property-panel edit |
| Editor.MinusIsBinary | src/comp/New.tsx:305-307 | `-` is a two-input operator, and a missing operator counts as `+` |
| Editor.MathInputs | src/comp/New.tsx:305-365 | a math node draws `multi-input` iff its operator takes many inputs, and `input-a` otherwise |
| Editor.MissingOperatorSound | src/comp/New.tsx:319-327 | the counterexample graph starts typed and attached |
| Editor.StaleInputAfterMissingOperator | src/comp/New.tsx:1286 | as written, switching a math node with no operator to `-` keeps its `multi-input` edge, which is then attached to nothing |
| Editor.MissingOperatorCorrected | src/comp/New.tsx:1285-1302 | with the effective operator, the same switch drops the stale edge and leaves the graph attached |
| Editor.EmptyOperatorClearsInputs | src/comp/New.tsx:1287 | as written, emptying a `+` math node's operator drops its `multi-input` edge although the node still draws that point |
| Editor.EmptyOperatorCorrected | src/comp/New.tsx:1285-1302 | with the effective operator, emptying a `+` node's operator keeps its edges |
| Editor.PaletteType | src/comp/New.tsx:1214-1215 | `if` and `elseif` become condition nodes; every other name is kept as the node type |
| Editor.PaletteNode | src/comp/New.tsx:1191-1268 | the new node's id is the counter's decimal text, and a custom configuration wins over the default |
| Editor.PaletteConditions | src/comp/New.tsx:1195-1215 | the `if` entry gives a condition that starts a chain; the `elseif` entry gives an `elseif` condition that does not |
| Editor.AddNodeKeepsIdsUnique | src/comp/New.tsx:1191-1193 | adding a node with the counter as id keeps ids distinct and the counter above every id |

## Left out

- Rendering, React state, `localStorage`, toasts, node positions and node labels are not modelled. Neither are the edge id and styling `addEdge` assigns: the new edge's id is a parameter.
- Numbers are integers. The source's configuration values may be floating point, but the generator only prints them.
- `addEdge` from `@xyflow/react` is not part of this model. `Editor.AddEdge` models it as "append unless an edge joins the same ports".
- `needsEdgeUpdate` with a node type other than math, condition, comparison or logical never filters, and the model keeps that. A patch that changes `nodeType` is not modelled: the property panel only changes `config`.
- `newData.config` being `undefined` is modelled as an absent patch. A palette name with no default configuration gets the empty configuration rather than `undefined`.
- Seqs.Join: states only the zero- and one-line cases; splitting the program text back into lines is not proved.
- Editor.PortKindOf: its contract covers only unknown nodes; `RenderedKindsAgree` states the kinds of known nodes against the drawn points.
- Editor.ConnectPreservesInvariants: the single-producer invariant is proved for connecting, not for configuration changes.
- Statements.ConditionChain: its own contract states the first line only. The rest is stated through `ChainSplit` (opening, `true` statements, `false` side), `BranchStatementsInOrder` and `FalseBranchForms`.
- Statements.FalseBranch: its own contract states only that the first line closes the block, because it is mutually recursive with `ConditionChain` and its forms are cheaper to prove outside it. `FalseBranchForms` and `ElseContinuation` state the three forms.
- Generator.Generate: the code text is `Join` of `ProgramLines`. Its shape is stated on the lines by `ProgramShape`, not on the joined text.
- src/utils/codeGenerator.ts:275-279 pushes `} else ` and the trimmed continuation `if (..) {` as two separate elements of the line list, so the joined text has them on separate lines. The model keeps them as two lines.
- Editor.UpdateNode: it departs from the source's math decision only where `AsWrittenAgreesOnStoredOperators` does not apply, that is when an operator is missing or empty. The rest of the editor model builds on this corrected update; `UpdateNodeAsWritten` is the code as written.
- Editor.UpdateKeepsEdgesSound: it is proved for the corrected update only, for edits of one key through the property panel, and for condition nodes only for `conditionType` values `if` and `elseif`. As written, the first Findings row breaks it.

## Findings

| source | as written | input that shows it | evidently intended | confidence | as-written member | corrected member |
|---|---|---|---|---|---|---|
| src/comp/New.tsx:1286 | `onUpdateNode` reads a missing math operator as `''`, which is not multi-input. The renderer (New.tsx:306-307), the property panel and the generator all read it as `+`. | Take answer `a` and math `m` with an empty configuration, joined by an edge into `m`'s `multi-input` point. Set `m`'s operator to `-`. Reachable only from stored data: every way the editor creates a math node sets an operator (the defaults at src/comp/New.tsx:1200, the palette at src/components/NodePanel.tsx:89), so a math node without one can only come from the saved nodes loaded at src/comp/New.tsx:1080. | The change crosses from multi-input to two-input, so `m`'s inputs are cleared. As written, every edge is kept, and the `multi-input` edge ends at a point that is no longer drawn. | not executed | Editor.StaleInputAfterMissingOperator | Editor.MissingOperatorCorrected |
| src/comp/New.tsx:1287 | The new operator is read raw, without the `or +` the renderer applies, so emptying the operator reads as a change from multi-input to two-input. | Take math `m` with operator `+` and an edge into its `multi-input` point. Set the operator to the empty text. Latent: the only caller of `onUpdateNode`, src/components/PropertyPanel.tsx:38-39, sends the operator from a select whose options (src/components/PropertyPanel.tsx:115-118) are never empty. | The node is still drawn and generated as `+`, so nothing changes and the edge stays. As written, every input of `m` is removed. | low, not executed | Editor.EmptyOperatorClearsInputs | Editor.EmptyOperatorCorrected |
