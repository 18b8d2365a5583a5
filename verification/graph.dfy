/** The graph snapshot the compiler works on: typed nodes with an open
    configuration mapping, and edges between named connection points
    ("handles"). Also the JavaScript value conventions the source relies on:
    falsy defaults (`x || d`), loose handle matching and number rendering. */
module Graph {
  import opened Wrappers

  type NodeId = string

  /** The node-type tag. `Other` keeps any tag outside the closed set, which
      every dispatch in the source sends to its catch-all arm. */
  datatype NodeType =
    | Answer | Score | Sum | Number | Math | Comparison | Logical
    | Output | Label | Condition | Assign
    | Other(name: string)

  /** The tag as the source spells it. */
  function NodeTypeName(t: NodeType): string {
    match t
    case Answer => "answer"
    case Score => "score"
    case Sum => "sum"
    case Number => "number"
    case Math => "math"
    case Comparison => "comparison"
    case Logical => "logical"
    case Output => "output"
    case Label => "label"
    case Condition => "condition"
    case Assign => "assign"
    case Other(name) => name
  }

  /** Reads a tag; a name outside the closed set becomes `Other`. */
  function ParseNodeType(s: string): NodeType {
    if s == "answer" then Answer
    else if s == "score" then Score
    else if s == "sum" then Sum
    else if s == "number" then Number
    else if s == "math" then Math
    else if s == "comparison" then Comparison
    else if s == "logical" then Logical
    else if s == "output" then Output
    else if s == "label" then Label
    else if s == "condition" then Condition
    else if s == "assign" then Assign
    else Other(s)
  }

  /** An `Other` tag never spells one of the closed names. */
  predicate CanonicalNodeType(t: NodeType) {
    t.Other? ==> ParseNodeType(t.name) == t
  }

  /** Reading a printed tag gives the tag back. */
  lemma ParseNameRoundTrip(t: NodeType)
    requires CanonicalNodeType(t)
    ensures ParseNodeType(NodeTypeName(t)) == t
  {
  }

  /** Printing a read tag gives the text back, and reading always yields a
      canonical tag. */
  lemma NameParseRoundTrip(s: string)
    ensures NodeTypeName(ParseNodeType(s)) == s
    ensures CanonicalNodeType(ParseNodeType(s))
  {
  }

  /** A configuration value: the source stores numbers and strings. */
  datatype Scalar = Num(n: int) | Str(s: string)

  /** The open key/value configuration of a node (`data.config`); a missing
      key is JavaScript's `undefined`. */
  type Config = map<string, Scalar>

  datatype Node = Node(id: NodeId, nodeType: NodeType, config: Config)

  /** A wire from a source handle to a target handle. A handle that is
      `None` is JavaScript's `undefined`/`null`. */
  datatype Edge = Edge(
    id: string,
    source: NodeId,
    target: NodeId,
    sourceHandle: Option<string>,
    targetHandle: Option<string>)

  /** JavaScript truthiness of a configuration value. */
  predicate Truthy(v: Scalar) {
    match v
    case Num(n) => n != 0
    case Str(s) => s != ""
  }

  /** A configuration value inside a template literal. */
  function Render(v: Scalar): string {
    match v
    case Num(n) => IntToDecimal(n)
    case Str(s) => s
  }

  /** `config.key || default`, rendered as text. */
  function Setting(c: Config, key: string, default: string): (r: string)
    ensures key !in c ==> r == default
  {
    if key in c && Truthy(c[key]) then Render(c[key]) else default
  }

  /** The math operators that take any number of inputs. */
  predicate MultiInputOperator(op: string) {
    op == "+" || op == "*"
  }

  /** `config.key` read raw, `None` standing for `undefined`. */
  function Lookup(c: Config, key: string): Option<Scalar> {
    if key in c then Some(c[key]) else None
  }

  /** A missing handle: `!h` in JavaScript. */
  predicate Falsy(h: Option<string>) {
    h.None? || h.value == ""
  }

  /** `a === b || (!a && !b)`: the handle comparison used for every
      per-port lookup. */
  predicate HandleMatches(a: Option<string>, b: Option<string>) {
    a == b || (Falsy(a) && Falsy(b))
  }

  /** Handle matching is an equivalence. */
  lemma HandleMatchesEquivalence(a: Option<string>, b: Option<string>, c: Option<string>)
    ensures HandleMatches(a, a)
    ensures HandleMatches(a, b) ==> HandleMatches(b, a)
    ensures HandleMatches(a, b) && HandleMatches(b, c) ==> HandleMatches(a, c)
  {
  }

  /** The ids of all nodes. */
  function NodeIds(nodes: seq<Node>): set<NodeId> {
    set i | 0 <= i < |nodes| :: nodes[i].id
  }

  /** `nodes.find(n => n.id === id)`: the first node carrying the id. */
  function FindNode(nodes: seq<Node>, id: NodeId): (r: Option<Node>)
    ensures r.Some? <==> id in NodeIds(nodes)
    ensures r.Some? ==> r.value.id == id && r.value in nodes
    ensures r.Some? ==> exists i :: 0 <= i < |nodes| && nodes[i] == r.value
                                    && forall j :: 0 <= j < i ==> nodes[j].id != id
  {
    if |nodes| == 0 then None
    else if nodes[0].id == id then Some(nodes[0])
    else
      var r := FindNode(nodes[1..], id);
      assert NodeIds(nodes) == {nodes[0].id} + NodeIds(nodes[1..]) by {
        forall x | x in NodeIds(nodes) ensures x in {nodes[0].id} + NodeIds(nodes[1..]) {
          var i :| 0 <= i < |nodes| && nodes[i].id == x;
          if i > 0 { assert nodes[1..][i - 1].id == x; }
        }
      }
      if r.Some? then
        var i :| 0 <= i < |nodes[1..]| && nodes[1..][i] == r.value
                 && forall j :: 0 <= j < i ==> nodes[1..][j].id != id;
        assert nodes[i + 1] == r.value;
        assert forall j :: 0 <= j < i + 1 ==> nodes[j].id != id by {
          forall j | 0 <= j < i + 1 ensures nodes[j].id != id {
            if j > 0 { assert nodes[j] == nodes[1..][j - 1]; }
          }
        }
        r
      else r
  }

  /** The node `id` exists and carries tag `t`. */
  predicate HasType(nodes: seq<Node>, id: NodeId, t: NodeType) {
    var n := FindNode(nodes, id);
    n.Some? && n.value.nodeType == t
  }

  /** No two nodes share an id. */
  predicate UniqueIds(nodes: seq<Node>) {
    forall i, j :: 0 <= i < j < |nodes| ==> nodes[i].id != nodes[j].id
  }

  /** With distinct ids, looking a node's id up finds that node. */
  lemma FindNodeUnique(nodes: seq<Node>, i: nat)
    requires UniqueIds(nodes) && i < |nodes|
    ensures FindNode(nodes, nodes[i].id) == Some(nodes[i])
  {
    assert nodes[i].id in NodeIds(nodes);
    var r := FindNode(nodes, nodes[i].id);
    var k :| 0 <= k < |nodes| && nodes[k] == r.value
             && forall j :: 0 <= j < k ==> nodes[j].id != nodes[i].id;
    assert nodes[k].id == nodes[i].id;
  }

  /** Decimal digits of a natural number, most significant first. */
  function NatToDecimal(n: nat): (r: string)
    ensures |r| > 0 && forall i :: 0 <= i < |r| ==> '0' <= r[i] <= '9'
  {
    if n < 10 then [DigitChar(n)] else NatToDecimal(n / 10) + [DigitChar(n % 10)]
  }

  function DigitChar(d: nat): (c: char)
    requires d < 10
    ensures '0' <= c <= '9'
  {
    ['0', '1', '2', '3', '4', '5', '6', '7', '8', '9'][d]
  }

  /** JavaScript's rendering of an integral number in a template literal. */
  function IntToDecimal(n: int): string {
    if n < 0 then "-" + NatToDecimal(-n) else NatToDecimal(n)
  }

  /** The value of a string of decimal digits. */
  function DecimalValue(s: string): nat
    requires forall i :: 0 <= i < |s| ==> '0' <= s[i] <= '9'
  {
    if |s| == 0 then 0
    else 10 * DecimalValue(s[..|s| - 1]) + ((s[|s| - 1] as int) - ('0' as int))
  }

  /** Decimal rendering loses nothing: reading the digits back gives the
      number. */
  lemma {:induction false} DecimalRoundTrip(n: nat)
    ensures DecimalValue(NatToDecimal(n)) == n
  {
    if n >= 10 {
      DecimalRoundTrip(n / 10);
      var s := NatToDecimal(n);
      assert s[..|s| - 1] == NatToDecimal(n / 10);
    }
  }
}
