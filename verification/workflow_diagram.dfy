/**
 * `generate_dynamic_workflow` of backend/main.py: the extracted components
 * become a Mermaid flowchart. Node ids `A1`, `A2`, ... come from a counter
 * that is bumped once per node and once more, without a node, for the
 * "improve" loop; the edges are fixed apart from the two-per-additional-step
 * fork; the trailing style block is a constant.
 */
module WorkflowDiagram {
  import opened Wrappers
  import opened Text
  import opened ArabicText
  import opened WorkflowComponents

  /** The evaluation, outcome and edge labels of one language. */
  datatype Labels = Labels(
    evaluation: string, success: string, failure: string,
    successEdge: string, improveEdge: string, failureEdge: string)

  function LabelsOf(lang: Language): Labels {
    match lang
    case Arabic => Labels("التقييم", "التوسع", "إعادة التخطيط", "نجاح", "تحسين", "فشل")
    case English => Labels("Evaluation", "Expand", "Re-plan", "Success", "Improve", "Failure")
  }

  /** A node declaration: `A<id>["label"]`, or `A<id>{"label"}` for the decision diamond. */
  datatype Node = Box(id: nat, text: string) | Diamond(id: nat, text: string)

  /** An edge `A<from> --> A<to>`, or `A<from> -->|label| A<to>` when labelled. */
  datatype Edge = Edge(from: nat, caption: Option<string>, to: nat)

  /** Python's `str(n)` for a natural number. */
  function Decimal(n: nat): (r: string)
    ensures |r| >= 1 && forall i :: 0 <= i < |r| ==> '0' <= r[i] <= '9'
  {
    var d := [('0' as int + n % 10) as char];
    if n < 10 then d else Decimal(n / 10) + d
  }

  function NodeRef(id: nat): string {
    "A" + Decimal(id)
  }

  function NodeLine(n: Node): string {
    match n
    case Box(id, text) => NodeRef(id) + "[\"" + text + "\"]"
    case Diamond(id, text) => NodeRef(id) + "{\"" + text + "\"}"
  }

  function EdgeLine(e: Edge): string {
    match e.caption
    case None => NodeRef(e.from) + " --> " + NodeRef(e.to)
    case Some(l) => NodeRef(e.from) + " -->|" + l + "| " + NodeRef(e.to)
  }

  function NodeLines(ns: seq<Node>): (r: seq<string>)
    ensures |r| == |ns| && forall i :: 0 <= i < |ns| ==> r[i] == NodeLine(ns[i])
  {
    seq(|ns|, i requires 0 <= i < |ns| => NodeLine(ns[i]))
  }

  function EdgeLines(es: seq<Edge>): (r: seq<string>)
    ensures |r| == |es| && forall i :: 0 <= i < |es| ==> r[i] == EdgeLine(es[i])
  {
    seq(|es|, i requires 0 <= i < |es| => EdgeLine(es[i]))
  }

  /** `add[:20] + "..."`: the label of an additional step. */
  function Shorten(s: string): (r: string)
    ensures 3 <= |r| <= 23 && r[|r| - 3..] == "..."
    ensures |s| <= 20 ==> r == s + "..."
    ensures |s| > 20 ==> |r| == 23 && r[..20] == s[..20]
  {
    (if |s| <= 20 then s else s[..20]) + "..."
  }

  /** Every phase slot holds a step, as `extract_workflow_components` guarantees. */
  predicate Complete(c: Components) {
    |c.research| >= 1 && |c.development| >= 1 && |c.execution| >= 1
  }

  /** How many additional steps get a node: `len(additional[:2])`. */
  function ExtraCount(c: Components): (k: nat)
    ensures k <= 2 && k <= |c.additional|
    ensures k == |c.additional| || k == 2
  {
    if |c.additional| < 2 then |c.additional| else 2
  }

  /** The boxes `A5`, `A6`, ... of the additional steps, labelled by `Shorten`. */
  function StepNodes(adds: seq<string>): (r: seq<Node>)
    ensures |r| == |adds|
  {
    if adds == [] then [] else StepNodes(adds[..|adds| - 1]) + [Box(4 + |adds|, Shorten(adds[|adds| - 1]))]
  }

  /** The fork `A2 --> A<id>`, `A<id> --> A3` for each of the first `k` additional steps. */
  function ForkEdges(k: nat): (r: seq<Edge>)
    ensures |r| == 2 * k
  {
    if k == 0 then [] else ForkEdges(k - 1) + [Edge(2, None, 4 + k), Edge(4 + k, None, 3)]
  }

  /** The node declarations in the order the function emits them. */
  function NodesOf(c: Components, l: Labels): seq<Node>
    requires Complete(c)
  {
    var k := ExtraCount(c);
    [Box(1, c.research[0]), Box(2, c.development[0]), Box(3, c.execution[0]), Diamond(4, l.evaluation)]
    + StepNodes(c.additional[..k])
    + [Box(5 + k, l.success), Box(7 + k, l.failure)]
  }

  /** The edges in the order the function emits them. */
  function EdgesOf(c: Components, l: Labels): seq<Edge> {
    var k := ExtraCount(c);
    [Edge(1, None, 2), Edge(2, None, 3), Edge(3, None, 4),
     Edge(4, Some(l.successEdge), 5 + k), Edge(4, Some(l.improveEdge), 3), Edge(4, Some(l.failureEdge), 7 + k)]
    + ForkEdges(k)
  }

  /** The lines of the hard-coded style block appended to every diagram. */
  const StyleLines: seq<string> := [
    "",
    "    %% Styling",
    "    style A1 fill:#4CAF50,stroke:#388E3C,color:white",
    "    classDef evaluation fill:#FFC107,stroke:#FFA000",
    "    classDef success fill:#4CAF50,stroke:#388E3C,color:white",
    "    classDef failure fill:#F44336,stroke:#D32F2F,color:white",
    "    classDef default fill:#f8f9fa,stroke:#495057,color:#333",
    "    class A4 evaluation;",
    "    class A5 success;",
    "    class A6 failure;",
    "    "]

  /** The style block: it opens with a newline and ends with four spaces. */
  const StylingBlock: string := Join(StyleLines, "\n")

  /** The diagram text, stated from the layout. */
  function DiagramText(c: Components, l: Labels, style: string): string
    requires Complete(c)
  {
    "graph " + style + "\n"
    + Join(NodeLines(NodesOf(c, l)), "\n") + "\n"
    + Join(EdgeLines(EdgesOf(c, l)), "\n") + "\n"
    + StylingBlock
  }

  /** The diagram `generate_dynamic_workflow` returns for a strategy. */
  function DiagramOf(strategy: string, style: string, lang: Language): string {
    DiagramText(ComponentsOf(strategy, lang), LabelsOf(lang), style)
  }

  /** `generate_dynamic_workflow(strategy, style, target_language)`. */
  method GenerateDynamicWorkflow(strategy: string, style: string, lang: Language) returns (diagram: string)
    ensures diagram == DiagramOf(strategy, style, lang)
  {
    var c := ExtractWorkflowComponents(strategy, lang);
    assert c == ComponentsOf(strategy, lang);
    diagram := Render(c, LabelsOf(lang), style);
  }

  /**
   * The body of `generate_dynamic_workflow` after extraction: the id counter
   * and the node and edge lists. The lists hold `Node` and `Edge` values,
   * rendered by `NodeLine` and `EdgeLine` when they are joined.
   */
  method Render(c: Components, labels: Labels, style: string) returns (diagram: string)
    requires Complete(c)
    ensures diagram == DiagramText(c, labels, style)
  {
    diagram := "graph " + style + "\n";
    var nodes: seq<Node> := [];
    var nodeId: nat := 0;

    nodeId := nodeId + 1;
    var researchId := nodeId;
    nodes := nodes + [Box(researchId, c.research[0])];
    nodeId := nodeId + 1;
    var developmentId := nodeId;
    nodes := nodes + [Box(developmentId, c.development[0])];
    nodeId := nodeId + 1;
    var executionId := nodeId;
    nodes := nodes + [Box(executionId, c.execution[0])];
    nodeId := nodeId + 1;
    var evaluationId := nodeId;
    nodes := nodes + [Diamond(evaluationId, labels.evaluation)];
    assert nodes == [Box(1, c.research[0]), Box(2, c.development[0]), Box(3, c.execution[0]), Diamond(4, labels.evaluation)];

    var adds := c.additional[..ExtraCount(c)];
    var additionalIds: seq<nat> := [];
    ghost var head := nodes;
    for i := 0 to |adds|
      invariant nodeId == 4 + i
      invariant |additionalIds| == i && forall j :: 0 <= j < i ==> additionalIds[j] == 5 + j
      invariant nodes == head + StepNodes(adds[..i])
    {
      nodeId := nodeId + 1;
      additionalIds := additionalIds + [nodeId];
      nodes := nodes + [Box(nodeId, Shorten(adds[i]))];
      assert adds[..i + 1][..i] == adds[..i];
    }
    assert adds[..|adds|] == adds;

    var relationships := [
      Edge(researchId, None, developmentId),
      Edge(developmentId, None, executionId),
      Edge(executionId, None, evaluationId)];

    nodeId := nodeId + 1;
    var successId := nodeId;
    nodes := nodes + [Box(successId, labels.success)];
    relationships := relationships + [Edge(evaluationId, Some(labels.successEdge), successId)];

    nodeId := nodeId + 1;
    relationships := relationships + [Edge(evaluationId, Some(labels.improveEdge), executionId)];

    nodeId := nodeId + 1;
    var failureId := nodeId;
    nodes := nodes + [Box(failureId, labels.failure)];
    relationships := relationships + [Edge(evaluationId, Some(labels.failureEdge), failureId)];
    assert nodes == NodesOf(c, labels) by {
      assert nodes == head + StepNodes(adds) + [Box(5 + |adds|, labels.success), Box(7 + |adds|, labels.failure)];
    }

    ghost var fixed := relationships;
    if |c.additional| > 0 {
      for i := 0 to |adds|
        invariant relationships == fixed + ForkEdges(i)
      {
        relationships := relationships + [Edge(developmentId, None, additionalIds[i])];
        relationships := relationships + [Edge(additionalIds[i], None, executionId)];
      }
    }
    assert relationships == EdgesOf(c, labels);

    diagram := diagram + Join(NodeLines(nodes), "\n") + "\n";
    diagram := diagram + Join(EdgeLines(relationships), "\n") + "\n";
    diagram := diagram + StylingBlock;
  }

  /** The number a run of decimal digits denotes. */
  function DigitsValue(s: string): nat
    requires forall i :: 0 <= i < |s| ==> '0' <= s[i] <= '9'
  {
    if s == [] then 0 else DigitsValue(s[..|s| - 1]) * 10 + (s[|s| - 1] as int - '0' as int)
  }

  /** `Decimal` round-trips, so distinct ids give distinct node references. */
  lemma {:induction false} DecimalRoundTrip(n: nat)
    ensures DigitsValue(Decimal(n)) == n
  {
    var d := [('0' as int + n % 10) as char];
    if n >= 10 {
      DecimalRoundTrip(n / 10);
      var r := Decimal(n / 10) + d;
      assert r[..|r| - 1] == Decimal(n / 10);
    } else {
      assert d[..0] == [];
    }
  }

  lemma NodeRefInjective(a: nat, b: nat)
    ensures NodeRef(a) == NodeRef(b) <==> a == b
  {
    if NodeRef(a) == NodeRef(b) {
      assert Decimal(a) == NodeRef(a)[1..];
      assert Decimal(b) == NodeRef(b)[1..];
      DecimalRoundTrip(a);
      DecimalRoundTrip(b);
    }
  }

  /** `StepNodes` puts step `i` in box `A<5+i>` under its shortened text. */
  lemma {:induction false} StepNodesAt(adds: seq<string>, i: nat)
    requires i < |adds|
    ensures StepNodes(adds)[i] == Box(5 + i, Shorten(adds[i]))
  {
    var front := adds[..|adds| - 1];
    if i < |front| {
      StepNodesAt(front, i);
      assert front[i] == adds[i];
    }
  }

  /** `ForkEdges(k)` links `A2` to each step box and each step box back to `A3`. */
  lemma {:induction false} ForkEdgesAt(k: nat, j: nat)
    requires j < 2 * k
    ensures ForkEdges(k)[j] == if j % 2 == 0 then Edge(2, None, 5 + j / 2) else Edge(5 + j / 2, None, 3)
  {
    if j < 2 * (k - 1) {
      ForkEdgesAt(k - 1, j);
    }
  }

  /**
   * The node list: the three phase boxes, the evaluation diamond, one box per
   * shown additional step, then the success and failure boxes; ids run
   * 1 .. 5+k and then jump to 7+k, because the "improve" loop consumes 6+k.
   */
  lemma NodesLayout(c: Components, l: Labels)
    requires Complete(c)
    ensures var ns := NodesOf(c, l); var k := ExtraCount(c);
      |ns| == 6 + k
      && (forall i :: 0 <= i < 5 + k ==> ns[i].id == i + 1)
      && ns[5 + k].id == 7 + k
      && (forall i :: 0 <= i < |ns| ==> (ns[i].Diamond? <==> i == 3))
      && ns[3].text == l.evaluation
      && (forall i :: 0 <= i < k ==> ns[4 + i] == Box(5 + i, Shorten(c.additional[i])))
      && ns[4 + k] == Box(5 + k, l.success) && ns[5 + k] == Box(7 + k, l.failure)
  {
    var ns := NodesOf(c, l);
    var k := ExtraCount(c);
    var adds := c.additional[..k];
    forall i | 0 <= i < k
      ensures ns[4 + i] == Box(5 + i, Shorten(c.additional[i]))
    {
      StepNodesAt(adds, i);
    }
  }

  /** The ids the diagram declares when `k` additional steps are shown. */
  predicate Declared(k: nat, id: nat) {
    1 <= id <= 5 + k || id == 7 + k
  }

  /** An id names a node exactly when it is declared; `6+k`, skipped by the "improve" loop, is not. */
  lemma NodeIds(c: Components, l: Labels)
    requires Complete(c)
    ensures var ns := NodesOf(c, l); var k := ExtraCount(c);
      (forall id: nat :: Declared(k, id) <==> exists n :: n in ns && n.id == id)
      && !Declared(k, 6 + k)
  {
    var ns := NodesOf(c, l);
    var k := ExtraCount(c);
    NodesLayout(c, l);
    forall id: nat
      ensures Declared(k, id) <==> exists n :: n in ns && n.id == id
    {
      if Declared(k, id) {
        if id == 7 + k {
          assert ns[5 + k] in ns;
        } else {
          assert ns[id - 1] in ns;
        }
      }
    }
  }

  /** Node ids are pairwise distinct. */
  lemma NodeIdsDistinct(c: Components, l: Labels)
    requires Complete(c)
    ensures var ns := NodesOf(c, l);
      forall i, j :: 0 <= i < j < |ns| ==> ns[i].id != ns[j].id
  {
    NodesLayout(c, l);
  }

  /**
   * The edge list: the phase chain, the three evaluation outcomes, then the
   * fork through each shown additional step.
   */
  lemma EdgesLayout(c: Components, l: Labels)
    ensures var es := EdgesOf(c, l); var k := ExtraCount(c);
      |es| == 6 + 2 * k
      && es[..3] == [Edge(1, None, 2), Edge(2, None, 3), Edge(3, None, 4)]
      && es[3] == Edge(4, Some(l.successEdge), 5 + k)
      && es[4] == Edge(4, Some(l.improveEdge), 3)
      && es[5] == Edge(4, Some(l.failureEdge), 7 + k)
      && (forall j :: 0 <= j < k ==> es[6 + 2 * j] == Edge(2, None, 5 + j) && es[7 + 2 * j] == Edge(5 + j, None, 3))
  {
    var es := EdgesOf(c, l);
    var k := ExtraCount(c);
    forall j | 0 <= j < k
      ensures es[6 + 2 * j] == Edge(2, None, 5 + j) && es[7 + 2 * j] == Edge(5 + j, None, 3)
    {
      ForkEdgesAt(k, 2 * j);
      ForkEdgesAt(k, 2 * j + 1);
    }
  }

  /** Every edge joins two declared ids. */
  lemma EdgesJoinDeclared(c: Components, l: Labels)
    ensures forall e :: e in EdgesOf(c, l) ==> Declared(ExtraCount(c), e.from) && Declared(ExtraCount(c), e.to)
  {
    var es := EdgesOf(c, l);
    var k := ExtraCount(c);
    forall e | e in es
      ensures Declared(k, e.from) && Declared(k, e.to)
    {
      var j :| 0 <= j < |es| && es[j] == e;
      if j >= 6 {
        ForkEdgesAt(k, j - 6);
      }
    }
  }

  /** The style block assigns the evaluation, success and failure classes to `A4`, `A5` and `A6`, fixed ids. */
  lemma StylingNames()
    ensures StyleLines[7] == "    class " + NodeRef(4) + " evaluation;"
    ensures StyleLines[8] == "    class " + NodeRef(5) + " success;"
    ensures StyleLines[9] == "    class " + NodeRef(6) + " failure;"
  {
    DecimalDigit(4);
    DecimalDigit(5);
    DecimalDigit(6);
  }

  /** A single digit is written as itself. */
  lemma DecimalDigit(n: nat)
    requires n < 10
    ensures NodeRef(n) == ['A', ('0' as int + n) as char]
  {
  }

  /**
   * The style block always styles `A5` as success and `A6` as failure. `A5`
   * is the success box only when there is no additional step, and the failure
   * box, `A<7+k>`, is never `A6`: with one step `A6` is the success box, with
   * two it is the second step, and with none no node has that id.
   */
  lemma StyledNodes(c: Components, l: Labels)
    requires Complete(c)
    ensures var ns := NodesOf(c, l); var k := ExtraCount(c);
      ns[0].id == 1 && ns[3] == Diamond(4, l.evaluation)
      && ns[4].id == 5
      && (k == 0 ==> ns[4] == Box(5, l.success))
      && (k >= 1 ==> ns[4] == Box(5, Shorten(c.additional[0])))
      && ns[5 + k].id != 6
      && (k == 1 ==> ns[5] == Box(6, l.success))
      && (k == 2 ==> ns[5] == Box(6, Shorten(c.additional[1])))
      && (k == 0 ==> forall n :: n in ns ==> n.id != 6)
  {
    var ns := NodesOf(c, l);
    var k := ExtraCount(c);
    NodesLayout(c, l);
  }

  lemma FrameOf(header: string, middle: string, tail: string)
    ensures var d := header + middle + tail;
      |header| + |tail| <= |d| && d[..|header|] == header && d[|d| - |tail|..] == tail
  {
    var d := header + middle + tail;
    assert d[..|header|] == header;
    assert d[|d| - |tail|..] == tail;
  }

  /** The diagram opens with the `graph <style>` header and closes with the style block. */
  lemma DiagramFrame(c: Components, l: Labels, style: string)
    requires Complete(c)
    ensures var d := DiagramText(c, l, style); var header := "graph " + style + "\n";
      |header| + |StylingBlock| <= |d|
      && d[..|header|] == header
      && d[|d| - |StylingBlock|..] == StylingBlock
  {
    var middle := Join(NodeLines(NodesOf(c, l)), "\n") + "\n" + Join(EdgeLines(EdgesOf(c, l)), "\n") + "\n";
    FrameOf("graph " + style + "\n", middle, StylingBlock);
  }
}
