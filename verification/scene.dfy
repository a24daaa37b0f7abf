/**
  The scene builder (`drawSimpleGraph`, js/script.js:6-102), reduced to the
  structure of what it draws. Coordinates, styling attributes and the SVG
  element tree are not modelled; what remains is which shapes appear, in
  which order, and how they are named.

  The builder finds the drawing surface by id and returns when it is
  missing. Otherwise it clears the surface, builds the edge shapes (a line
  per edge, followed by a weight label when the weight is truthy), then a
  group per node (id `node-<index>`, a circle of radius 25 and the node's
  label), then the arrowhead marker, and only at the very end attaches all
  three to the surface. An edge whose endpoint is not a node index makes
  `nodes[edge.from].x` throw before anything is attached, which leaves the
  surface cleared and empty.
 */
module Scene {
  import opened Decimal

  /** An edge weight as the source may receive it. JavaScript tests it for
      truthiness: a missing weight, the number 0 and the empty string are
      false. */
  datatype Weight = NoWeight | Number(value: int) | Text(text: string)

  predicate Truthy(w: Weight)
  {
    match w
    case NoWeight => false
    case Number(v) => v != 0
    case Text(t) => t != ""
  }

  datatype Node = Node(x: int, y: int, caption: string)

  datatype Edge = Edge(from: nat, to: nat, weight: Weight, directed: bool)

  /** What the edge group holds: lines, and the weight labels of the edges
      (by edge position) that have one. */
  datatype EdgeShape =
    | Line(from: nat, to: nat, arrow: bool)
    | WeightLabel(edge: nat, text: Weight)

  /** A node group: its element id, the node index, the circle radius and
      the text drawn inside. */
  datatype NodeGroup = NodeGroup(id: string, index: nat, radius: nat, caption: string)

  /** The single arrowhead definition that directed lines refer to. */
  datatype Marker = Marker(id: string)

  datatype Scene = Scene(marker: Marker, edgeShapes: seq<EdgeShape>, nodeGroups: seq<NodeGroup>)

  /** What a call leaves on the page. */
  datatype Outcome =
    | NoSurface      // no element with the given id: nothing happens
    | Aborted        // an edge names a missing node: the surface is left empty
    | Drawn(scene: Scene)

  const NodeRadius: nat := 25
  const ArrowheadId: string := "arrowhead"

  /** The element id of the group of node `i`. */
  function NodeId(i: nat): string
  {
    "node-" + NatToString(i)
  }

  /** Distinct node indices give distinct group ids. */
  lemma NodeIdInjective(i: nat, j: nat)
    requires NodeId(i) == NodeId(j)
    ensures i == j
  {
    var p := "node-";
    assert NatToString(i) == NodeId(i)[|p|..];
    assert NatToString(j) == NodeId(j)[|p|..];
    NatToStringInjective(i, j);
  }

  /** Every edge names two existing nodes. */
  predicate EndpointsValid(nodes: seq<Node>, edges: seq<Edge>)
  {
    forall e :: e in edges ==> e.from < |nodes| && e.to < |nodes|
  }

  /** The shapes one edge adds, at position `i` of the edge list. */
  function EdgeShapesOf(e: Edge, i: nat): seq<EdgeShape>
  {
    [Line(e.from, e.to, e.directed)] + (if Truthy(e.weight) then [WeightLabel(i, e.weight)] else [])
  }

  /** The edge group's children for `edges`, the first of which sits at
      position `base` of the full edge list. */
  function EdgeShapes(edges: seq<Edge>, base: nat): seq<EdgeShape>
    decreases |edges|
  {
    if edges == [] then [] else EdgeShapesOf(edges[0], base) + EdgeShapes(edges[1..], base + 1)
  }

  /** The node group's children for `nodes`, the first of which has index
      `base`. */
  function NodeGroups(nodes: seq<Node>, base: nat): (groups: seq<NodeGroup>)
    ensures |groups| == |nodes|
    ensures forall i :: 0 <= i < |groups| ==>
      groups[i] == NodeGroup(NodeId(base + i), base + i, NodeRadius, nodes[i].caption)
    decreases |nodes|
  {
    if nodes == [] then []
    else [NodeGroup(NodeId(base), base, NodeRadius, nodes[0].caption)] + NodeGroups(nodes[1..], base + 1)
  }

  /** `drawSimpleGraph(canvasId, nodes, edges)`; `surface` says whether the
      element `canvasId` exists. */
  function Draw(surface: bool, nodes: seq<Node>, edges: seq<Edge>): Outcome
  {
    if !surface then NoSurface
    else if !EndpointsValid(nodes, edges) then Aborted
    else Drawn(Scene(Marker(ArrowheadId), EdgeShapes(edges, 0), NodeGroups(nodes, 0)))
  }

  /** The lines among some edge shapes, in order. */
  function Lines(shapes: seq<EdgeShape>): seq<EdgeShape>
  {
    if shapes == [] then []
    else (if shapes[0].Line? then [shapes[0]] else []) + Lines(shapes[1..])
  }

  /** The edge positions that carry a weight label, in order. */
  function Labelled(shapes: seq<EdgeShape>): seq<nat>
  {
    if shapes == [] then []
    else (if shapes[0].WeightLabel? then [shapes[0].edge] else []) + Labelled(shapes[1..])
  }

  lemma LinesAppend(a: seq<EdgeShape>, b: seq<EdgeShape>)
    ensures Lines(a + b) == Lines(a) + Lines(b)
  {
    if a != [] {
      assert (a + b)[1..] == a[1..] + b;
      LinesAppend(a[1..], b);
    } else {
      assert a + b == b;
    }
  }

  lemma LabelledAppend(a: seq<EdgeShape>, b: seq<EdgeShape>)
    ensures Labelled(a + b) == Labelled(a) + Labelled(b)
  {
    if a != [] {
      assert (a + b)[1..] == a[1..] + b;
      LabelledAppend(a[1..], b);
    } else {
      assert a + b == b;
    }
  }

  /** One edge contributes its line and, when its weight is truthy, one
      label. */
  lemma OwnShapes(e: Edge, i: nat)
    ensures Lines(EdgeShapesOf(e, i)) == [Line(e.from, e.to, e.directed)]
    ensures Labelled(EdgeShapesOf(e, i)) == if Truthy(e.weight) then [i] else []
  {
    var mine := EdgeShapesOf(e, i);
    if Truthy(e.weight) {
      var tag := mine[1..];
      assert tag == [WeightLabel(i, e.weight)] && tag[1..] == [];
      assert Lines(tag) == [] && Labelled(tag) == [i];
    } else {
      assert mine[1..] == [];
    }
  }

  /** One line per edge, in edge order, with the arrowhead exactly on the
      directed ones. */
  lemma {:induction false} LinesMatchEdges(edges: seq<Edge>, base: nat)
    ensures var ls := Lines(EdgeShapes(edges, base));
      && |ls| == |edges|
      && forall i :: 0 <= i < |ls| ==> ls[i] == Line(edges[i].from, edges[i].to, edges[i].directed)
    decreases |edges|
  {
    if edges != [] {
      OwnShapes(edges[0], base);
      LinesAppend(EdgeShapesOf(edges[0], base), EdgeShapes(edges[1..], base + 1));
      LinesMatchEdges(edges[1..], base + 1);
    }
  }

  /** Every element lies in `[lo, hi)`. */
  predicate Within(s: seq<nat>, lo: nat, hi: nat)
  {
    forall k :: 0 <= k < |s| ==> lo <= s[k] < hi
  }

  predicate StrictlyIncreasing(s: seq<nat>)
  {
    forall j, k :: 0 <= j < k < |s| ==> s[j] < s[k]
  }

  /** Putting a smaller position in front keeps the order. */
  lemma PrependSmaller(x: nat, s: seq<nat>, hi: nat)
    requires x < hi && Within(s, x + 1, hi) && StrictlyIncreasing(s)
    ensures Within([x] + s, x, hi) && StrictlyIncreasing([x] + s)
  {
    var t := [x] + s;
    forall j, k | 0 <= j < k < |t|
      ensures t[j] < t[k]
    {
      assert t[k] == s[k - 1];
      if j > 0 {
        assert t[j] == s[j - 1];
      }
    }
  }

  /** Labels name edges of the list, in strictly increasing position. */
  lemma {:induction false} LabelsOrdered(edges: seq<Edge>, base: nat)
    ensures Within(Labelled(EdgeShapes(edges, base)), base, base + |edges|)
    ensures StrictlyIncreasing(Labelled(EdgeShapes(edges, base)))
    decreases |edges|
  {
    if edges != [] {
      var rest := EdgeShapes(edges[1..], base + 1);
      OwnShapes(edges[0], base);
      LabelledAppend(EdgeShapesOf(edges[0], base), rest);
      LabelsOrdered(edges[1..], base + 1);
      var lr := Labelled(rest);
      if Truthy(edges[0].weight) {
        PrependSmaller(base, lr, base + |edges|);
      } else {
        assert [] + lr == lr;
      }
    }
  }

  /** A weight label appears for an edge exactly when its weight is truthy. */
  lemma {:induction false} LabelsMatchWeights(edges: seq<Edge>, base: nat)
    ensures var ls := Labelled(EdgeShapes(edges, base));
      forall i :: 0 <= i < |edges| ==> (base + i in ls <==> Truthy(edges[i].weight))
    decreases |edges|
  {
    if edges != [] {
      var rest := EdgeShapes(edges[1..], base + 1);
      OwnShapes(edges[0], base);
      LabelledAppend(EdgeShapesOf(edges[0], base), rest);
      LabelsMatchWeights(edges[1..], base + 1);
      LabelsOrdered(edges[1..], base + 1);
      var own := if Truthy(edges[0].weight) then [base] else [];
      var ls := own + Labelled(rest);
      forall i | 0 <= i < |edges|
        ensures base + i in ls <==> Truthy(edges[i].weight)
      {
        if i > 0 {
          assert edges[i] == edges[1..][i - 1];
          assert base + i !in own;
        } else {
          assert base !in Labelled(rest);
        }
      }
    }
  }

  /** Each weight label shows the weight of the edge it labels. */
  lemma {:induction false} LabelsShowWeights(edges: seq<Edge>, base: nat)
    ensures forall s :: s in EdgeShapes(edges, base) && s.WeightLabel? ==>
      base <= s.edge < base + |edges| && s.text == edges[s.edge - base].weight
    decreases |edges|
  {
    if edges != [] {
      LabelsShowWeights(edges[1..], base + 1);
      var rest := EdgeShapes(edges[1..], base + 1);
      forall s | s in EdgeShapes(edges, base) && s.WeightLabel?
        ensures base <= s.edge < base + |edges| && s.text == edges[s.edge - base].weight
      {
        if s !in EdgeShapesOf(edges[0], base) {
          assert s in rest;
          assert edges[s.edge - base] == edges[1..][s.edge - (base + 1)];
        }
      }
    }
  }

  /** Each weight label comes straight after the line of the edge it
      labels, so a label is never the first shape. */
  predicate LabelsFollowLines(shapes: seq<EdgeShape>, edges: seq<Edge>, base: nat)
  {
    forall k :: 0 <= k < |shapes| && shapes[k].WeightLabel? ==>
      && 0 < k
      && base <= shapes[k].edge < base + |edges|
      && var e := edges[shapes[k].edge - base];
         shapes[k - 1] == Line(e.from, e.to, e.directed)
  }

  /** The shapes of the first edge followed by the rest keep the labels
      next to their lines. */
  lemma FollowStep(edges: seq<Edge>, base: nat)
    requires edges != []
    requires LabelsFollowLines(EdgeShapes(edges[1..], base + 1), edges[1..], base + 1)
    ensures LabelsFollowLines(EdgeShapes(edges, base), edges, base)
  {
    var mine := EdgeShapesOf(edges[0], base);
    var rest := EdgeShapes(edges[1..], base + 1);
    var s := mine + rest;
    forall k | 0 <= k < |s| && s[k].WeightLabel?
      ensures 0 < k && base <= s[k].edge < base + |edges|
      ensures var e := edges[s[k].edge - base]; s[k - 1] == Line(e.from, e.to, e.directed)
    {
      if k >= |mine| {
        var k' := k - |mine|;
        assert s[k] == rest[k'] && s[k - 1] == rest[k' - 1];
        assert edges[s[k].edge - base] == edges[1..][rest[k'].edge - (base + 1)];
      }
    }
  }

  lemma {:induction false} LabelsFollowTheirLines(edges: seq<Edge>, base: nat)
    ensures LabelsFollowLines(EdgeShapes(edges, base), edges, base)
    decreases |edges|
  {
    if edges != [] {
      LabelsFollowTheirLines(edges[1..], base + 1);
      FollowStep(edges, base);
    }
  }

  /** The edge group holds one child per edge plus one per truthy weight. */
  lemma {:induction false} EdgeShapeCount(edges: seq<Edge>, base: nat)
    ensures |EdgeShapes(edges, base)| == |edges| + |Labelled(EdgeShapes(edges, base))|
    decreases |edges|
  {
    if edges != [] {
      var mine := EdgeShapesOf(edges[0], base);
      var rest := EdgeShapes(edges[1..], base + 1);
      LabelledAppend(mine, rest);
      EdgeShapeCount(edges[1..], base + 1);
      OwnShapes(edges[0], base);
    }
  }

  /** What a drawn scene holds, stated against its input: the outcome is
      decided by the surface and the endpoints; a drawn scene has the
      arrowhead marker, one line per edge with an arrow iff the edge is
      directed, a label for exactly the edges with a truthy weight, right
      after that edge's line, and one
      group per node with id `node-<index>` and radius 25. */
  lemma DrawnScene(surface: bool, nodes: seq<Node>, edges: seq<Edge>)
    ensures Draw(surface, nodes, edges) == NoSurface <==> !surface
    ensures Draw(surface, nodes, edges) == Aborted <==> surface && !EndpointsValid(nodes, edges)
    ensures Draw(surface, nodes, edges).Drawn? ==>
      var sc := Draw(surface, nodes, edges).scene;
      var ls := Lines(sc.edgeShapes);
      && sc.marker.id == ArrowheadId
      && |ls| == |edges|
      && (forall i :: 0 <= i < |edges| ==> ls[i] == Line(edges[i].from, edges[i].to, edges[i].directed))
      && (forall i :: 0 <= i < |edges| ==> (i in Labelled(sc.edgeShapes) <==> Truthy(edges[i].weight)))
      && StrictlyIncreasing(Labelled(sc.edgeShapes))
      && LabelsFollowLines(sc.edgeShapes, edges, 0)
      && |sc.edgeShapes| == |edges| + |Labelled(sc.edgeShapes)|
      && |sc.nodeGroups| == |nodes|
      && forall i :: 0 <= i < |nodes| ==>
           sc.nodeGroups[i] == NodeGroup(NodeId(i), i, NodeRadius, nodes[i].caption)
  {
    LinesMatchEdges(edges, 0);
    LabelsOrdered(edges, 0);
    LabelsMatchWeights(edges, 0);
    EdgeShapeCount(edges, 0);
    LabelsFollowTheirLines(edges, 0);
  }
}
