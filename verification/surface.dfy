/**
  The colours of the node circles on the page, as the animators and the
  reset button change them. A circle starts with no fill attribute of its
  own (the stylesheet colours it); the breadth-first animator paints the
  circle of each node it visits green (js/script.js:120-123), the
  depth-first animator paints it red (js/script.js:150-153), both through
  `document.getElementById("node-<n>")` and doing nothing when no such
  element exists, and `resetGraph` (js/script.js:229-233) paints every
  node circle blue.
 */
module Surface {
  import opened Options
  import opened Scene
  import Graph
  import Bfs

  /** A circle's fill attribute. */
  datatype Fill = Unset | Colour(hex: string)

  /** The circle of one node group, with the id of its group. */
  datatype Circle = Circle(id: string, fill: Fill)

  const BaseColour: string := "#2563eb"
  const BfsColour: string := "#10b981"
  const DfsColour: string := "#ef4444"

  /** The circles of a drawn scene, in document order, before any
      animation. */
  function CirclesOf(groups: seq<NodeGroup>): (cs: seq<Circle>)
    ensures |cs| == |groups|
    ensures forall i :: 0 <= i < |cs| ==> cs[i] == Circle(groups[i].id, Unset)
  {
    if groups == [] then [] else [Circle(groups[0].id, Unset)] + CirclesOf(groups[1..])
  }

  /** `document.getElementById(id)` followed by its circle: the first
      circle whose group has the given id. */
  function FindCircle(cs: seq<Circle>, id: string): (r: Option<nat>)
    ensures r.Some? ==> r.value < |cs| && cs[r.value].id == id
    ensures r.Some? ==> forall j :: 0 <= j < r.value ==> cs[j].id != id
    ensures r.None? ==> forall j :: 0 <= j < |cs| ==> cs[j].id != id
    decreases |cs|
  {
    if cs == [] then None
    else if cs[0].id == id then Some(0)
    else match FindCircle(cs[1..], id)
      case None => None
      case Some(j) => Some(j + 1)
  }

  /** One animator highlight of node `n` in `colour`. */
  function Highlight(cs: seq<Circle>, n: nat, colour: string): (r: seq<Circle>)
    ensures |r| == |cs|
  {
    match FindCircle(cs, NodeId(n))
    case None => cs
    case Some(i) => cs[i := Circle(cs[i].id, Colour(colour))]
  }

  /** Highlighting each node of `order` in turn. */
  function Paint(cs: seq<Circle>, order: seq<nat>, colour: string): (r: seq<Circle>)
    ensures |r| == |cs|
    decreases |order|
  {
    if order == [] then cs else Paint(Highlight(cs, order[0], colour), order[1..], colour)
  }

  /** `resetGraph`: every node circle, in document order, gets the base
      colour. */
  function Reset(cs: seq<Circle>): seq<Circle>
  {
    if cs == [] then [] else [Circle(cs[0].id, Colour(BaseColour))] + Reset(cs[1..])
  }

  /** Two circle lists agree on ids, position by position. */
  predicate SameIds(a: seq<Circle>, b: seq<Circle>)
  {
    |a| == |b| && forall i :: 0 <= i < |a| ==> a[i].id == b[i].id
  }

  /** No id names two circles. */
  predicate DistinctIds(cs: seq<Circle>)
  {
    forall i, j :: 0 <= i < j < |cs| ==> cs[i].id != cs[j].id
  }

  /** Some node of `order` is named by `id`. */
  ghost predicate Named(order: seq<nat>, id: string)
  {
    exists n :: n in order && NodeId(n) == id
  }

  /** After a reset every circle is blue and nothing else has changed:
      the same circles, with the same ids, in the same order. */
  lemma {:induction false} ResetColours(cs: seq<Circle>)
    ensures SameIds(Reset(cs), cs)
    ensures forall i :: 0 <= i < |cs| ==> Reset(cs)[i].fill == Colour(BaseColour)
    decreases |cs|
  {
    if cs != [] {
      ResetColours(cs[1..]);
      var r := Reset(cs);
      forall i | 0 < i < |cs|
        ensures r[i] == Circle(cs[i].id, Colour(BaseColour))
      {
        assert r[i] == Reset(cs[1..])[i - 1];
        assert cs[i] == cs[1..][i - 1];
      }
    }
  }

  /** Two lists with the same ids reset to the same page. */
  lemma {:induction false} ResetOnlyReadsIds(a: seq<Circle>, b: seq<Circle>)
    requires SameIds(a, b)
    ensures Reset(a) == Reset(b)
    decreases |a|
  {
    if a != [] {
      assert SameIds(a[1..], b[1..]) by {
        forall i | 0 <= i < |a[1..]|
          ensures a[1..][i].id == b[1..][i].id
        {
          assert a[1..][i] == a[i + 1] && b[1..][i] == b[i + 1];
        }
      }
      ResetOnlyReadsIds(a[1..], b[1..]);
    }
  }

  /** Resetting twice is resetting once. */
  lemma {:induction false} ResetIdempotent(cs: seq<Circle>)
    ensures Reset(Reset(cs)) == Reset(cs)
  {
    ResetColours(cs);
    ResetOnlyReadsIds(Reset(cs), cs);
  }

  /** One highlight recolours exactly the circle named after the node, if
      there is one, and keeps every id. */
  lemma HighlightEffect(cs: seq<Circle>, n: nat, colour: string)
    requires DistinctIds(cs)
    ensures SameIds(Highlight(cs, n, colour), cs)
    ensures forall i :: 0 <= i < |cs| ==>
      Highlight(cs, n, colour)[i].fill == if cs[i].id == NodeId(n) then Colour(colour) else cs[i].fill
  {
  }

  /** Painting an order recolours exactly the circles named after its
      nodes and keeps every id. */
  lemma {:induction false} PaintEffect(cs: seq<Circle>, order: seq<nat>, colour: string)
    requires DistinctIds(cs)
    ensures SameIds(Paint(cs, order, colour), cs)
    ensures forall i :: 0 <= i < |cs| ==>
      Paint(cs, order, colour)[i].fill == if Named(order, cs[i].id) then Colour(colour) else cs[i].fill
    decreases |order|
  {
    if order != [] {
      var h := Highlight(cs, order[0], colour);
      HighlightEffect(cs, order[0], colour);
      assert DistinctIds(h);
      PaintEffect(h, order[1..], colour);
      var p := Paint(cs, order, colour);
      forall i | 0 <= i < |cs|
        ensures p[i].fill == if Named(order, cs[i].id) then Colour(colour) else cs[i].fill
      {
        if Named(order[1..], cs[i].id) {
          var m :| m in order[1..] && NodeId(m) == cs[i].id;
          assert m in order;
        } else if cs[i].id == NodeId(order[0]) {
          assert order[0] in order;
        }
      }
    }
  }

  /** A reset wipes out any earlier animation. */
  lemma ResetErasesPaint(cs: seq<Circle>, order: seq<nat>, colour: string)
    requires DistinctIds(cs)
    ensures Reset(Paint(cs, order, colour)) == Reset(cs)
  {
    PaintEffect(cs, order, colour);
    ResetOnlyReadsIds(Paint(cs, order, colour), cs);
  }

  /** Without a reset, a second animation leaves the first one's colour on
      every circle it does not revisit. */
  lemma StaleHighlights(cs: seq<Circle>, first: seq<nat>, second: seq<nat>, i: nat)
    requires DistinctIds(cs) && i < |cs|
    requires Named(first, cs[i].id) && !Named(second, cs[i].id)
    ensures Paint(Paint(cs, first, DfsColour), second, BfsColour)[i].fill == Colour(DfsColour)
  {
    var p := Paint(cs, first, DfsColour);
    PaintEffect(cs, first, DfsColour);
    assert DistinctIds(p);
    PaintEffect(p, second, BfsColour);
  }

  /** The circles of a drawn scene have distinct ids, one per node, in node
      order. */
  lemma SceneCircles(nodes: seq<Node>)
    ensures var cs := CirclesOf(NodeGroups(nodes, 0));
      && |cs| == |nodes|
      && (forall i :: 0 <= i < |cs| ==> cs[i].id == NodeId(i))
      && DistinctIds(cs)
  {
    var cs := CirclesOf(NodeGroups(nodes, 0));
    forall i, j | 0 <= i < j < |cs|
      ensures cs[i].id != cs[j].id
    {
      if cs[i].id == cs[j].id {
        NodeIdInjective(i, j);
      }
    }
  }

  /** In a drawn scene, the circle named `node-<n>` exists exactly when
      `n` is a node index, and it is the circle of node `n`. */
  lemma FindNodeCircle(nodes: seq<Node>, n: nat)
    ensures var r := FindCircle(CirclesOf(NodeGroups(nodes, 0)), NodeId(n));
      (r.Some? <==> n < |nodes|) && (r.Some? ==> r.value == n)
  {
    var cs := CirclesOf(NodeGroups(nodes, 0));
    SceneCircles(nodes);
    var r := FindCircle(cs, NodeId(n));
    if n < |nodes| {
      assert cs[n].id == NodeId(n);
    }
    if r.Some? {
      NodeIdInjective(r.value, n);
    }
  }

  /** The BFS button: on a freshly drawn scene, reset and then animate
      breadth-first from `start`. The circle of node `i` ends green when
      `i` was visited and blue otherwise; visited nodes without a circle
      change nothing. */
  lemma ResetThenBfs(nodes: seq<Node>, adj: Graph.Adj, start: nat)
    ensures var cs := Paint(Reset(CirclesOf(NodeGroups(nodes, 0))), Bfs.BfsOrder(adj, start), BfsColour);
      && |cs| == |nodes|
      && forall i :: 0 <= i < |nodes| ==>
           cs[i] == Circle(NodeId(i), Colour(if i in Bfs.BfsOrder(adj, start) then BfsColour else BaseColour))
  {
    var order := Bfs.BfsOrder(adj, start);
    var c0 := CirclesOf(NodeGroups(nodes, 0));
    SceneCircles(nodes);
    var c1 := Reset(c0);
    ResetColours(c0);
    assert DistinctIds(c1);
    PaintEffect(c1, order, BfsColour);
    var c2 := Paint(c1, order, BfsColour);
    forall i | 0 <= i < |nodes|
      ensures c2[i] == Circle(NodeId(i), Colour(if i in order then BfsColour else BaseColour))
    {
      if Named(order, NodeId(i)) {
        var m :| m in order && NodeId(m) == NodeId(i);
        NodeIdInjective(m, i);
      }
    }
  }
}
