/**
  Adjacency lists as the traversal animators read them: a map from a node
  index to the ordered list of its neighbours. A node without an entry has
  no neighbours (the animators test `graph[node]` and skip the node when it
  is missing). Reachability is defined by hop count so that both the
  breadth-first and the depth-first model can speak about it.
 */
module Graph {
  import opened Sequences

  type Adj = map<nat, seq<nat>>

  /** The neighbours the animators iterate over; a missing entry yields none. */
  function Neighbours(adj: Adj, n: nat): (ns: seq<nat>)
    ensures n in adj ==> ns == adj[n]
    ensures n !in adj ==> ns == []
  {
    if n in adj then adj[n] else []
  }

  /** Every node that occurs in some neighbour list. */
  ghost function Targets(adj: Adj): set<nat>
    decreases adj.Keys
  {
    if adj.Keys == {} then {}
    else
      var k :| k in adj.Keys;
      Members(adj[k]) + Targets(adj - {k})
  }

  lemma {:induction false} NeighbourIsTarget(adj: Adj, n: nat, m: nat)
    requires m in Neighbours(adj, n)
    ensures m in Targets(adj)
    decreases adj.Keys
  {
    assert n in adj;
    var k :| k in adj.Keys && Targets(adj) == Members(adj[k]) + Targets(adj - {k});
    if k == n {
      assert m in Members(adj[k]);
    } else {
      assert (adj - {k})[n] == adj[n];
      NeighbourIsTarget(adj - {k}, n, m);
    }
  }

  /** `t` can be reached from `s` along exactly `d` edges of `adj`. */
  ghost predicate ReachableIn(adj: Adj, s: nat, t: nat, d: nat)
    decreases d
  {
    if d == 0 then s == t
    else exists m: nat :: ReachableIn(adj, s, m, d - 1) && t in Neighbours(adj, m)
  }

  /** `t` can be reached from `s` along some path of `adj`. */
  ghost predicate Reachable(adj: Adj, s: nat, t: nat)
  {
    exists d: nat :: ReachableIn(adj, s, t, d)
  }

  /** Extending a path by one edge. */
  lemma ReachableStep(adj: Adj, s: nat, m: nat, t: nat, d: nat)
    requires ReachableIn(adj, s, m, d)
    requires t in Neighbours(adj, m)
    ensures ReachableIn(adj, s, t, d + 1)
  {
    assert ReachableIn(adj, s, m, (d + 1) - 1);
  }

  lemma ReachableNeighbour(adj: Adj, s: nat, m: nat, t: nat)
    requires Reachable(adj, s, m)
    requires t in Neighbours(adj, m)
    ensures Reachable(adj, s, t)
  {
    var d: nat :| ReachableIn(adj, s, m, d);
    ReachableStep(adj, s, m, t, d);
  }

  /** A set of nodes that holds every neighbour of each of its members. */
  ghost predicate Closed(adj: Adj, c: set<nat>)
  {
    forall n, m :: n in c && m in Neighbours(adj, n) ==> m in c
  }

  /** A closed set that holds the start holds everything reachable from it. */
  lemma {:induction false} ClosedHoldsReachableIn(adj: Adj, c: set<nat>, s: nat, t: nat, d: nat)
    requires Closed(adj, c)
    requires s in c
    requires ReachableIn(adj, s, t, d)
    ensures t in c
    decreases d
  {
    if d > 0 {
      var m: nat :| ReachableIn(adj, s, m, d - 1) && t in Neighbours(adj, m);
      ClosedHoldsReachableIn(adj, c, s, m, d - 1);
    }
  }

  lemma ClosedHoldsReachable(adj: Adj, c: set<nat>, s: nat)
    requires Closed(adj, c)
    requires s in c
    ensures forall t :: Reachable(adj, s, t) ==> t in c
  {
    forall t | Reachable(adj, s, t)
      ensures t in c
    {
      var d: nat :| ReachableIn(adj, s, t, d);
      ClosedHoldsReachableIn(adj, c, s, t, d);
    }
  }
}
