/**
  The breadth-first animator (`animateBFS`, js/script.js:105-140).

  The source keeps a FIFO queue seeded with the start node, a visited set
  seeded with the start node, and a step counter capped at 20. Each timer
  tick dequeues one node, highlights it, and appends every neighbour not yet
  visited, marking it visited as it is appended. The 800 ms timer between
  ticks carries no logic, so one tick is one recursive step here and the
  result is the sequence of highlighted nodes.
 */
module Bfs {
  import opened Graph
  import opened Sequences

  /** `maxSteps` in the source. */
  const MaxSteps: nat := 20

  /** The neighbours one tick appends to the queue: those of `ns` not in
      `visited`, in list order, each once (a later duplicate in `ns` is
      already visited by then). */
  function Unvisited(ns: seq<nat>, visited: set<nat>): seq<nat>
  {
    if ns == [] then []
    else if ns[0] in visited then Unvisited(ns[1..], visited)
    else [ns[0]] + Unvisited(ns[1..], visited + {ns[0]})
  }

  /** What one tick may append to the queue: each neighbour outside
      `visited` exactly once, nothing else, in the order of first
      occurrence in the neighbour list. */
  ghost predicate EnqueuedFrom(added: seq<nat>, ns: seq<nat>, visited: set<nat>)
  {
    && NoDuplicates(added)
    && (forall n :: n in added ==> n !in visited && n in ns)
    && (forall n :: n in ns ==> n in visited || n in added)
    && InListOrder(added, ns)
  }

  /** Past a head that is not in `added`, first occurrences shift by one. */
  lemma OrderPastHead(added: seq<nat>, ns: seq<nat>)
    requires ns != [] && ns[0] !in added
    requires forall n :: n in added ==> n in ns
    ensures forall n :: n in added ==> n in ns[1..] && FirstIndex(ns, n) == 1 + FirstIndex(ns[1..], n)
    ensures InListOrder(added, ns) <==> InListOrder(added, ns[1..])
  {
    forall n | n in added
      ensures n in ns[1..] && FirstIndex(ns, n) == 1 + FirstIndex(ns[1..], n)
    {
      assert n != ns[0];
    }
  }

  /** A visited head adds nothing: what the tail enqueues is what the
      whole list enqueues. */
  lemma KeepVisitedHead(rest: seq<nat>, ns: seq<nat>, visited: set<nat>)
    requires ns != [] && ns[0] in visited
    requires EnqueuedFrom(rest, ns[1..], visited)
    ensures EnqueuedFrom(rest, ns, visited)
  {
    assert forall n :: n in ns ==> n == ns[0] || n in ns[1..];
    OrderPastHead(rest, ns);
  }

  /** Putting the head of the list in front of nodes that occur later
      keeps first-occurrence order. */
  lemma PrependOrder(rest: seq<nat>, ns: seq<nat>)
    requires ns != [] && ns[0] !in rest
    requires forall n :: n in rest ==> n in ns[1..]
    requires InListOrder(rest, ns[1..])
    ensures InListOrder([ns[0]] + rest, ns)
  {
    var added := [ns[0]] + rest;
    OrderPastHead(rest, ns);
    forall i, j | 0 <= i < j < |added|
      ensures FirstIndex(ns, added[i]) < FirstIndex(ns, added[j])
    {
      assert added[j] == rest[j - 1];
      if i > 0 {
        assert added[i] == rest[i - 1];
      }
    }
  }

  /** An unvisited head is enqueued first, followed by what the tail
      enqueues once the head is marked. */
  lemma EnqueueFreshHead(rest: seq<nat>, ns: seq<nat>, visited: set<nat>)
    requires ns != [] && ns[0] !in visited
    requires EnqueuedFrom(rest, ns[1..], visited + {ns[0]})
    ensures EnqueuedFrom([ns[0]] + rest, ns, visited)
  {
    var added := [ns[0]] + rest;
    PrependOrder(rest, ns);
    assert forall n :: n in ns ==> n == ns[0] || n in ns[1..];
    forall i, j | 0 <= i < j < |added|
      ensures added[i] != added[j]
    {
      assert added[j] == rest[j - 1];
      if i > 0 {
        assert added[i] == rest[i - 1];
      }
    }
  }

  /** What one tick appends: each unvisited neighbour exactly once, nothing
      already visited, nothing that is not a neighbour, in list order. */
  lemma {:induction false} UnvisitedSpec(ns: seq<nat>, visited: set<nat>)
    ensures EnqueuedFrom(Unvisited(ns, visited), ns, visited)
    decreases |ns|
  {
    if ns != [] {
      if ns[0] in visited {
        UnvisitedSpec(ns[1..], visited);
        KeepVisitedHead(Unvisited(ns[1..], visited), ns, visited);
      } else {
        var v' := visited + {ns[0]};
        UnvisitedSpec(ns[1..], v');
        EnqueueFreshHead(Unvisited(ns[1..], v'), ns, visited);
      }
    }
  }

  /** A sequence drawn from an empty list is empty. */
  lemma NothingFromNothing(added: seq<nat>, ns: seq<nat>)
    requires forall n :: n in added ==> n in ns
    ensures ns == [] ==> added == []
  {
    if added != [] {
      assert added[0] in added;
    }
  }

  /** A neighbour list whose head is enqueued puts that head first. */
  lemma HeadFirst(added: seq<nat>, ns: seq<nat>)
    requires ns != [] && ns[0] in added && InListOrder(added, ns)
    ensures added[0] == ns[0]
  {
    var k :| 0 <= k < |added| && added[k] == ns[0];
    assert FirstIndex(ns, added[k]) == 0;
    var first := FirstIndex(ns, added[0]);
    if k > 0 {
      assert false;
    }
  }

  /** Past a visited head, the same sequence is enqueued from the tail. */
  lemma SkipVisitedHead(added: seq<nat>, ns: seq<nat>, visited: set<nat>)
    requires ns != [] && ns[0] in visited
    requires EnqueuedFrom(added, ns, visited)
    ensures EnqueuedFrom(added, ns[1..], visited)
  {
    OrderPastHead(added, ns);
    forall n | n in ns[1..]
      ensures n in visited || n in added
    {
      assert n in ns;
    }
  }

  /** The tail of a repeat-free sequence keeps its elements apart from
      the head and from each other, and keeps their order. */
  lemma TailKeeps(added: seq<nat>, ns: seq<nat>)
    requires added != [] && NoDuplicates(added) && InListOrder(added, ns)
    ensures added[0] !in added[1..]
    ensures NoDuplicates(added[1..])
    ensures forall i, j :: 0 <= i < j < |added| - 1 ==>
      FirstIndex(ns, added[1..][i]) < FirstIndex(ns, added[1..][j])
  {
    var rest := added[1..];
    forall j | 0 <= j < |rest|
      ensures rest[j] != added[0]
    {
      assert rest[j] == added[j + 1];
    }
    forall i, j | 0 <= i < j < |rest|
      ensures rest[i] != rest[j] && FirstIndex(ns, rest[i]) < FirstIndex(ns, rest[j])
    {
      assert rest[i] == added[i + 1] && rest[j] == added[j + 1];
    }
  }

  /** Past an unvisited head, the rest is enqueued from the tail with the
      head marked visited. */
  lemma SkipFreshHead(added: seq<nat>, ns: seq<nat>, visited: set<nat>)
    requires ns != [] && ns[0] !in visited
    requires EnqueuedFrom(added, ns, visited)
    requires added != [] && added[0] == ns[0]
    ensures EnqueuedFrom(added[1..], ns[1..], visited + {ns[0]})
  {
    var rest := added[1..];
    TailKeeps(added, ns);
    assert added == [ns[0]] + rest;
    assert forall n :: n in rest ==> n in added && n != ns[0];
    OrderPastHead(rest, ns);
    forall n | n in ns[1..]
      ensures n in visited + {ns[0]} || n in rest
    {
      assert n in ns;
    }
  }

  /** The four properties of `UnvisitedSpec` pin the appended sequence
      down: any sequence that has them is the one a tick appends. */
  lemma {:induction false} UnvisitedUnique(ns: seq<nat>, visited: set<nat>, added: seq<nat>)
    requires EnqueuedFrom(added, ns, visited)
    ensures added == Unvisited(ns, visited)
    decreases |ns|
  {
    if ns == [] {
      NothingFromNothing(added, ns);
    } else if ns[0] in visited {
      SkipVisitedHead(added, ns, visited);
      UnvisitedUnique(ns[1..], visited, added);
    } else {
      assert ns[0] in ns;
      HeadFirst(added, ns);
      SkipFreshHead(added, ns, visited);
      UnvisitedUnique(ns[1..], visited + {ns[0]}, added[1..]);
      assert added == [ns[0]] + added[1..];
    }
  }

  /** The animator's state between two ticks: the pending queue, the
      visited set and the step counter. */
  datatype Progress = Progress(queue: seq<nat>, visited: set<nat>, step: nat)

  /** The guard at the head of each tick: the queue is empty or the step
      cap is reached. */
  predicate Finished(p: Progress)
  {
    p.queue == [] || p.step >= MaxSteps
  }

  /** One tick: dequeue the front node and enqueue its unvisited neighbours. */
  function Tick(adj: Adj, p: Progress): (next: Progress)
    requires !Finished(p)
    ensures next.step == p.step + 1
  {
    var added := Unvisited(Neighbours(adj, p.queue[0]), p.visited);
    Progress(p.queue[1..] + added, p.visited + Members(added), p.step + 1)
  }

  /** The nodes highlighted by the ticks still to come. */
  function Run(adj: Adj, p: Progress): (order: seq<nat>)
    ensures p.step <= MaxSteps ==> |order| <= MaxSteps - p.step
    ensures order == [] <==> Finished(p)
    ensures order != [] ==> order[0] == p.queue[0]
    decreases MaxSteps - p.step
  {
    if Finished(p) then [] else [p.queue[0]] + Run(adj, Tick(adj, p))
  }

  /** The animator's state before the first tick. */
  function Initial(start: nat): Progress
  {
    Progress([start], {start}, 0)
  }

  /** The nodes `animateBFS` highlights, in order. */
  function BfsOrder(adj: Adj, start: nat): (order: seq<nat>)
    ensures 1 <= |order| <= MaxSteps
    ensures order[0] == start
  {
    Run(adj, Initial(start))
  }

  /** `n` is a neighbour of some node of `among`. */
  ghost predicate ChildOf(adj: Adj, among: seq<nat>, n: nat)
  {
    exists m :: m in among && n in Neighbours(adj, m)
  }

  /** Every highlighted node but the first is a neighbour of a node
      highlighted before it. */
  ghost predicate DiscoveredEarlier(adj: Adj, order: seq<nat>)
  {
    forall j :: 0 < j < |order| ==> DiscoveredBefore(adj, order, j)
  }

  /** The node at position `j` is a neighbour of a node before it. */
  ghost predicate DiscoveredBefore(adj: Adj, order: seq<nat>, j: nat)
    requires j < |order|
  {
    ChildOf(adj, order[..j], order[j])
  }

  /** Every queued node is a neighbour of some node already highlighted. */
  ghost predicate QueueDiscovered(adj: Adj, highlighted: seq<nat>, queue: seq<nat>)
  {
    forall q :: q in queue ==> ChildOf(adj, highlighted, q)
  }

  /** One tick keeps both discovery facts. */
  lemma TickKeepsDiscovery(adj: Adj, highlighted: seq<nat>, queue: seq<nat>, added: seq<nat>)
    requires queue != []
    requires highlighted == [] ==> |queue| == 1
    requires highlighted == [] || QueueDiscovered(adj, highlighted, queue)
    requires DiscoveredEarlier(adj, highlighted)
    requires forall n :: n in added ==> n in Neighbours(adj, queue[0])
    ensures DiscoveredEarlier(adj, highlighted + [queue[0]])
    ensures QueueDiscovered(adj, highlighted + [queue[0]], queue[1..] + added)
  {
    var h := highlighted + [queue[0]];
    forall q | q in queue[1..] + added
      ensures ChildOf(adj, h, q)
    {
      if q in added {
        assert queue[0] in h;
      } else {
        assert q in queue && highlighted != [];
        var m :| m in highlighted && q in Neighbours(adj, m);
        assert m in h;
      }
    }
    forall j | 0 < j < |h|
      ensures DiscoveredBefore(adj, h, j)
    {
      if j < |highlighted| {
        assert DiscoveredBefore(adj, highlighted, j);
        assert h[..j] == highlighted[..j] && h[j] == highlighted[j];
      } else {
        assert highlighted != [] && queue[0] in queue;
        assert h[..j] == highlighted && h[j] == queue[0];
      }
    }
  }

  /** The discovery facts carry over one tick of the animator. */
  lemma TickDiscovers(adj: Adj, done: seq<nat>, p: Progress)
    requires !Finished(p)
    requires done == [] ==> |p.queue| <= 1
    requires done == [] || QueueDiscovered(adj, done, p.queue)
    requires DiscoveredEarlier(adj, done)
    ensures DiscoveredEarlier(adj, done + [p.queue[0]])
    ensures QueueDiscovered(adj, done + [p.queue[0]], Tick(adj, p).queue)
  {
    var added := Unvisited(Neighbours(adj, p.queue[0]), p.visited);
    UnvisitedSpec(Neighbours(adj, p.queue[0]), p.visited);
    TickKeepsDiscovery(adj, done, p.queue, added);
  }

  /** Discovery holds of every run that starts from a discovered state. */
  lemma {:induction false} RunDiscovered(adj: Adj, done: seq<nat>, p: Progress)
    requires done == [] ==> |p.queue| <= 1
    requires done == [] || QueueDiscovered(adj, done, p.queue)
    requires DiscoveredEarlier(adj, done)
    ensures DiscoveredEarlier(adj, done + Run(adj, p))
    decreases MaxSteps - p.step
  {
    if !Finished(p) {
      var next := Tick(adj, p);
      TickDiscovers(adj, done, p);
      var done' := done + [p.queue[0]];
      RunDiscovered(adj, done', next);
      var tail := Run(adj, next);
      assert Run(adj, p) == [p.queue[0]] + tail;
      assert done + ([p.queue[0]] + tail) == done' + tail;
    } else {
      assert Run(adj, p) == [];
      assert done + Run(adj, p) == done;
    }
  }

  /** Every node `animateBFS` highlights after the start is a neighbour of a
      node it highlighted earlier. */
  lemma BfsDiscoveredEarlier(adj: Adj, start: nat)
    ensures DiscoveredEarlier(adj, BfsOrder(adj, start))
  {
    RunDiscovered(adj, [], Initial(start));
    assert [] + BfsOrder(adj, start) == BfsOrder(adj, start);
  }

  /** The tick loop of `animateBFS` written as a loop, returning the
      highlighted nodes. */
  method AnimateBfs(adj: Adj, start: nat) returns (highlighted: seq<nat>)
    ensures highlighted == BfsOrder(adj, start)
  {
    var p := Initial(start);
    highlighted := [];
    while !Finished(p)
      invariant p.step <= MaxSteps
      invariant highlighted + Run(adj, p) == BfsOrder(adj, start)
      decreases MaxSteps - p.step
    {
      ghost var rest := Run(adj, Tick(adj, p));
      assert (highlighted + [p.queue[0]]) + rest == highlighted + Run(adj, p);
      highlighted := highlighted + [p.queue[0]];
      p := Tick(adj, p);
    }
  }
}
