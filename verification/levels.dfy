/**
  The textbook level-order traversal, built level by level rather than
  tick by tick: the start node forms level 0, and level k + 1 holds the
  neighbours of level k, in adjacency order, that no earlier level reached.
  Each level is formed with the enqueue filter `Unvisited`, whose result
  `UnvisitedSpec` and `UnvisitedUnique` characterise exactly. The
  breadth-first animator highlights exactly the first 20 nodes of this
  traversal (`BfsIsLevelOrderPrefix`), which is where its guarantees come
  from: no repeats, only reachable nodes, and every reachable node when
  fewer than 20 exist.
 */
module LevelOrder {
  import opened Graph
  import opened Sequences
  import opened Bfs

  /** The next level together with the nodes seen once it is built. */
  datatype Frontier = Frontier(queue: seq<nat>, seen: set<nat>)

  /** The next level: for each node of `level` in turn, its neighbours not
      yet seen, in adjacency order. */
  function Expand(adj: Adj, level: seq<nat>, seen: set<nat>): Frontier
    decreases |level|
  {
    if level == [] then Frontier([], seen)
    else
      var added := Unvisited(Neighbours(adj, level[0]), seen);
      var rest := Expand(adj, level[1..], seen + Members(added));
      Frontier(added + rest.queue, rest.seen)
  }

  /** Every neighbour of every node of `level` is in `seen`. */
  ghost predicate Covers(adj: Adj, level: seq<nat>, seen: set<nat>)
  {
    forall x, m :: x in level && m in Neighbours(adj, x) ==> m in seen
  }

  /** Expanding marks exactly the new level as seen. */
  lemma {:induction false} ExpandSeen(adj: Adj, level: seq<nat>, seen: set<nat>)
    ensures Expand(adj, level, seen).seen == seen + Members(Expand(adj, level, seen).queue)
    decreases |level|
  {
    if level != [] {
      var added := Unvisited(Neighbours(adj, level[0]), seen);
      ExpandSeen(adj, level[1..], seen + Members(added));
    }
  }

  /** The new level holds exactly the unseen neighbours of the old level,
      each once. */
  lemma {:induction false} ExpandFresh(adj: Adj, level: seq<nat>, seen: set<nat>)
    ensures NoDuplicates(Expand(adj, level, seen).queue)
    ensures forall n :: n in Expand(adj, level, seen).queue ==> n !in seen && ChildOf(adj, level, n)
    ensures forall x, m :: x in level && m in Neighbours(adj, x) && m !in seen ==> m in Expand(adj, level, seen).queue
    decreases |level|
  {
    ExpandSeen(adj, level, seen);
    ExpandCovers(adj, level, seen);
    if level != [] {
      var added := Unvisited(Neighbours(adj, level[0]), seen);
      UnvisitedSpec(Neighbours(adj, level[0]), seen);
      var seen' := seen + Members(added);
      ExpandFresh(adj, level[1..], seen');
      var tail := Expand(adj, level[1..], seen').queue;
      var q := added + tail;
      forall n | n in q
        ensures n !in seen && ChildOf(adj, level, n)
      {
        if n in added {
          assert level[0] in level;
        } else {
          var m :| m in level[1..] && n in Neighbours(adj, m);
          assert m in level;
        }
      }
      forall i, j | 0 <= i < j < |q|
        ensures q[i] != q[j]
      {
        if i >= |added| {
          assert q[i] == tail[i - |added|] && q[j] == tail[j - |added|];
        } else if j >= |added| {
          assert q[i] in added && q[j] in tail;
        }
      }
    }
  }

  /** After expanding, every neighbour of the old level is seen. */
  lemma {:induction false} ExpandCovers(adj: Adj, level: seq<nat>, seen: set<nat>)
    ensures seen <= Expand(adj, level, seen).seen
    ensures Covers(adj, level, Expand(adj, level, seen).seen)
    decreases |level|
  {
    if level != [] {
      var added := Unvisited(Neighbours(adj, level[0]), seen);
      UnvisitedSpec(Neighbours(adj, level[0]), seen);
      var seen' := seen + Members(added);
      ExpandCovers(adj, level[1..], seen');
      var f := Expand(adj, level, seen);
      forall x, m | x in level && m in Neighbours(adj, x)
        ensures m in f.seen
      {
        if x != level[0] {
          assert x in level[1..];
        }
      }
    }
  }

  /** The nodes visited level by level, starting from `level`, with `seen`
      marking every node reached so far. */
  function Levels(adj: Adj, level: seq<nat>, seen: set<nat>): seq<nat>
    decreases Targets(adj) - seen, |level|
  {
    if level == [] then []
    else
      var f := Expand(adj, level, seen);
      ExpandGrows(adj, level, seen);
      level + Levels(adj, f.queue, f.seen)
  }

  /** The measure that makes `Levels` terminate: the unseen part of the
      graph shrinks, or stays put while the level becomes empty. */
  lemma ExpandGrows(adj: Adj, level: seq<nat>, seen: set<nat>)
    requires level != []
    ensures var f := Expand(adj, level, seen);
      if f.queue == [] then f.seen == seen
      else Targets(adj) - f.seen < Targets(adj) - seen
  {
    ExpandSeen(adj, level, seen);
    ExpandFresh(adj, level, seen);
    var f := Expand(adj, level, seen);
    if f.queue != [] {
      var n := f.queue[0];
      assert n in f.queue;
      var m :| m in level && n in Neighbours(adj, m);
      NeighbourIsTarget(adj, m, n);
      assert n in Targets(adj) - seen && n !in Targets(adj) - f.seen;
    } else {
      assert Members([]) == {};
    }
  }

  /** The level-order traversal from `start`, without any step cap. */
  function LevelOrderFrom(adj: Adj, start: nat): seq<nat>
  {
    Levels(adj, [start], {start})
  }

  /** One tick taken while the current level is still at the front of the
      queue: its head is highlighted and its unseen neighbours join the back. */
  lemma TickOnLevel(adj: Adj, level: seq<nat>, queue: seq<nat>, visited: set<nat>, step: nat)
    requires level != [] && step < MaxSteps
    ensures var added := Unvisited(Neighbours(adj, level[0]), visited);
      Run(adj, Progress(level + queue, visited, step))
      == [level[0]] + Run(adj, Progress(level[1..] + (queue + added), visited + Members(added), step + 1))
  {
    var added := Unvisited(Neighbours(adj, level[0]), visited);
    var p := Progress(level + queue, visited, step);
    HeadAppend(level, queue);
    assert Tick(adj, p) == Progress(level[1..] + (queue + added), visited + Members(added), step + 1);
  }

  /** When the step cap falls inside the current level, the animator
      highlights a prefix of that level and nothing else. */
  lemma {:induction false} RunStopsInLevel(adj: Adj, level: seq<nat>, queue: seq<nat>, visited: set<nat>, step: nat)
    requires step <= MaxSteps
    requires MaxSteps - step <= |level|
    ensures Run(adj, Progress(level + queue, visited, step)) == level[..MaxSteps - step]
    decreases |level|
  {
    if step < MaxSteps {
      var added := Unvisited(Neighbours(adj, level[0]), visited);
      TickOnLevel(adj, level, queue, visited, step);
      RunStopsInLevel(adj, level[1..], queue + added, visited + Members(added), step + 1);
      HeadTake(level, MaxSteps - step);
    }
  }

  /** Started with `level` at the front of the queue, the animator
      highlights the whole level, in order, and is then left with the rest
      of the queue followed by the next level. */
  ghost predicate RunsThrough(adj: Adj, level: seq<nat>, queue: seq<nat>, visited: set<nat>, step: nat)
  {
    var f := Expand(adj, level, visited);
    Run(adj, Progress(level + queue, visited, step))
    == level + Run(adj, Progress(queue + f.queue, f.seen, step + |level|))
  }

  /** When the step cap lies beyond the current level, the whole level is
      highlighted before the next one starts. */
  lemma {:induction false} RunThroughLevel(adj: Adj, level: seq<nat>, queue: seq<nat>, visited: set<nat>, step: nat)
    requires step + |level| < MaxSteps
    ensures RunsThrough(adj, level, queue, visited, step)
    decreases |level|
  {
    if level == [] {
      ThroughEmpty(adj, queue, visited, step);
    } else {
      var added := Unvisited(Neighbours(adj, level[0]), visited);
      RunThroughLevel(adj, level[1..], queue + added, visited + Members(added), step + 1);
      ThroughHead(adj, level, queue, visited, step);
    }
  }

  /** An empty level is run through at once. */
  lemma ThroughEmpty(adj: Adj, queue: seq<nat>, visited: set<nat>, step: nat)
    ensures RunsThrough(adj, [], queue, visited, step)
  {
    assert [] + queue == queue && queue + [] == queue;
  }

  /** Expanding a level is expanding its head and then the rest of it. */
  lemma ExpandHead(adj: Adj, level: seq<nat>, seen: set<nat>)
    requires level != []
    ensures var added := Unvisited(Neighbours(adj, level[0]), seen);
      var g := Expand(adj, level[1..], seen + Members(added));
      Expand(adj, level, seen) == Frontier(added + g.queue, g.seen)
  {
  }

  /** The step of `RunThroughLevel`: one tick on the head of the level,
      then the rest of the level by the induction hypothesis. */
  lemma ThroughHead(adj: Adj, level: seq<nat>, queue: seq<nat>, visited: set<nat>, step: nat)
    requires level != [] && step + |level| < MaxSteps
    requires var added := Unvisited(Neighbours(adj, level[0]), visited);
      RunsThrough(adj, level[1..], queue + added, visited + Members(added), step + 1)
    ensures RunsThrough(adj, level, queue, visited, step)
  {
    var added := Unvisited(Neighbours(adj, level[0]), visited);
    var g := Expand(adj, level[1..], visited + Members(added));
    var f := Expand(adj, level, visited);
    ExpandHead(adj, level, visited);
    assert (queue + added) + g.queue == queue + (added + g.queue);
    var after := Progress(queue + f.queue, f.seen, step + |level|);
    assert Progress((queue + added) + g.queue, g.seen, (step + 1) + |level[1..]|) == after;
    var r2 := Run(adj, after);
    TickOnLevel(adj, level, queue, visited, step);
    HeadAppend(level, r2);
  }

  /** `RunStopsInLevel` with nothing queued behind the level. */
  lemma StopsInLevel(adj: Adj, level: seq<nat>, visited: set<nat>, step: nat)
    requires step <= MaxSteps
    requires MaxSteps - step <= |level|
    ensures Run(adj, Progress(level, visited, step)) == level[..MaxSteps - step]
  {
    RunStopsInLevel(adj, level, [], visited, step);
    assert level + [] == level;
  }

  /** `RunThroughLevel` with nothing queued behind the level. */
  lemma ThroughLevel(adj: Adj, level: seq<nat>, visited: set<nat>, step: nat)
    requires step + |level| < MaxSteps
    ensures var f := Expand(adj, level, visited);
      Run(adj, Progress(level, visited, step))
      == level + Run(adj, Progress(f.queue, f.seen, step + |level|))
  {
    var f := Expand(adj, level, visited);
    RunThroughLevel(adj, level, [], visited, step);
    assert level + [] == level && [] + f.queue == f.queue;
  }

  /** The cap falls inside the current level: both sides end there. */
  lemma MatchStops(adj: Adj, level: seq<nat>, seen: set<nat>, step: nat)
    requires level != [] && step <= MaxSteps && MaxSteps - step <= |level|
    ensures Run(adj, Progress(level, seen, step)) == Take(Levels(adj, level, seen), MaxSteps - step)
  {
    var k := MaxSteps - step;
    var f := Expand(adj, level, seen);
    var rest := Levels(adj, f.queue, f.seen);
    assert Levels(adj, level, seen) == level + rest;
    StopsInLevel(adj, level, seen, step);
    assert (level + rest)[..k] == level[..k];
  }

  /** The cap lies beyond the current level: the level is highlighted whole
      and the match carries over from the next level. */
  lemma MatchThrough(adj: Adj, level: seq<nat>, seen: set<nat>, step: nat)
    requires level != [] && step + |level| < MaxSteps
    requires var f := Expand(adj, level, seen);
      Run(adj, Progress(f.queue, f.seen, step + |level|))
      == Take(Levels(adj, f.queue, f.seen), MaxSteps - (step + |level|))
    ensures Run(adj, Progress(level, seen, step)) == Take(Levels(adj, level, seen), MaxSteps - step)
  {
    var f := Expand(adj, level, seen);
    var rest := Levels(adj, f.queue, f.seen);
    assert Levels(adj, level, seen) == level + rest;
    ThroughLevel(adj, level, seen, step);
    TakeAppend(level, rest, MaxSteps - step);
  }

  /** The tick loop, started on a level, highlights a prefix of the
      level-order traversal from that level. */
  lemma {:induction false} RunMatchesLevels(adj: Adj, level: seq<nat>, seen: set<nat>, step: nat)
    requires step <= MaxSteps
    ensures Run(adj, Progress(level, seen, step)) == Take(Levels(adj, level, seen), MaxSteps - step)
    decreases Targets(adj) - seen, |level|
  {
    if level == [] {
      assert Levels(adj, level, seen) == [];
    } else if MaxSteps - step <= |level| {
      MatchStops(adj, level, seen, step);
    } else {
      var f := Expand(adj, level, seen);
      ExpandGrows(adj, level, seen);
      RunMatchesLevels(adj, f.queue, f.seen, step + |level|);
      MatchThrough(adj, level, seen, step);
    }
  }

  /** `animateBFS` highlights the first 20 nodes of the level-order
      traversal from the start node (all of them if there are fewer). */
  lemma BfsIsLevelOrderPrefix(adj: Adj, start: nat)
    ensures BfsOrder(adj, start) == Take(LevelOrderFrom(adj, start), MaxSteps)
  {
    RunMatchesLevels(adj, [start], {start}, 0);
  }

  /** Level order never repeats a node, and never returns to one already
      seen outside the current level. */
  lemma {:induction false} LevelsNoDuplicates(adj: Adj, level: seq<nat>, seen: set<nat>)
    requires Members(level) <= seen
    requires NoDuplicates(level)
    ensures NoDuplicates(Levels(adj, level, seen))
    ensures forall n :: n in Levels(adj, level, seen) ==> n in level || n !in seen
    decreases Targets(adj) - seen, |level|
  {
    if level != [] {
      var f := Expand(adj, level, seen);
      ExpandGrows(adj, level, seen);
      ExpandSeen(adj, level, seen);
      ExpandFresh(adj, level, seen);
      LevelsNoDuplicates(adj, f.queue, f.seen);
      var rest := Levels(adj, f.queue, f.seen);
      var all := level + rest;
      assert Levels(adj, level, seen) == all;
      assert forall n :: n in rest ==> n !in seen;
      forall i, j | 0 <= i < j < |all|
        ensures all[i] != all[j]
      {
        if i >= |level| {
          assert all[i] == rest[i - |level|] && all[j] == rest[j - |level|];
        } else if j >= |level| {
          assert all[i] in level && all[j] in rest;
        }
      }
    }
  }

  /** Level order reaches only nodes reachable from the start. */
  lemma {:induction false} LevelsReachable(adj: Adj, start: nat, level: seq<nat>, seen: set<nat>)
    requires forall n :: n in level ==> Reachable(adj, start, n)
    ensures forall n :: n in Levels(adj, level, seen) ==> Reachable(adj, start, n)
    decreases Targets(adj) - seen, |level|
  {
    if level != [] {
      var f := Expand(adj, level, seen);
      ExpandGrows(adj, level, seen);
      ExpandFresh(adj, level, seen);
      forall n | n in f.queue
        ensures Reachable(adj, start, n)
      {
        var m :| m in level && n in Neighbours(adj, m);
        ReachableNeighbour(adj, start, m, n);
      }
      LevelsReachable(adj, start, f.queue, f.seen);
    }
  }

  /** Every node of `seen` outside `level` has all its neighbours in `seen`. */
  ghost predicate ClosedOutside(adj: Adj, seen: set<nat>, level: seq<nat>)
  {
    forall x, m :: x in seen && x !in level && m in Neighbours(adj, x) ==> m in seen
  }

  /** Once the traversal ends, the nodes it visited, together with those
      handled before `level`, hold every neighbour of each of them. */
  lemma {:induction false} LevelsClosed(adj: Adj, level: seq<nat>, seen: set<nat>)
    requires Members(level) <= seen
    requires ClosedOutside(adj, seen, level)
    ensures Closed(adj, (seen - Members(level)) + Members(Levels(adj, level, seen)))
    decreases Targets(adj) - seen, |level|
  {
    if level == [] {
      assert (seen - Members(level)) + Members([]) == seen;
    } else {
      var f := Expand(adj, level, seen);
      ExpandGrows(adj, level, seen);
      ExpandSeen(adj, level, seen);
      ExpandFresh(adj, level, seen);
      ExpandCovers(adj, level, seen);
      forall x, m | x in f.seen && x !in f.queue && m in Neighbours(adj, x)
        ensures m in f.seen
      {
        assert x in seen;
      }
      LevelsClosed(adj, f.queue, f.seen);
      var rest := Levels(adj, f.queue, f.seen);
      assert f.seen - Members(f.queue) == seen;
      assert Levels(adj, level, seen) == level + rest;
      assert (seen - Members(level)) + Members(level + rest) == seen + Members(rest);
    }
  }

  /** `animateBFS` never highlights a node twice. */
  lemma BfsNoDuplicates(adj: Adj, start: nat)
    ensures NoDuplicates(BfsOrder(adj, start))
  {
    BfsIsLevelOrderPrefix(adj, start);
    LevelsNoDuplicates(adj, [start], {start});
  }

  /** `animateBFS` highlights only nodes reachable from the start. */
  lemma BfsReachableOnly(adj: Adj, start: nat)
    ensures forall n :: n in BfsOrder(adj, start) ==> Reachable(adj, start, n)
  {
    assert ReachableIn(adj, start, start, 0);
    BfsIsLevelOrderPrefix(adj, start);
    LevelsReachable(adj, start, [start], {start});
  }

  /** When `animateBFS` stops before the step cap, the queue ran dry and it
      has highlighted exactly the nodes reachable from the start. */
  lemma BfsCompleteBelowCap(adj: Adj, start: nat)
    requires |BfsOrder(adj, start)| < MaxSteps
    ensures forall n :: n in BfsOrder(adj, start) <==> Reachable(adj, start, n)
  {
    BfsReachableOnly(adj, start);
    BfsIsLevelOrderPrefix(adj, start);
    var all := LevelOrderFrom(adj, start);
    assert BfsOrder(adj, start) == all;
    LevelsClosed(adj, [start], {start});
    assert ({start} - Members([start])) + Members(all) == Members(all);
    assert start in Members(all);
    ClosedHoldsReachable(adj, Members(all), start);
  }
}
