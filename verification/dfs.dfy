/**
  The depth-first animator (`animateDFS`, js/script.js:143-167).

  Each call `dfs(node, step)` returns at once when `step > 20`; otherwise it
  marks the node visited, paints it, and for every neighbour not visited at
  that moment schedules a later call `dfs(neighbour, step + 1)` on an 800 ms
  timer. Only the first call runs immediately. The visited test happens
  when a call is scheduled, not when it fires, so two pending calls may
  name the same node, and both highlight it.

  The model keeps the calls still waiting on a timer and lets an arbitrary
  choice sequence say which one fires next; every property below holds for
  every firing order, so it holds for the one the browser's timers produce.
 */
module Dfs {
  import opened Graph
  import opened Sequences

  /** The depth guard `step > 20` of the source. */
  const MaxDepth: nat := 20

  /** A call `dfs(node, depth)`. */
  datatype Call = Call(node: nat, depth: nat)

  /** The visited set, the calls waiting on a timer, and the nodes
      highlighted so far, in order. */
  datatype DfsState = DfsState(visited: set<nat>, pending: seq<Call>, highlighted: seq<nat>)

  /** The calls the `forEach` over the neighbour list schedules: one per
      neighbour outside `visited`, in list order. `visited` does not change
      during the loop, so a neighbour listed twice is scheduled twice. */
  function Schedule(ns: seq<nat>, visited: set<nat>, depth: nat): (calls: seq<Call>)
    ensures forall c :: c in calls ==> c.depth == depth && c.node in ns && c.node !in visited
    ensures |calls| <= |ns|
  {
    if ns == [] then []
    else (if ns[0] in visited then [] else [Call(ns[0], depth)]) + Schedule(ns[1..], visited, depth)
  }

  /** Every unvisited neighbour gets a call. */
  lemma {:induction false} ScheduleComplete(ns: seq<nat>, visited: set<nat>, depth: nat)
    ensures forall n :: n in ns && n !in visited ==> Call(n, depth) in Schedule(ns, visited, depth)
    decreases |ns|
  {
    if ns != [] {
      ScheduleComplete(ns[1..], visited, depth);
      forall n | n in ns && n !in visited
        ensures Call(n, depth) in Schedule(ns, visited, depth)
      {
        if n != ns[0] {
          assert n in ns[1..];
        }
      }
    }
  }

  /** The state right after `animateDFS(start)` is entered and before the
      first call runs. */
  function Start(start: nat): DfsState
  {
    DfsState({}, [Call(start, 0)], [])
  }

  /** Running the pending call at position `i`. */
  function Fire(adj: Adj, s: DfsState, i: nat): DfsState
    requires i < |s.pending|
  {
    var c := s.pending[i];
    var others := s.pending[..i] + s.pending[i + 1..];
    if c.depth > MaxDepth then DfsState(s.visited, others, s.highlighted)
    else
      var v := s.visited + {c.node};
      DfsState(v, others + Schedule(Neighbours(adj, c.node), v, c.depth + 1), s.highlighted + [c.node])
  }

  /** A call beyond the depth cap highlights nothing and marks nothing; it
      is only taken off the timer list. A call within the cap highlights
      its node and marks it visited. */
  lemma FireGuard(adj: Adj, s: DfsState, i: nat)
    requires i < |s.pending|
    ensures var c := s.pending[i];
      var t := Fire(adj, s, i);
      && (c.depth > MaxDepth ==>
            t.visited == s.visited && t.highlighted == s.highlighted && |t.pending| == |s.pending| - 1)
      && (c.depth <= MaxDepth ==>
            t.visited == s.visited + {c.node} && t.highlighted == s.highlighted + [c.node])
  {
  }

  /** Fires the calls picked by `choices` (each taken modulo the number of
      pending calls) until the choices or the pending calls run out. */
  function RunDfs(adj: Adj, s: DfsState, choices: seq<nat>): DfsState
    decreases |choices|
  {
    if choices == [] || s.pending == [] then s
    else RunDfs(adj, Fire(adj, s, choices[0] % |s.pending|), choices[1..])
  }

  /** `t` is at most `MaxDepth` edges away from `s`. */
  ghost predicate WithinCap(adj: Adj, s: nat, t: nat)
  {
    exists d: nat :: d <= MaxDepth && ReachableIn(adj, s, t, d)
  }

  /** Each pending call names a node exactly as many edges from the start
      as its depth, and at most one past the cap. */
  ghost predicate PendingSound(adj: Adj, start: nat, calls: seq<Call>)
  {
    forall c :: c in calls ==> c.depth <= MaxDepth + 1 && ReachableIn(adj, start, c.node, c.depth)
  }

  /** Each highlighted node lies within the cap. */
  ghost predicate HighlightsSound(adj: Adj, start: nat, highlighted: seq<nat>)
  {
    forall n :: n in highlighted ==> WithinCap(adj, start, n)
  }

  /** What every reachable state satisfies: sound pending calls, sound
      highlights, and a visited set equal to the set of highlighted
      nodes. */
  ghost predicate Sound(adj: Adj, start: nat, s: DfsState)
  {
    && PendingSound(adj, start, s.pending)
    && HighlightsSound(adj, start, s.highlighted)
    && s.visited == Members(s.highlighted)
  }

  lemma StartSound(adj: Adj, start: nat)
    ensures Sound(adj, start, Start(start))
  {
    assert Members([]) == {};
  }

  /** The calls a sound call within the cap schedules are sound. */
  lemma ScheduleSound(adj: Adj, start: nat, c: Call, v: set<nat>)
    requires c.depth <= MaxDepth && ReachableIn(adj, start, c.node, c.depth)
    ensures PendingSound(adj, start, Schedule(Neighbours(adj, c.node), v, c.depth + 1))
  {
    var calls := Schedule(Neighbours(adj, c.node), v, c.depth + 1);
    forall x | x in calls
      ensures x.depth <= MaxDepth + 1 && ReachableIn(adj, start, x.node, x.depth)
    {
      ReachableStep(adj, start, c.node, x.node, c.depth);
      assert x.depth == c.depth + 1;
    }
  }

  /** Taking one call out of a sound list, and appending sound calls,
      keeps it sound. */
  lemma PendingRemove(adj: Adj, start: nat, calls: seq<Call>, i: nat, more: seq<Call>)
    requires i < |calls|
    requires PendingSound(adj, start, calls) && PendingSound(adj, start, more)
    ensures PendingSound(adj, start, calls[..i] + calls[i + 1..] + more)
  {
    var r := calls[..i] + calls[i + 1..] + more;
    forall x | x in r
      ensures x.depth <= MaxDepth + 1 && ReachableIn(adj, start, x.node, x.depth)
    {
      if x !in more {
        assert x in calls[..i] || x in calls[i + 1..];
      }
    }
  }

  /** A call within the cap keeps the highlights and the visited set
      sound. */
  lemma HighlightSound(adj: Adj, start: nat, s: DfsState, c: Call)
    requires c.depth <= MaxDepth && ReachableIn(adj, start, c.node, c.depth)
    requires HighlightsSound(adj, start, s.highlighted) && s.visited == Members(s.highlighted)
    ensures HighlightsSound(adj, start, s.highlighted + [c.node])
    ensures s.visited + {c.node} == Members(s.highlighted + [c.node])
  {
    assert WithinCap(adj, start, c.node);
  }

  lemma FireSound(adj: Adj, start: nat, s: DfsState, i: nat)
    requires i < |s.pending|
    requires Sound(adj, start, s)
    ensures Sound(adj, start, Fire(adj, s, i))
  {
    var c := s.pending[i];
    assert c in s.pending;
    var others := s.pending[..i] + s.pending[i + 1..];
    if c.depth <= MaxDepth {
      var v := s.visited + {c.node};
      var sched := Schedule(Neighbours(adj, c.node), v, c.depth + 1);
      var t := DfsState(v, others + sched, s.highlighted + [c.node]);
      assert Sound(adj, start, t) by {
        ScheduleSound(adj, start, c, v);
        PendingRemove(adj, start, s.pending, i, sched);
        HighlightSound(adj, start, s, c);
      }
      assert Fire(adj, s, i) == t;
    } else {
      var t := DfsState(s.visited, others, s.highlighted);
      assert Sound(adj, start, t) by {
        PendingRemove(adj, start, s.pending, i, []);
        assert others + [] == others;
      }
      assert Fire(adj, s, i) == t;
    }
  }

  lemma {:induction false} RunSound(adj: Adj, start: nat, s: DfsState, choices: seq<nat>)
    requires Sound(adj, start, s)
    ensures Sound(adj, start, RunDfs(adj, s, choices))
    decreases |choices|
  {
    if choices != [] && s.pending != [] {
      FireSound(adj, start, s, choices[0] % |s.pending|);
      RunSound(adj, start, Fire(adj, s, choices[0] % |s.pending|), choices[1..]);
    }
  }

  /** Whatever order the timers fire in, `animateDFS` highlights only nodes
      at most 20 edges from the start, and its visited set is exactly the
      set of highlighted nodes. */
  lemma DfsWithinCap(adj: Adj, start: nat, choices: seq<nat>)
    ensures var s := RunDfs(adj, Start(start), choices);
      && (forall n :: n in s.highlighted ==> WithinCap(adj, start, n))
      && s.visited == Members(s.highlighted)
  {
    StartSound(adj, start);
    RunSound(adj, start, Start(start), choices);
  }

  /** A chain 0 -> 1 -> ... -> len. */
  function Chain(len: nat): Adj
  {
    if len == 0 then map[] else Chain(len - 1)[len - 1 := [len]]
  }

  lemma {:induction false} ChainNeighbours(len: nat, m: nat)
    ensures Neighbours(Chain(len), m) == if m < len then [m + 1] else []
  {
    if len > 0 {
      ChainNeighbours(len - 1, m);
    }
  }

  /** On a chain, the only node `d` edges from 0 is node `d`. */
  lemma {:induction false} ChainDistance(len: nat, t: nat, d: nat)
    requires ReachableIn(Chain(len), 0, t, d)
    ensures t == d
    decreases d
  {
    if d > 0 {
      var m: nat :| ReachableIn(Chain(len), 0, m, d - 1) && t in Neighbours(Chain(len), m);
      ChainDistance(len, m, d - 1);
      ChainNeighbours(len, m);
    }
  }

  /** The depth cap cuts a long chain: node 21 of a chain is never
      highlighted, whatever the firing order. */
  lemma ChainCut(choices: seq<nat>)
    ensures 21 !in RunDfs(Chain(30), Start(0), choices).highlighted
  {
    DfsWithinCap(Chain(30), 0, choices);
    if 21 in RunDfs(Chain(30), Start(0), choices).highlighted {
      var d: nat :| d <= MaxDepth && ReachableIn(Chain(30), 0, 21, d);
      ChainDistance(30, 21, d);
    }
  }

  /** One firing, then the rest of the choices: the unfolding of
      `RunDfs`, kept apart so that proofs about concrete runs stay small. */
  lemma RunStep(adj: Adj, s: DfsState, choices: seq<nat>)
    requires choices != [] && s.pending != []
    ensures RunDfs(adj, s, choices) == RunDfs(adj, Fire(adj, s, choices[0] % |s.pending|), choices[1..])
  {
  }

  /** A call within the cap on a node without neighbours highlights it
      and schedules nothing. */
  lemma LeafFiring(adj: Adj, s: DfsState)
    requires s.pending != [] && s.pending[0].node !in adj && s.pending[0].depth <= MaxDepth
    ensures var c := s.pending[0];
      Fire(adj, s, 0) == DfsState(s.visited + {c.node}, s.pending[1..], s.highlighted + [c.node])
  {
    var c := s.pending[0];
    assert Neighbours(adj, c.node) == [];
    assert s.pending[..0] + s.pending[1..] + [] == s.pending[1..];
  }

  /** The first call on a node `n` that lists `m` twice schedules two
      calls on `m`. */
  lemma TwiceScheduled(adj: Adj, n: nat, m: nat)
    requires n != m && adj == map[n := [m, m]]
    ensures Fire(adj, Start(n), 0) == DfsState({n}, [Call(m, 1), Call(m, 1)], [n])
  {
    assert Neighbours(adj, n) == [m, m];
    assert [Call(n, 0)][..0] + [Call(n, 0)][1..] == [];
    assert {} + {n} == {n};
    assert Schedule([m], {n}, 1) == [Call(m, 1)];
    assert Schedule([m, m], {n}, 1) == [Call(m, 1), Call(m, 1)];
  }

  /** Two pending calls on a leaf, fired front-first, highlight it twice. */
  lemma LeafTwice(adj: Adj, s: DfsState, m: nat)
    requires m !in adj && s.pending == [Call(m, 1), Call(m, 1)]
    ensures RunDfs(adj, s, [0, 0]).highlighted == s.highlighted + [m, m]
  {
    LeafFiring(adj, s);
    var s2 := Fire(adj, s, 0);
    LeafFiring(adj, s2);
    RunStep(adj, s, [0, 0]);
    RunStep(adj, s2, [0]);
    assert [0, 0][1..] == [0] && [0][1..] == [];
    assert s.highlighted + [m] + [m] == s.highlighted + [m, m];
  }

  /** When the start node `n` lists a leaf `m` twice and has no other
      neighbours, firing the timers in scheduling order highlights
      `[n, m, m]`. (Elsewhere in a graph a node listed twice may be
      highlighted once: if it was visited before its lister fires, no call
      is scheduled for it.) */
  lemma {:induction false} ListedTwice(adj: Adj, n: nat, m: nat)
    requires n != m && adj == map[n := [m, m]]
    ensures RunDfs(adj, Start(n), [0, 0, 0]).highlighted == [n, m, m]
  {
    var s1 := DfsState({n}, [Call(m, 1), Call(m, 1)], [n]);
    TwiceScheduled(adj, n, m);
    LeafTwice(adj, s1, m);
    RunStep(adj, Start(n), [0, 0, 0]);
    assert [0, 0, 0][1..] == [0, 0];
  }

  /** A node can be highlighted twice: node 0 lists node 1 twice, and both
      scheduled calls fire. */
  lemma DoubleHighlight()
    ensures RunDfs(map[0 := [1, 1]], Start(0), [0, 0, 0]).highlighted == [0, 1, 1]
  {
    ListedTwice(map[0 := [1, 1]], 0, 1);
  }

  /** The numbers `lo, lo + 1, ..., hi - 1`. */
  function Range(lo: nat, hi: nat): (r: seq<nat>)
    ensures |r| == if lo <= hi then hi - lo else 0
    ensures forall x :: x in r ==> lo <= x < hi
    decreases hi - lo
  {
    if lo >= hi then [] else [lo] + Range(lo + 1, hi)
  }

  lemma {:induction false} RangeSize(lo: nat, hi: nat)
    requires lo <= hi
    ensures |Members(Range(lo, hi))| == hi - lo
    decreases hi - lo
  {
    if lo < hi {
      RangeSize(lo + 1, hi);
      assert Members(Range(lo, hi)) == {lo} + Members(Range(lo + 1, hi));
      assert lo !in Members(Range(lo + 1, hi));
    } else {
      assert Members(Range(lo, hi)) == {};
    }
  }

  /** One call at depth 1 for each of `lo, ..., hi - 1`. */
  function LeafCalls(lo: nat, hi: nat): (r: seq<Call>)
    ensures |r| == if lo <= hi then hi - lo else 0
    decreases hi - lo
  {
    if lo >= hi then [] else [Call(lo, 1)] + LeafCalls(lo + 1, hi)
  }

  function Zeros(k: nat): (z: seq<nat>)
    ensures |z| == k && forall j :: 0 <= j < k ==> z[j] == 0
  {
    if k == 0 then [] else [0] + Zeros(k - 1)
  }

  /** A star: node 0 points at nodes 1 to `k`, which point nowhere. */
  function Star(k: nat): Adj
  {
    map[0 := Range(1, k + 1)]
  }

  lemma {:induction false} ScheduleLeaves(lo: nat, hi: nat)
    requires 1 <= lo
    ensures Schedule(Range(lo, hi), {0}, 1) == LeafCalls(lo, hi)
    decreases hi - lo
  {
    if lo < hi {
      ScheduleLeaves(lo + 1, hi);
      assert Range(lo, hi)[1..] == Range(lo + 1, hi);
    }
  }

  /** A leaf call highlights its leaf and schedules nothing. */
  lemma LeafStep(k: nat, s: DfsState, lo: nat, hi: nat)
    requires 1 <= lo < hi
    requires s.pending == LeafCalls(lo, hi)
    ensures Fire(Star(k), s, 0) == DfsState(s.visited + {lo}, LeafCalls(lo + 1, hi), s.highlighted + [lo])
  {
    assert Neighbours(Star(k), lo) == [];
    assert s.pending[..0] + s.pending[1..] == LeafCalls(lo + 1, hi);
  }

  /** Firing the front call `hi - lo` times from `s` visits exactly the
      leaves `lo..hi-1` on top of what `s` had visited. */
  ghost predicate Drains(k: nat, s: DfsState, lo: nat, hi: nat)
    requires lo <= hi
  {
    RunDfs(Star(k), s, Zeros(hi - lo)).visited == s.visited + Members(Range(lo, hi))
  }

  lemma DrainNone(k: nat, s: DfsState, lo: nat)
    ensures Drains(k, s, lo, lo)
  {
    assert Zeros(0) == [];
    assert Members(Range(lo, lo)) == {};
    assert s.visited + {} == s.visited;
  }

  /** Firing the front call `n + 1` times is firing it once, then `n`
      more times. */
  lemma RunFront(adj: Adj, s: DfsState, n: nat)
    requires s.pending != []
    ensures RunDfs(adj, s, Zeros(n + 1)) == RunDfs(adj, Fire(adj, s, 0), Zeros(n))
  {
    var z := Zeros(n + 1);
    assert z[1..] == Zeros(n);
    assert z[0] % |s.pending| == 0;
  }

  /** Firing the front leaf call first, then the remaining ones. */
  lemma DrainHead(k: nat, s: DfsState, lo: nat, hi: nat)
    requires 1 <= lo < hi
    requires s.pending == LeafCalls(lo, hi)
    ensures RunDfs(Star(k), s, Zeros(hi - lo))
         == RunDfs(Star(k), DfsState(s.visited + {lo}, LeafCalls(lo + 1, hi), s.highlighted + [lo]), Zeros(hi - (lo + 1)))
  {
    var n := hi - (lo + 1);
    LeafStep(k, s, lo, hi);
    RunFront(Star(k), s, n);
    assert n + 1 == hi - lo;
  }

  /** The numbers from `lo` are `lo` and the numbers from `lo + 1`. */
  lemma RangeHead(lo: nat, hi: nat)
    requires lo < hi
    ensures Members(Range(lo, hi)) == {lo} + Members(Range(lo + 1, hi))
  {
    assert Range(lo, hi) == [lo] + Range(lo + 1, hi);
  }

  /** One leaf call fired in front of the rest. */
  lemma DrainOne(k: nat, s: DfsState, lo: nat, hi: nat)
    requires 1 <= lo < hi
    requires s.pending == LeafCalls(lo, hi)
    requires Drains(k, DfsState(s.visited + {lo}, LeafCalls(lo + 1, hi), s.highlighted + [lo]), lo + 1, hi)
    ensures Drains(k, s, lo, hi)
  {
    var later := Members(Range(lo + 1, hi));
    DrainHead(k, s, lo, hi);
    RangeHead(lo, hi);
    assert (s.visited + {lo}) + later == s.visited + ({lo} + later);
  }

  /** Firing the front call each time, the leaf calls visit their leaves
      and schedule nothing. */
  lemma {:induction false} DrainLeaves(k: nat, s: DfsState, lo: nat, hi: nat)
    requires 1 <= lo <= hi
    requires s.pending == LeafCalls(lo, hi)
    ensures Drains(k, s, lo, hi)
    decreases hi - lo
  {
    if lo < hi {
      var t := DfsState(s.visited + {lo}, LeafCalls(lo + 1, hi), s.highlighted + [lo]);
      DrainLeaves(k, t, lo + 1, hi);
      DrainOne(k, s, lo, hi);
    } else {
      DrainNone(k, s, lo);
    }
  }

  /** The first call, on the centre, schedules one call per leaf. */
  lemma StarFirstCall(k: nat)
    ensures Fire(Star(k), Start(0), 0) == DfsState({0}, LeafCalls(1, k + 1), [0])
  {
    ScheduleLeaves(1, k + 1);
    assert {} + {0} == {0};
    assert [Call(0, 0)][..0] + [Call(0, 0)][1..] == [];
  }

  /** The centre together with leaves `1..k` are `k + 1` nodes. */
  lemma StarNodes(k: nat)
    ensures |{0} + Members(Range(1, k + 1))| == k + 1
  {
    assert Range(0, k + 1) == [0] + Range(1, k + 1);
    assert {0} + Members(Range(1, k + 1)) == Members(Range(0, k + 1));
    RangeSize(0, k + 1);
  }

  /** From the centre of a star, every leaf sits at depth 1: once all
      timers have fired, the centre and all `k` leaves are visited. */
  lemma StarVisitsAll(k: nat)
    ensures |RunDfs(Star(k), Start(0), Zeros(k + 1)).visited| == k + 1
  {
    var s1 := Fire(Star(k), Start(0), 0);
    StarFirstCall(k);
    assert Zeros(k + 1)[1..] == Zeros(k);
    assert RunDfs(Star(k), Start(0), Zeros(k + 1)) == RunDfs(Star(k), s1, Zeros(k));
    DrainLeaves(k, s1, 1, k + 1);
    StarNodes(k);
  }

  /** The depth cap does not cap the number of nodes: a star with 25
      leaves ends with 26 visited nodes. */
  lemma StarExceedsTwenty()
    ensures |RunDfs(Star(25), Start(0), Zeros(26)).visited| > MaxDepth
  {
    StarVisitsAll(25);
  }
}
