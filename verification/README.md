# Graph traversal animator, modelled in Dafny

This project models the algorithmic core of the blog's graph widget in
`js/script.js`. It covers four pieces:

- **The breadth-first animator** `animateBFS`. It keeps a FIFO queue, a visited set marked at enqueue time, and a cap of 20 steps.
- **The scene builder** `drawSimpleGraph`. Its output is reduced to abstract shape records.
- **The depth-first animator** `animateDFS`. The model keeps its depth guard and its deferred, timer-driven calls.
- **`resetGraph`**, which works on the fills of the node circles.

Modules, one per file:

- `Options` (`options.dfy`): an optional value.
- `Sequences` (`sequences.dfy`): membership, repeats, first occurrence and prefixes of node sequences.
- `Graph` (`graph.dfy`): adjacency lists (`map<nat, seq<nat>>`, where a missing entry means no neighbours), reachability by hop count, and closed sets.
- `Bfs` (`bfs.dfy`): `animateBFS`.
  - One timer tick is one step of `Run`, and `BfsOrder` is the sequence of highlighted nodes.
  - `AnimateBfs` is the same loop written as a `while` loop.
- `LevelOrder` (`levels.dfy`): a level-order traversal built level by level rather than tick by tick. Each level is formed with the same enqueue filter `Unvisited`, which `Bfs.UnvisitedSpec` and `Bfs.UnvisitedUnique` pin down exactly. The module proves that `animateBFS` highlights the first 20 nodes of that traversal, and derives from this:
  - no repeats;
  - only reachable nodes;
  - every reachable node when the run ends early.
- `Decimal` (`decimal.dfy`): the decimal form of node indices, with a parse/print round trip. This makes the group ids `node-<index>` distinct.
- `Scene` (`scene.dfy`): `drawSimpleGraph` as a function from nodes and edges to an outcome.
  - The outcome is `NoSurface`, `Aborted`, or `Drawn` with a scene.
  - A scene has one marker, the edge shapes (`Line`, `WeightLabel`) and the node groups.
- `Surface` (`surface.dfy`): the node circles and their fills.
  - A highlight goes through `getElementById`; a missing element is a no-op.
  - `resetGraph` is modelled here, together with the reset-then-animate sequence used by the BFS button.
- `Dfs` (`dfs.dfy`): `animateDFS`. Calls `dfs(node, depth)` wait on timers and fire in an order chosen by an arbitrary choice sequence.

## Model

| member | source | states |
|---|---|---|
| Bfs.UnvisitedSpec | js/script.js:126-133 | One tick appends each not-yet-visited neighbour exactly once, in the order of first occurrence in the adjacency list. It appends nothing already visited and nothing that is not a neighbour. |
| Bfs.UnvisitedUnique | js/script.js:126-133 | Those four properties determine what a tick appends: any sequence that has them is exactly the appended sequence. |
| Bfs.Run | js/script.js:113-137 | The remaining ticks highlight at most `20 - step` nodes. They highlight nothing exactly when the queue is empty or the cap is reached. Otherwise the first node highlighted is the front of the queue. |
| Bfs.BfsOrder | js/script.js:105-119 | `animateBFS` highlights between 1 and 20 nodes, and the first is the start node. |
| Bfs.AnimateBfs | js/script.js:105-140 | The tick loop, written as a `while` loop, highlights exactly `BfsOrder`. |
| Bfs.BfsDiscoveredEarlier | js/script.js:126-133 | Every highlighted node after the start is a neighbour of a node highlighted earlier. |
| LevelOrder.ExpandFresh | js/script.js:127-131 | Enqueueing a whole level adds every unseen neighbour of that level, each once. Each added node is a neighbour of the level, and none was seen before. |
| LevelOrder.RunStopsInLevel | js/script.js:113-137 | When the step cap falls inside the level at the front of the queue, the run highlights exactly a prefix of that level. |
| LevelOrder.RunThroughLevel | js/script.js:119-135 | When the cap lies beyond that level, the run highlights the whole level in queue order. It then continues with the rest of the queue followed by the next level. |
| LevelOrder.RunMatchesLevels | js/script.js:113-137 | From any state, the run highlights the level-order traversal that starts with the queue as its first level, truncated to the remaining steps. |
| LevelOrder.BfsIsLevelOrderPrefix | js/script.js:105-140 | `animateBFS` highlights exactly the first 20 nodes (or all nodes) of the level-order traversal from the start. |
| LevelOrder.BfsNoDuplicates | js/script.js:127-131 | No node is highlighted twice. |
| LevelOrder.BfsReachableOnly | js/script.js:126-133 | Every highlighted node is reachable from the start. |
| LevelOrder.BfsCompleteBelowCap | js/script.js:114-117 | When fewer than 20 nodes are highlighted, the queue ran dry. The highlighted nodes are then exactly the nodes reachable from the start. |
| Decimal.NatToString | js/script.js:60 | The index in `node-${index}` is written with decimal digits only. It is never empty, and it starts with `0` only for zero. |
| Decimal.ParseShow | js/script.js:60 | Reading back the decimal form of a number gives the number. |
| Decimal.ShowParse | js/script.js:60 | Every canonical numeral is the decimal form of the number it denotes. |
| Decimal.NatToStringInjective | js/script.js:60 | Distinct indices have distinct decimal forms. |
| Scene.NodeIdInjective | js/script.js:60 | Distinct node indices give distinct group ids `node-<index>`. |
| Scene.NodeGroups | js/script.js:57-80 | There is one group per node, in node order. The group of node `i` has id `node-<i>`, index `i`, radius 25 and the node's label. |
| Scene.LinesMatchEdges | js/script.js:22-38 | The edge group holds exactly one line per edge, in edge order, with the edge's endpoints. A line carries the arrowhead exactly when its edge is directed. |
| Scene.LabelsOrdered | js/script.js:22-54 | Weight labels name edges of the list, each at most once, in increasing edge order. |
| Scene.LabelsMatchWeights | js/script.js:40-53 | An edge has a weight label exactly when its weight is truthy. |
| Scene.LabelsShowWeights | js/script.js:51 | Each weight label shows the weight of the edge it labels. |
| Scene.LabelsFollowTheirLines | js/script.js:38-53 | Each weight label comes straight after the line of the edge it labels, so no label is the first shape. |
| Scene.EdgeShapeCount | js/script.js:22-54 | The edge group has one child per edge plus one per truthy weight. |
| Scene.DrawnScene | js/script.js:6-102 | The outcome depends only on the inputs. <br>- A missing surface means nothing is drawn. <br>- An edge with a missing endpoint aborts and leaves the surface empty. <br>- Otherwise the scene has the arrowhead marker, the lines and labels above (each label right after its edge's line), and one group per node with id `node-<i>` and radius 25. |
| Surface.CirclesOf | js/script.js:57-79 | A freshly drawn scene has one circle per node group, in order, carrying the group's id and no fill of its own. |
| Surface.FindCircle | js/script.js:120-122 | `getElementById` returns the first circle with the id, or nothing when no circle has it. |
| Surface.FindNodeCircle | js/script.js:120-122 | In a drawn scene, `node-<n>` names a circle exactly when `n` is a node index, and that circle is node `n`'s. |
| Surface.HighlightEffect | js/script.js:120-123 | One highlight recolours exactly the circle named after the node, if there is one. Every id is kept. |
| Surface.PaintEffect | js/script.js:119-123 | A run of highlights recolours exactly the circles named after the highlighted nodes. Every other circle and every id is kept. |
| Surface.ResetColours | js/script.js:229-233 | After `resetGraph` every circle has the base colour `#2563eb`. The circles, their ids and their order are unchanged. |
| Surface.ResetOnlyReadsIds | js/script.js:229-233 | The result of `resetGraph` does not depend on the fills it overwrites. |
| Surface.ResetIdempotent | js/script.js:229-233 | Resetting twice is the same as resetting once. |
| Surface.ResetErasesPaint | js/script.js:229-233 | A reset after any animation gives the same page as a reset before it. |
| Surface.StaleHighlights | js/script.js:150-153 | Without a reset, a circle painted by the depth-first animator keeps its colour through a breadth-first run that does not revisit its node. |
| Surface.SceneCircles | js/script.js:57-60 | The circles of a drawn scene have distinct ids, and the circle of node `i` is named `node-<i>`. |
| Surface.ResetThenBfs | js/script.js:176-183 | After a reset and a breadth-first run on a freshly drawn scene, with no other animation pending, node `i`'s circle is green if `i` was visited and blue otherwise. |
| Dfs.Schedule | js/script.js:155-163 | Every scheduled call names a listed neighbour that was unvisited when scheduled, one level deeper. |
| Dfs.ScheduleComplete | js/script.js:155-163 | Every neighbour unvisited at that moment gets a scheduled call. |
| Dfs.FireGuard | js/script.js:146-153 | A call with depth over 20 highlights nothing and marks nothing. A call within the cap marks its node visited and highlights it. |
| Dfs.FireSound | js/script.js:146-163 | Firing any pending call preserves three facts. <br>- Each pending call's depth is its node's hop distance along a path, and at most 21. <br>- Each highlighted node is within 20 hops. <br>- The visited set is the set of highlighted nodes. |
| Dfs.RunSound | js/script.js:143-167 | The same facts hold after any sequence of timer firings. |
| Dfs.DfsWithinCap | js/script.js:143-167 | Whatever the timer order, `animateDFS` highlights only nodes at most 20 edges from the start. Its visited set is exactly the set of highlighted nodes. |
| Dfs.ChainCut | js/script.js:147 | On a chain, node 21 is never highlighted, whatever the timer order. |
| Dfs.ListedTwice | js/script.js:155-160 | When the start node `n` lists a leaf `m` twice and has no other neighbours, firing the timers in scheduling order highlights `[n, m, m]`. |
| Dfs.DoubleHighlight | js/script.js:155-160 | A node can be highlighted twice. If node 0 lists node 1 twice, both scheduled calls fire. |
| Dfs.StarVisitsAll | js/script.js:155-163 | From the centre of a star with `k` leaves, firing every timer visits `k + 1` nodes. |
| Dfs.StarExceedsTwenty | js/script.js:147 | The depth cap does not bound the visited set: a star with 25 leaves ends with 26 visited nodes. |

## Left out

- SVG element creation, attribute strings, CSS classes, the `innerHTML` clearing and the marker's geometry. The model records which shapes appear, in which order, and how they are named.
- Coordinates, the midpoint and offset of weight labels (js/script.js:43-46), and the node positions. They are floating-point layout with nothing to verify; `Node.x`/`Node.y` are carried but unused.
- The 800 ms `setTimeout` delays and `console.log`. A BFS timer tick is one step of `Run`. A DFS timer firing is one `Fire` at a position chosen by a choice sequence. Any firing order is allowed, which includes the browser's.
- Dfs.RunDfs: there is no statement that a DFS animation ends. A run is driven by a finite choice sequence and stops when the choices run out.
- The order in which the DFS timers actually fire; the DFS properties hold for every order.
- Event listeners and `window.currentGraphData` (js/script.js:170-200). `Surface.ResetThenBfs` states what the BFS button's reset-then-animate sequence does on a drawn scene when no earlier animation is still pending; the button wiring itself is not modelled.
- Scroll-to-top, clipboard copy and smooth scrolling (js/script.js:202-257): browser API glue.
- Scene.Weight: only a missing weight, integers and strings are modelled. Fractional numbers, `NaN`, booleans and objects are not. A label records the weight value itself, not JavaScript's string conversion of it.
- Scene.Draw: `drawSimpleGraph` throws on an edge whose endpoint is not a node index (js/script.js:23-27). The model records the outcome (`Aborted`, with an empty surface) and not the exception reaching the caller. Edge endpoints and node indices are natural numbers, so fractional or negative indices are not modelled.
- Surface: only the circles of one drawn scene are modelled. `resetGraph` selects every `.graph-node circle` in the document, which includes those of other graphs on the page.
- A cap on the number of nodes the depth-first animator visits. `animateDFS` caps the depth of each call (`step > 20`, js/script.js:147), not the number of visited nodes. It tests `visited` when a call is scheduled, not when it fires, so a node can be highlighted twice (`Dfs.DoubleHighlight`) and more than 20 nodes can be visited (`Dfs.StarExceedsTwenty`).
- Surface.ResetThenBfs: assumes no other animation is pending. Nothing cancels the timers of an earlier run (js/script.js:136, 158-160), so overlapping runs interleave their paint. A depth-first run started just before a breadth-first one can still paint nodes red after `resetGraph`.
- Decimal.NatToString: covers the numerals JavaScript writes for safe integers only. Numbers from 10^21 up print in exponent form, and numbers above 2^53 are not exact. Node indices are below the length of the node array, so no group id is affected.
