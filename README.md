# Pathfinder: paths, shortest paths and spanning trees, in Dafny

This project models the algorithmic core of the Pathfinder program:

- the `Path` class, a walk built up arc by arc that keeps its total cost and
  the set of nodes it has recorded (`path.h`, `path.cpp`);
- `findShortestPath`, the best-first search over partial paths (Dijkstra's
  algorithm with paths as the elements of the queue);
- the loop of `kruskalAction`, Kruskal's algorithm over a partition of the
  nodes into connected sets.

Files and modules:

| file | module | contents |
|---|---|---|
| `graph.dfy` | `Graphs` | the graph, walks, walk cost |
| `pqueue.dfy` | `PriorityQueues` | the priority queue's contract, `dequeue` |
| `path.dfy` | `Paths` | the `Path` class and its value snapshot `PathValue` |
| `shortest_path.dfy` | `ShortestPath` | `findShortestPath` and its optimality proof |
| `spanning_tree.dfy` | `SpanningTree` | the Kruskal loop and its spanning-forest proof |

## Modelling decisions

- **Graph.** The graph is an arena: nodes are `0..N()-1`, each with a name, and
  `Arc(start, finish, cost)` values sit in a sequence indexed by arc id. Every
  node has the list of ids of its outgoing arcs.
  - `Graph.Valid()` is assumed of a well-formed input file: arc ends are
    nodes, names are unique, and each node's list holds exactly the arcs that
    start there (`pathfinder.cpp:273-287`). `dataInput` checks neither of the
    first two; "## Left out" says what it does instead.
  - The name map `fixed` of `findShortestPath` is keyed by node id. This
    equals keying by name only when names are unique.
  - `Graph.Reciprocal()` states that every input edge becomes an arc and its
    reverse twin. Only the twin lemma of the Kruskal model needs it.
- **Costs.** Costs are `nat`, not `double`. `realToString` becomes the decimal
  text of a `nat`.
- **The `Path` class.** `Path` is a class with the fields `arcs`, `nodes` and
  `costs`, and `Valid()` ties them together.
  - `new Path.CopyOf(p)` models the copy `Path newPath = path;`, and
    `Path.Assign` models the copy assignment `path = queue.dequeue();`.
  - `PathValue` is the member-wise value of a path. The queue of the search
    holds these values, as `PriorityQueue<Path>` holds copies.
  - `Visited` gives the recorded node set, including the way `add` records an
    arc's start only while the cost so far is 0.
- **Priority queue.** The queue is a sequence of `(item, priority)` entries.
  `Dequeue` takes *some* entry of least priority, so every result about the
  two algorithms holds for every tie-break the Stanford `PriorityQueue` might
  use.
- **Search loop.** The body of the search loop is split into `Settle` (the
  `fixed.put` and the loop over `start->arcs`) and `Advance` (`dequeue` and
  the move to the path's end). Ghost state records the proof:
  - `routes`, a walk that attains each fixed cost;
  - `enq`, for each arc leaving the fixed region, the queue entry that
    extends across it.
- **Kruskal loop.** The Kruskal loop is lifted out of `kruskalAction` into
  `Kruskal`. It takes the graph and returns the set of accepted arcs.
  - `connectedNodeSet` is a local sequence of sets. Its `+=` and `remove`
    are the function `Merge`.
  - The arcs are enqueued in id order and the singleton sets are built in
    node order. The order in which the Stanford `Set` iterates is not
    modelled, and no result depends on it.

**Where the caller and the search disagree.** The caller reads a path of
cost 0 as "no path": it tests `totalCost() != 0` (`pathfinder.cpp:107`) and
otherwise prints "No path found." (`pathfinder.cpp:125`). When `finish` is
unreachable, though, the search returns the path it dequeued last
(`pathfinder.cpp:375`). The model follows the code:
`FindShortestPath` returns that path, and its contract says when it is empty.
See "## Findings".

## Model

| member | source | states |
|---|---|---|
| Paths.Path.constructor | path.cpp:10-13 | a new path has no arcs, no nodes and cost 0, and is consistent |
| Paths.Path.CopyOf | pathfinder.cpp:369 | the copy is a separate object holding the same arcs, nodes and cost |
| Paths.Path.Assign | pathfinder.cpp:376 | assignment gives the path exactly the assigned value, which stays consistent |
| Paths.Path.Add | path.cpp:21-27 | the arc is appended, its cost added, its finish recorded, and its start recorded when the cost so far was 0; consistency is kept |
| Paths.Path.ToString | path.cpp:29-36 | the text is one "start -> finish (cost)" line per arc, in order |
| Paths.RenderLineCount | path.cpp:29-36 | with names free of line breaks, the text has exactly as many lines as the path has arcs |
| Paths.DecimalText | path.cpp:33 | a cost is rendered as a non-empty string of decimal digits |
| Paths.Path.TotalCost | path.cpp:38-41 | the running total equals the sum of the arc costs |
| Paths.Path.Size | path.cpp:43-46 | the size is the number of arcs, and is 0 exactly when no node is recorded |
| Paths.Path.GetArc | path.cpp:48-51 | the arc at a position is that element of the arc list and an arc of the graph |
| Paths.Path.GetNodes | path.cpp:53-56 | the returned set is the recorded set and holds only graph nodes |
| Paths.VisitedOfWalk | path.cpp:21-27 | for a connected non-empty walk the recorded nodes are its start plus the finish of every arc |
| Paths.VisitedInRange | path.cpp:21-27 | every recorded node is a node of the graph |
| PriorityQueues.Dequeue | pathfinder.cpp:376 | the entry taken is in the queue and has least priority; what remains is the queue less exactly that entry, in order |
| PriorityQueues.RemoveAt | pathfinder.cpp:376 | dequeuing removes exactly one entry: the others stay, in order, and the multiset loses only that entry |
| PriorityQueues.MinIndex | pathfinder.cpp:376 | a non-empty queue has an entry of least priority, and this is the first such entry |
| Graphs.ClosedReach | pathfinder.cpp:375 | no walk from a set of nodes that no arc leaves gets outside it |
| ShortestPath.FindShortestPath | pathfinder.cpp:354-381 | the result is a walk from `start`. Ending at `finish`, no walk there is cheaper; not ending there, no walk reaches `finish`. It is empty exactly when `start == finish` or no arc leaves `start` for another node. Every settled node is settled at its true distance |
| ShortestPath.Settle | pathfinder.cpp:362-374 | `start` is fixed at the current cost, which is its distance. The old queue stays as a prefix, and one entry is appended per arc of `start` to a node not yet fixed, in arc order: the current path extended by that arc, at its cost. The invariants are kept |
| ShortestPath.ExpandFrom | pathfinder.cpp:365-373 | in list order, one entry per arc whose finish is unfixed: the current path extended by that arc, at its total cost; the old queue is a prefix |
| ShortestPath.OpenArcsMember | pathfinder.cpp:367 | an arc is expanded exactly when it leaves the node and its finish is not fixed |
| ShortestPath.ExpandedQueue | pathfinder.cpp:369-371 | every appended entry is a non-empty walk from the search's start, queued at its cost |
| ShortestPath.ExpandedFrontier | pathfinder.cpp:364-373 | after an expansion every arc leaving the fixed region has a queued entry that crosses it at no more than the arc's cost beyond its fixed start |
| ShortestPath.ArcOfCurrent | pathfinder.cpp:365-373 | an arc leaving the node just fixed is covered by the entry queued for it |
| ShortestPath.ArcOfOlder | pathfinder.cpp:365-373 | an arc from an earlier fixed node keeps its still-queued entry |
| ShortestPath.FixOne | pathfinder.cpp:364 | fixing a node at a cost no walk beats keeps every fixed cost a shortest distance |
| ShortestPath.FixShrinks | pathfinder.cpp:362-364 | each `fixed.put` removes a node from the unfixed ones, so the loop terminates |
| ShortestPath.FirstExpansion | pathfinder.cpp:362-375 | after the first expansion the queue is empty exactly when every arc of `start` leads back to `start` |
| ShortestPath.StaleCurrent | pathfinder.cpp:362 | a path to a node already fixed is not what covers any crossing arc, so nothing is lost by skipping it |
| ShortestPath.FrontierBound | pathfinder.cpp:376 | if every crossing arc costs at least `m` beyond its fixed start, every walk to an unfixed node costs at least `m` |
| ShortestPath.TakeNext | pathfinder.cpp:376-377 | a least entry is a shortest walk to its end unless that end is fixed; the rest of the queue keeps the invariants |
| ShortestPath.Advance | pathfinder.cpp:376-377 | the current path becomes a least-cost entry of the old queue, the queue is the old one less that entry, and `start` becomes the finish of the path's last arc; the path is no dearer than any walk to that node unless the node is fixed |
| ShortestPath.Unreachable | pathfinder.cpp:375 | when no arc leaves the fixed region and the queue is empty, no walk reaches an unfixed node |
| ShortestPath.DetachedSearch | pathfinder.cpp:375 | on a graph where `finish` is cut off, the search returns a non-empty path of non-zero cost that does not reach `finish` |
| ShortestPath.DetachedFacts | pathfinder.cpp:375 | in that graph an arc leaves the start, all arcs cost 1, and the finish is unreachable |
| ShortestPath.PositiveCost | pathfinder.cpp:107 | over arcs of positive cost, a non-empty walk has positive total cost |
| ShortestPath.FindPathOrEmpty | pathfinder.cpp:354-381 | the corrected search: the result is empty exactly when `start == finish` or `finish` is unreachable; otherwise it is a shortest walk to `finish` |
| SpanningTree.EnqueueArcs | pathfinder.cpp:138-139 | every arc is enqueued once, with its cost as priority |
| SpanningTree.InitialScheduled | pathfinder.cpp:138-139 | the initial queue holds each arc once, at its cost, and nothing is dequeued yet |
| SpanningTree.Singletons | pathfinder.cpp:141-146 | one singleton set per node |
| SpanningTree.SingletonsForest | pathfinder.cpp:141-146 | the singletons partition the nodes, and with the empty tree they meet the partition invariant |
| SpanningTree.LastIn | pathfinder.cpp:152-162 | the scan's index for a node is the last set holding the node, or 0 when no set holds it |
| SpanningTree.Locate | pathfinder.cpp:152-162 | the scan sets `index1` and `index2` to the last sets holding the arc's start and finish |
| SpanningTree.LocateUnique | pathfinder.cpp:152-162 | in a partition the index found is the one set that holds the node |
| SpanningTree.LocateSame | pathfinder.cpp:152-164 | both ends get the same index exactly when they lie in one set |
| SpanningTree.LocateArc | pathfinder.cpp:152-164 | both ends are found, and the indices agree exactly when the tree already links the ends |
| SpanningTree.SameSetTrans | pathfinder.cpp:164 | in a partition, lying in one set is transitive |
| SpanningTree.Merge | pathfinder.cpp:166-167 | set `index1` becomes the union of the two sets, set `index2` leaves, and the others keep their values and order |
| SpanningTree.MergeMoves | pathfinder.cpp:166-167 | every old set is inside a set of the merge, and every new set except the union is an old one |
| SpanningTree.MergePairDisjoint | pathfinder.cpp:166-167 | any two sets of a merged partition are disjoint: the union against an old set, or two old sets |
| SpanningTree.MergeDisjoint | pathfinder.cpp:166-167 | the sets of a merged partition are pairwise disjoint |
| SpanningTree.MergeCovers | pathfinder.cpp:166-167 | a merged partition covers the same nodes with non-empty sets |
| SpanningTree.MergeCoversNode | pathfinder.cpp:166-167 | a node held before the merge is held after it |
| SpanningTree.MergeSetFrom | pathfinder.cpp:166-167 | each set of the merge is the union or an unchanged old set |
| SpanningTree.MergeSameSetOnly | pathfinder.cpp:166-167 | two nodes share a merged set only if they shared a set before or both lie in the merged pair |
| SpanningTree.MergeSameSetKeeps | pathfinder.cpp:166-167 | nodes that shared a set, or lie in the merged pair, share a set after the merge |
| SpanningTree.MergePartition | pathfinder.cpp:166-167 | a merge of two sets of a partition is a partition, and shared membership changes exactly by the merged pair |
| SpanningTree.LinkedRefl | pathfinder.cpp:143-145 | a node is linked to itself |
| SpanningTree.LinkedArc | pathfinder.cpp:168 | a tree arc links its two ends |
| SpanningTree.LinkedSym | pathfinder.cpp:164-169 | tree arcs are used in either direction, so being linked is symmetric |
| SpanningTree.LinkedTrans | pathfinder.cpp:164-169 | being linked is transitive |
| SpanningTree.LinkedMono | pathfinder.cpp:168 | adding arcs to the tree keeps every link |
| SpanningTree.ChainInSet | pathfinder.cpp:164-169 | a chain of tree arcs never leaves the set it starts in |
| SpanningTree.ForestLinked | pathfinder.cpp:148-170 | under the invariant, two nodes are linked by the tree exactly when they share a set |
| SpanningTree.LinkAcross | pathfinder.cpp:166-168 | nodes in the merged sets are linked once the arc joins the tree |
| SpanningTree.AcceptKeeps | pathfinder.cpp:164-169 | accepting an arc between two sets and merging them keeps the invariant and every shared membership |
| SpanningTree.Consider | pathfinder.cpp:152-169 | an arc is accepted exactly when the tree does not link its ends yet. Acceptance adds it to the tree and merges the two sets; rejection changes nothing. The invariant holds afterwards |
| SpanningTree.DequeueScheduled | pathfinder.cpp:148-150 | dequeuing a least entry keeps every arc in exactly one of queue and order, and the order non-decreasing in cost |
| SpanningTree.ProcessedStep | pathfinder.cpp:148-170 | every dequeued arc has its two ends in one set from then on, and the tree holds only dequeued arcs |
| SpanningTree.AcceptedStep | pathfinder.cpp:148-170 | the greedy tree of an order with one more arc gains that arc exactly when the earlier accepted arcs do not link its ends, and is unchanged otherwise |
| SpanningTree.Turn | pathfinder.cpp:148-170 | one turn dequeues a least-cost entry and leaves the queue less exactly that entry, with its arc appended to the order. When the tree already links the arc's ends, sets and tree are unchanged. Otherwise the arc joins the tree and the two sets found by the scan are merged. All the invariants are kept |
| SpanningTree.Below | pathfinder.cpp:138 | the set of arc ids, exactly those below the arc count |
| SpanningTree.Spans | pathfinder.cpp:148-170 | if the tree links the ends of every arc, it links every pair the graph's arcs link |
| SpanningTree.Kruskal | pathfinder.cpp:134-170 | arcs are taken each exactly once, in non-decreasing cost order. The tree is exactly the greedy tree `Accepted` of that order: an arc is kept exactly when the arcs kept before it do not link its ends. The final sets partition the nodes and are the tree's components, with tree arcs plus sets equal to nodes, so the tree is a forest. The tree links every pair the graph links |
| SpanningTree.TwinRejected | pathfinder.cpp:164 | with twin arcs, once an edge's arc is in the tree both directions have their ends in one set, so the twin is rejected |

## Left out

- File loading and token scanning (`readMapData`, `openDataFile`, `dataInput`):
  stream I/O. What the loader guarantees about the graph appears as
  `Graph.Valid()` and `Graph.Reciprocal()`.
- Drawing, mouse hit-testing, buttons, the event loop and `quitAction`: calls
  into the graphics library.
- The `dijkstraAction` wrapper is not modelled. Only its test
  `totalCost() != 0` shows up, in the finding.
- `graphtypes.h` and the Stanford collections (`Vector`, `Set`, `Map`,
  `PriorityQueue`). They are modelled by their contracts: sequences, sets,
  maps and `Dequeue`'s any-least-entry rule.
- Floating-point costs: costs are natural numbers. Rounding, negative costs
  and NaN are not modelled, and `realToString` is the decimal text of a
  natural.
- Identity of nodes and arcs by address: nodes and arcs are ids, and the name
  map `fixed` is keyed by node id.
- Duplicate node names: a repeated name in the NODES section makes a second
  node of that name (`pathfinder.cpp:252-256`) and overwrites its `nodeMap`
  entry (`pathfinder.cpp:257`). The name-keyed `fixed` of the search
  (`pathfinder.cpp:358`, `362`, `367`) would then treat the two nodes as one.
  The model keys `fixed` by node id and assumes unique names in `Graph.Valid()`.
- Unknown names in the ARCS section: `nodeMap` then yields a null node, and
  `pathfinder.cpp:279` dereferences it. The model assumes every arc end is a
  node, in `Graph.Valid()`.
- Paths.Path.GetArc: an index out of range is a `Vector` bounds error in the
  source (`path.cpp:50`). The model makes it the precondition `i < |arcs|`.
- Iteration order of the Stanford `Set`: arcs are enqueued and singleton sets
  built in id order.
- Kruskal: that the tree has least total cost among spanning forests (the
  exchange argument) is not proved. The model proves the forest and spanning
  properties, the cost order in which arcs are considered, and that the tree
  is the greedy tree `Accepted` of that order.
- `~Path` is not modelled: it only clears fields of an object that is going
  away.
- Dequeue ties: which of several least entries is taken is left open rather
  than modelled.

## Findings

| source | as written | input that shows it | evidently intended | confidence | as-written member | corrected member |
|---|---|---|---|---|---|---|
| pathfinder.cpp:375 | when the queue empties before `finish` is reached, the path dequeued last is returned | nodes A, B, C; one edge A-B of cost 1; search from A to C returns the path A -> B of cost 1 | an empty path of cost 0, which the caller's `totalCost() != 0` test (pathfinder.cpp:107) reads as "no path", printing "No path found." (pathfinder.cpp:125) | medium, not executed | ShortestPath.DetachedSearch | ShortestPath.FindPathOrEmpty |
