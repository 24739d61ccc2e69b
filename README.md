# Dijkstra step recorder: a verified model

This project models the core of a small Go program that runs Dijkstra's
shortest-path algorithm on an undirected weighted graph and records a
snapshot (`Step`) at every observable event, so that each snapshot can be
drawn as a Graphviz frame of an animation.

The modules follow the Go packages:

- `Graphs` (internal/graph/graph.go): the adjacency-list graph, a class
  whose `vertices` map `AddEdge` updates in place, plus walks and feasible
  labellings used to state shortest-path optimality.
- `Queues` (internal/graph/priority_queue.go): the lazy-deletion min-priority
  queue, a class over a slice of items with `container/heap`'s sift-up and
  sift-down written out, proved against the multiset of entries it holds.
- `Algorithm` (internal/algorithm/dijkstra.go): the engine, as imperative
  methods over the live `distances`, `visited` and `previous` maps and the
  queue. `Trace` and `Transition` specify which snapshot may follow which;
  `IsFinal` specifies the last snapshot.
- `Guarantees`: what a trace implies across snapshots (monotone visited set,
  non-increasing and then frozen distances, a single visit per vertex,
  growing exploration lists) and shortest-path correctness of the final
  snapshot.
- `Cmd` (cmd/main.go): `reconstructPath`, the sample graph and run of
  `main`, and the reachable/UNREACHABLE decision of `printResults`.
- `Visualizer` (internal/visualizer/dot.go): vertex colours, distance
  labels, the edge colour/width split, the edge key, the edge
  deduplication loop of `GenerateDOT` and the selection sort of
  `generateTable`'s rows.
- `Wrappers` and `Text`: Go's zero-value map read (`Get`), Go's byte-wise
  string order (`Less`) and decimal formatting/parsing for distance labels.

Infinity is Go's `math.MaxInt32` (2147483647), kept as the constant
`Algorithm.MaxInt32` exactly as the engine uses it: a distance equal to it
means "not reached". Go's `int` is 64-bit and integers here are unbounded;
the engine never adds to `MaxInt32`, because it adds only to the distance
of a visited (so reached) vertex.

## Model

Some Go functions are modelled by a Dafny function with no contract of its
own: `pq.Less` by `Queues.PriorityQueue.Less`, `getVertexColor` by
`Visualizer.VertexColor`, `getDistanceLabel` by `Visualizer.DistanceLabel`,
`getEdgeKey` by `Visualizer.EdgeKey` and one row of `generateTable` by
`Visualizer.Row`. Each is covered by the row of the lemma about it
(`Queues.RootIsMinimum`, `Visualizer.VertexColorCases`,
`Visualizer.DistanceLabelRoundTrip`, `Visualizer.EdgeKeySymmetric`,
`Visualizer.RowCells`).

Two loops also have a reference definition written as a fold over their
input: `Algorithm.ScanAll` (of `Algorithm.ScanStep`, one round of the
edge loop of `Dijkstra`) and `Visualizer.DrawAll` (of `Visualizer.NewLines`,
the edge loop of `GenerateDOT`). The methods that run those loops are
proved equal to them (`Algorithm.ScanEdges`, `Algorithm.Expand`,
`Visualizer.DrawFrom`, `Visualizer.DrawEdges`).

| member | source | states |
|---|---|---|
| Graphs.Graph.constructor | internal/graph/graph.go:12-16 | a new graph has no vertices |
| Graphs.Graph.AddEdge | internal/graph/graph.go:18-21 | the new adjacency is `WithEdge` of the old one, and the graph stays symmetric |
| Graphs.WithEdge | internal/graph/graph.go:18-21 | both ends become vertices; `from`'s list gains `(to, w)` at its end and `to`'s list gains `(from, w)`; a self-loop gains both entries; every other list is unchanged |
| Graphs.AddEdgeKeepsSymmetric | internal/graph/graph.go:18-21 | every half-edge u→x of weight w is still mirrored by x→u of the same weight |
| Graphs.AddEdgeKeepsNonNegative | internal/graph/graph.go:18-21 | adding an edge of non-negative weight keeps every weight non-negative |
| Graphs.AddEdgeNeighbors | internal/graph/graph.go:19-20 | the lists only grow at the end: the old list is a prefix, parallel edges are kept, a self-loop adds two entries, other vertices' lists are unchanged |
| Graphs.AddAllNeighbors | internal/graph/graph.go:19-20 | after a series of `AddEdge` calls, each list is its old list followed by what each call appended, in call order |
| Graphs.AddAllKeys | internal/graph/graph.go:19-20 | after a series of calls, the vertices are the old ones plus every endpoint |
| Graphs.Graph.GetAllVertices | internal/graph/graph.go:27-33 | every vertex exactly once; the length equals the number of vertices |
| Graphs.FeasibleBoundsWalk | internal/algorithm/dijkstra.go:77-80 | a labelling that satisfies the triangle inequality is at most the label of the start plus the weight of any walk |
| Graphs.WalkAppend | internal/algorithm/dijkstra.go:77-79 | a walk extended by one half-edge is a walk heavier by that edge's weight |
| Queues.PriorityQueue.constructor | internal/graph/priority_queue.go:42-46 | a new queue is a valid heap holding no entries |
| Queues.PriorityQueue.Len | internal/graph/priority_queue.go:13 | the length is the number of entries held |
| Queues.PriorityQueue.IsEmpty | internal/graph/priority_queue.go:63-65 | empty exactly when no entry is held, that is when `Len() == 0` |
| Queues.PriorityQueue.Swap | internal/graph/priority_queue.go:19-23 | the two slots are exchanged and renumbered to their new positions; no other slot changes; the entries held are unchanged |
| Queues.PriorityQueue.Push | internal/graph/priority_queue.go:25-30 | the item is appended with its index set to the old length; the entries gain exactly that one |
| Queues.PriorityQueue.Pop | internal/graph/priority_queue.go:32-40 | the last slot is removed and returned with index -1; the entries lose exactly that one |
| Queues.PriorityQueue.Up | internal/graph/priority_queue.go:53 | sifting up restores heap order and keeps the entries |
| Queues.PriorityQueue.Down | internal/graph/priority_queue.go:60 | sifting down restores heap order on the prefix and keeps the entries and the slots after it |
| Queues.PriorityQueue.DownRound | internal/graph/priority_queue.go:60 | one round of the sift-down loop either ends with the prefix heap-ordered or moves the only violation to a child |
| Queues.PriorityQueue.SwapDown | internal/graph/priority_queue.go:60 | swapping a slot with its smaller, smaller-than-it child moves the only violation down to that child |
| Queues.PriorityQueue.Insert | internal/graph/priority_queue.go:48-54 | exactly one entry `(vertex, distance)` is added, without removing earlier entries for the vertex; the heap stays valid |
| Queues.PriorityQueue.ExtractMin | internal/graph/priority_queue.go:56-61 | nil (None) exactly when empty, and then nothing changes; otherwise one held entry is removed and returned with index -1, and its distance is at most that of every remaining entry |
| Queues.RootIsMinimum | internal/graph/priority_queue.go:15-17 | in heap order by distance alone the root holds a least distance |
| Queues.RootBoundsBag | internal/graph/priority_queue.go:15-17 | every entry held by a heap is at least as far as its root |
| Queues.BagSwap | internal/graph/priority_queue.go:19-23 | exchanging two slots keeps the multiset of entries |
| Queues.UpStep | internal/graph/priority_queue.go:53 | one sift-up swap moves the only heap violation up to the parent |
| Queues.DownStep | internal/graph/priority_queue.go:60 | one sift-down swap moves the only heap violation down to the child |
| Algorithm.CopyMap | internal/algorithm/dijkstra.go:105-127 | the copy is a map equal to its argument |
| Algorithm.Snapshot | internal/algorithm/dijkstra.go:35-41 | a snapshot holds copies equal to the live maps at that moment, the current vertex, the exploration list and the event |
| Algorithm.Explored | internal/algorithm/dijkstra.go:64-75 | the recorded explorations leave `cur`, go to unvisited vertices along listed edges, and are no more than the edges scanned |
| Algorithm.TraceAppend | internal/algorithm/dijkstra.go:56-89 | a trace followed by a snapshot allowed after its last one is a trace |
| Algorithm.PopIsGreedy | internal/algorithm/dijkstra.go:47-54 | lazy deletion: the least queue entry names a reached vertex, at most as far as every unvisited vertex |
| Algorithm.StaleKeeps | internal/algorithm/dijkstra.go:50-52 | popping an entry of a visited vertex keeps the loop invariant with nothing changed but the queue |
| Algorithm.VisitKeeps | internal/algorithm/dijkstra.go:47-54 | visiting the popped vertex starts an expansion: the invariant holds with that vertex settled |
| Algorithm.RelaxKeeps | internal/algorithm/dijkstra.go:77-80 | relaxing an edge that shortens an unvisited vertex's distance, recording the predecessor and queueing the new entry keeps the expansion invariant |
| Algorithm.SkipKeeps | internal/algorithm/dijkstra.go:66-77 | passing over an edge to a visited vertex, or one that does not shorten, keeps the expansion invariant |
| Algorithm.ExpandDone | internal/algorithm/dijkstra.go:64-91 | after every edge out of the vertex is scanned the outer invariant holds again |
| Algorithm.InitialBetween | internal/algorithm/dijkstra.go:24-44 | the initial maps with `(start, 0)` queued satisfy the outer invariant |
| Algorithm.FinishReached | internal/algorithm/dijkstra.go:46 | with the queue empty a vertex is visited exactly when it was reached |
| Algorithm.FinishFeasible | internal/algorithm/dijkstra.go:77 | once the loop ends every half-edge satisfies the triangle inequality |
| Algorithm.Finish | internal/algorithm/dijkstra.go:46-100 | the invariant with the queue empty makes the `Complete` snapshot final |
| Algorithm.InitMaps | internal/algorithm/dijkstra.go:24-33 | `start` has distance 0, every other vertex `MaxInt32`, every vertex of the graph is unvisited |
| Algorithm.Start | internal/algorithm/dijkstra.go:24-44 | the steps are exactly the one `Initial` snapshot (current vertex `start`, the initial maps, no explorations), `previous` is empty, and the queue holds exactly `(start, 0)`; the loop invariant holds |
| Algorithm.ScanEdge | internal/algorithm/dijkstra.go:65-91 | one edge of the scan (`EdgeScanned`): if its end is visited nothing changes; otherwise the edge is appended to the exploration list, and exactly when `distances[cur] + weight < distances[to]` the distance and predecessor of `to` are updated, `(to, new distance)` is pushed and one `Updated(to)` snapshot of the new state is appended; otherwise distances, predecessors, queue and steps are unchanged; the scan invariant advances by one edge |
| Algorithm.Expand | internal/algorithm/dijkstra.go:64-91 | scanning every edge out of the visited vertex, in list order, gives exactly the distances, predecessors, queue entries and steps of `ScanAll`; it leaves all its edges relaxed and appends only `Updated` snapshots forming a trace |
| Algorithm.ScanEdgeIsStep | internal/algorithm/dijkstra.go:65-91 | what one round of the scan does is exactly one `ScanStep`: a visited end changes nothing; otherwise the edge is recorded, and a shortening edge updates distance, predecessor, queue and steps |
| Algorithm.ScanAllNext | internal/algorithm/dijkstra.go:65 | scanning one more edge is one more `ScanStep` after the scan of the earlier edges |
| Algorithm.ScanNext | internal/algorithm/dijkstra.go:65-91 | after the `i`-th round the state is `ScanAll` of the first `i + 1` edges, and the scan invariant holds |
| Algorithm.ScanEdges | internal/algorithm/dijkstra.go:65-91 | the edge loop ends in exactly the state `ScanAll` gives for the edge list, with the scan invariant covering every edge |
| Algorithm.LastScanDone | internal/algorithm/dijkstra.go:46-91 | when the loop invariant holds, the last snapshot leaves no edge out of the vertex being expanded that still shortens a distance |
| Algorithm.Relax | internal/algorithm/dijkstra.go:70-90 | an edge into an unvisited vertex is appended to the exploration list; exactly when it shortens the distance, the new distance and predecessor are stored, the entry is pushed and one `Updated` snapshot of the new state is appended; otherwise nothing else changes |
| Algorithm.Visit | internal/algorithm/dijkstra.go:54-91 | visiting the closest unvisited vertex `v` keeps the loop invariant, marks exactly `v` visited, keeps every earlier step, appends the `Visiting(v)` snapshot of the state before the scan, and every later step it appends is an `Updated` one |
| Algorithm.Round | internal/algorithm/dijkstra.go:47-91 | one loop round keeps the invariant and returns the popped vertex, which belongs to a queue entry of least distance; steps only grow; popping an already-visited vertex changes no map and adds no snapshot, only the queue shrinks; popping an unvisited one marks it visited, appends a `Visiting` snapshot for it and leaves fewer vertices unvisited |
| Algorithm.Drain | internal/algorithm/dijkstra.go:46-92 | the loop runs until the queue is empty, keeps the invariant and only appends steps |
| Algorithm.Conclude | internal/algorithm/dijkstra.go:94-100 | the final `Complete` snapshot (current vertex "") ends a trace of at least three snapshots whose last one is final |
| Algorithm.Dijkstra | internal/algorithm/dijkstra.go:23-103 | the steps form a trace from the initial snapshot, the second visits `start`, the last is `Complete`, only `Visiting`/`Updated` lie in between, and the last snapshot is final (feasible distances, reached iff visited, predecessor edges); in the trace each `Updated` snapshot relaxes the first edge of the current vertex that still shortens a distance, and a `Visiting` or `Complete` snapshot comes only once every edge of the vertex expanded before is relaxed |
| Guarantees.UpdatedByEdge | internal/algorithm/dijkstra.go:77-89 | an `Updated(u)` snapshot after scanning `j` edges relaxes the `j`-th: it ends at `u`, shortens `u`'s distance to the new value and records the scanned explorations |
| Guarantees.UpdateIsRelaxesEdge | internal/algorithm/dijkstra.go:65-89 | every `Updated` snapshot in a trace is the snapshot of relaxing the first still-shortening edge of the current vertex |
| Guarantees.UpdateTransitionRelaxes | internal/algorithm/dijkstra.go:65-89 | the same, from the `Updated` case of `Transition` |
| Guarantees.RelaxesEdgeOf | internal/algorithm/dijkstra.go:77-89 | a snapshot with the new distance, predecessor and explorations of the `j`-th edge is exactly the relaxation of that edge |
| Guarantees.RelaxesSameEdge | internal/algorithm/dijkstra.go:65-89 | two relaxations of first still-shortening edges from the same snapshot are the same snapshot |
| Guarantees.UpdateDeterministic | internal/algorithm/dijkstra.go:65-89 | the `Updated` snapshot that may follow a snapshot is unique: no shortening edge is skipped |
| Guarantees.UpdateOnlyWhileScanning | internal/algorithm/dijkstra.go:65-91 | an `Updated` snapshot cannot follow one after which every edge of the current vertex is relaxed |
| Guarantees.UpdateChanges | internal/algorithm/dijkstra.go:77-89 | an `Updated(u)` snapshot lowers the distance of the unvisited `u` and changes no other distance and no visited mark |
| Guarantees.TransitionKeeps | internal/algorithm/dijkstra.go:46-100 | one snapshot to the next: visited marks stay, distances never grow, a visited vertex's distance is unchanged, and a vertex becomes visited only in its `Visiting` snapshot |
| Guarantees.VisitedMonotone | internal/algorithm/dijkstra.go:54 | once visited, a vertex is visited in every later snapshot |
| Guarantees.DistancesNonIncreasing | internal/algorithm/dijkstra.go:77-78 | a vertex's distance never increases along the steps |
| Guarantees.VisitedDistanceFrozen | internal/algorithm/dijkstra.go:50-54 | the distance of a visited vertex never changes again |
| Guarantees.VisitingMarks | internal/algorithm/dijkstra.go:54-62 | the `Visiting(v)` snapshot is the one that first shows `v` visited |
| Guarantees.VisitingOnce | internal/algorithm/dijkstra.go:50-62 | each vertex is reported `Visiting` at most once |
| Guarantees.VisitedWasReported | internal/algorithm/dijkstra.go:54-62 | a vertex shown visited was reported `Visiting` at or before that snapshot |
| Guarantees.ExploringGrows | internal/algorithm/dijkstra.go:64-89 | along consecutive `Updated` snapshots each exploration list is a proper prefix of the next |
| Guarantees.Unreachable | internal/algorithm/dijkstra.go:29-33 | a vertex left at `MaxInt32` has no predecessor and no `Visiting` snapshot |
| Guarantees.ShortestBound | internal/algorithm/dijkstra.go:77-80 | a final distance is at most the weight of every walk from `start` |
| Guarantees.PredecessorWalk | internal/algorithm/dijkstra.go:77-79 | following predecessors back from a reached vertex gives a walk from `start` weighing exactly its distance |
| Guarantees.ShortestPaths | internal/algorithm/dijkstra.go:23-103 | final distances are the minimum walk weights: no walk is lighter, and a reached vertex has a walk of exactly its distance |
| Cmd.ReconstructPath | cmd/main.go:199-213 | the path ends at the vertex, each element is the recorded predecessor of the next, it starts where the predecessor is missing or "", and a vertex without one yields `[vertex]` |
| Cmd.BackPathUnique | cmd/main.go:199-213 | at most one sequence satisfies the contract of `reconstructPath`, so it determines the result |
| Cmd.PredecessorPath | cmd/main.go:199-213 | the corrected loop stops only at a missing entry; same path shape otherwise |
| Cmd.ChainPathUnique | cmd/main.go:199-213 | the corrected path is unique |
| Cmd.ChainEndsStops | cmd/main.go:203-210 | a predecessor chain that ends also stops the loop as written |
| Cmd.ChainPathWalk | cmd/main.go:203-210 | over the engine's predecessor map a path to a reached vertex starts at `start`, visits reached vertices and follows half-edges weighing its end's distance |
| Cmd.PathRoundTrip | cmd/main.go:190 | on the final snapshot the corrected path to a reached vertex runs from `start` along graph edges summing to its distance |
| Cmd.BackPathIsChainPath | cmd/main.go:204-206 | without a vertex named "", the path as written is the corrected path |
| Cmd.ReconstructRoundTrip | cmd/main.go:190 | without a vertex named "", the path `printResults` prints runs from `start` along graph edges summing to the printed distance |
| Cmd.EmptyNameDistancesAre | internal/algorithm/dijkstra.go:23-103 | on A -1- "" -1- B every run from A ends with A:0, "":1, B:2 |
| Cmd.EmptyNameFinal | internal/algorithm/dijkstra.go:77-79 | on that graph the final predecessors are "" for B and A for "" |
| Cmd.EmptyNameCutsPath | cmd/main.go:204-206 | as written, the path to B (distance 2) is just `[B]` |
| Cmd.EmptyNameFullPath | cmd/main.go:199-213 | the corrected path to B is A, "", B |
| Cmd.FinalDistancesAre | internal/algorithm/dijkstra.go:23-103 | a feasible labelling, zero at `start`, attained by walks, is exactly the final distance map |
| Cmd.CreateSampleGraph | cmd/main.go:66-80 | a fresh graph made by the nine `AddEdge` calls in order |
| Cmd.SampleShape | cmd/main.go:66-80 | that graph has vertices A to F with exactly the adjacency lists the nine calls append, in order |
| Cmd.SampleFinal | cmd/main.go:31 | every run from A on the sample graph ends with A:0, B:7, C:9, D:20, E:20, F:11, F preceded by C and C by A |
| Cmd.RunSample | cmd/main.go:22-31 | the graph returned is the sample graph, the run is a trace from A on it ending `Complete` with those distances, and the path to F is A, C, F |
| Cmd.Report | cmd/main.go:185-194 | UNREACHABLE exactly when the distance is `MaxInt32`; otherwise the distance and the reconstructed path |
| Cmd.ReportDefined | cmd/main.go:190 | on a final snapshot every vertex's predecessor chain stops, so the report is defined |
| Cmd.UnreachableIffNoWalk | cmd/main.go:186-188 | UNREACHABLE is printed exactly when every walk from `start` weighs at least `MaxInt32` |
| Visualizer.VertexColorCases | internal/visualizer/dot.go:130-138 | gold exactly for the current vertex even if visited, light green exactly for other visited vertices, light blue exactly for the rest |
| Visualizer.FinalVertexColor | internal/visualizer/dot.go:134-137 | on a final snapshot a non-current vertex is light blue exactly when it was never reached |
| Visualizer.DistanceLabelRoundTrip | internal/visualizer/dot.go:140-145 | "∞" exactly for `MaxInt32`; any other label is a decimal that parses back to the distance |
| Visualizer.EdgeColor | internal/visualizer/dot.go:147-162 | orange-red for an explored edge, lime green for a predecessor-tree edge with both ends visited, black otherwise |
| Visualizer.EdgeWidth | internal/visualizer/dot.go:164-179 | 4, 3 and 2 for the same three cases |
| Visualizer.StyleSymmetric | internal/visualizer/dot.go:149-156 | colour and width do not depend on the direction an edge is named in |
| Visualizer.ColorWidthAgree | internal/visualizer/dot.go:147-179 | colour and width make the same three-way split: equal colours iff equal widths iff the same case |
| Visualizer.TreeEdgeRecorded | internal/visualizer/dot.go:155-156 | with no visited vertex named "", a tree edge joins a vertex and its recorded predecessor |
| Visualizer.FinalTreeEdge | internal/visualizer/dot.go:155-157 | on a final snapshot a tree edge joins a vertex to its predecessor along a graph edge weighing their distance difference |
| Visualizer.FinalNamesVisited | internal/visualizer/dot.go:156 | with no vertex named "", "" is never marked visited |
| Visualizer.EdgeKeySymmetric | internal/visualizer/dot.go:181-186 | `getEdgeKey(a, b) == getEdgeKey(b, a)` |
| Visualizer.EdgeKeyCollides | internal/visualizer/dot.go:181-186 | two different pairs, `a-b`–`c` and `a`–`b-c`, get the same key |
| Visualizer.PairKeyIff | internal/visualizer/dot.go:181-186 | the corrected key is equal exactly for the same unordered pair |
| Visualizer.DrawEdges | internal/visualizer/dot.go:49-63 | for any key, the lines are exactly `DrawAll` for the iteration order: every line is a graph edge, no two lines share a key, every edge's key is among the drawn ones |
| Visualizer.DrawAllNext | internal/visualizer/dot.go:50-51 | the lines after one more vertex are the earlier lines followed by the new lines of its edges |
| Visualizer.DrawFrom | internal/visualizer/dot.go:51-62 | the inner loop appends exactly `NewLines` of the edges out of one vertex, keeps the keys distinct and leaves every edge's key processed |
| Visualizer.NewLinesNext | internal/visualizer/dot.go:52-61 | one more edge adds its line exactly when its key was neither processed before nor drawn earlier in the loop |
| Visualizer.NewLinesKeys | internal/visualizer/dot.go:52-61 | with the keys processed before, the new lines cover the key of every edge out of the vertex |
| Visualizer.NewLinesFirst | internal/visualizer/dot.go:52-61 | a line is new exactly when it is an edge out of the vertex whose key was not processed and that is the first in the list with that key |
| Visualizer.DrawStep | internal/visualizer/dot.go:52-61 | drawing an edge with a new key keeps the inner loop's invariant one edge further |
| Visualizer.SkipStep | internal/visualizer/dot.go:52-55 | skipping an edge with a processed key keeps the inner loop's invariant one edge further |
| Visualizer.DrawFromDone | internal/visualizer/dot.go:51-62 | at the end of the inner loop the new lines are `NewLines` of all the edges and every edge's key is processed |
| Visualizer.DrawnKeysAppend | internal/visualizer/dot.go:56 | drawing a line adds exactly its key to `processedEdges` |
| Visualizer.GenerateEdgeLines | internal/visualizer/dot.go:49-63 | as written, the lines are `DrawAll` with `getEdgeKey`: no unordered pair drawn twice, lines are graph edges, keys distinct, every edge's key drawn |
| Visualizer.CollidingEdgeDropped | internal/visualizer/dot.go:52-56 | as written, the edges `a-b`–`c` and `a`–`b-c` are never both drawn |
| Visualizer.GenerateEdgeLinesByPair | internal/visualizer/dot.go:49-63 | with the corrected key, the lines are `DrawAll` with the pair key: exactly one line for each unordered pair of adjacent vertices |
| Visualizer.SortVertices | internal/visualizer/dot.go:80-87 | the swap loops leave the array ascending and a permutation of what it held |
| Visualizer.SettlePlace | internal/visualizer/dot.go:82-86 | one outer round puts the least remaining name in place `i`, as a permutation |
| Visualizer.CompareSwap | internal/visualizer/dot.go:83-85 | one inner step keeps the settled places and the minimum at place `i`, as a permutation |
| Visualizer.SwapSettles | internal/visualizer/dot.go:83-85 | swapping a smaller later name into place `i` keeps what is settled |
| Visualizer.TableOrder | internal/visualizer/dot.go:75-87 | the rows are the distance map's names, each once, in ascending order |
| Visualizer.AscendingUnique | internal/visualizer/dot.go:75-87 | two ascending arrangements of the same names are equal: row order does not depend on map iteration |
| Visualizer.RowCells | internal/visualizer/dot.go:95-115 | a row's background is the vertex colour with white for light blue; "-" iff the predecessor is missing, "" or named "-"; "Yes" iff visited |
| Text.LessTransitive | internal/visualizer/dot.go:83 | Go's string order is transitive |
| Text.LessTotal | internal/visualizer/dot.go:83 | of two different names one is smaller |
| Text.ParseNatToDecimal | internal/visualizer/dot.go:144 | the decimal of a natural number parses back to it |
| Text.ParseIntToDecimal | internal/visualizer/dot.go:144 | the decimal of an integer, with its sign, parses back to it |

## Left out

- internal/visualizer/media.go: it writes files, globs directories and runs `dot` and ImageMagick; that is I/O and foreign processes.
- `main`'s directory creation, frame generation and `printStepByStep`, and the text `printResults` prints: console and file output. `RunSample` and `Report` model the computation and the per-vertex decision.
- The order of `printResults`'s report lines (`sort.Strings`): only the per-vertex decision is modelled; the same sort for the table is modelled by `TableOrder`.
- The `" → "` join of `reconstructPath`: the model returns the sequence of names.
- The DOT and HTML text of `GenerateDOT` and `generateTable`, the vertex positions, and `fmt` formatting: presentation only. Colours, labels, edge styles, line deduplication and row order are modelled.
- The `Description` strings of `Step`: replaced by the `Event` tag (`Initial`, `Visiting(v)`, `Updated(u)`, `Complete`).
- `container/heap` is not part of this model; `Up` and `Down` follow its published sift algorithm. Which of several equal-distance entries comes out first is not pinned down; `ExtractMin` only promises a least one.
- Go map iteration order: `GetAllVertices`, `CopyMap` and `TableOrder` pick keys in an arbitrary order; the edge loop of `GenerateDOT` takes the order as a parameter `order`.
- Pointer identity of queue items: items are values in a sequence; a popped item's `Index` of -1 is returned, there is no other alias.
- `Graphs.Graph.GetNeighbors`: modelled, but it has no contract beyond its body (Go's zero-value read of the map); `Graphs.AddEdgeNeighbors` states what it returns after `AddEdge`.
- Algorithm.Dijkstra: requires non-negative weights and a graph built by `AddEdge` (symmetric); with a negative weight the Go loop still terminates, but the model says nothing about its output.
- Cmd.ReconstructPath: requires that the predecessor chain stops; on a cyclic map the Go loop never ends. `Cmd.ReportDefined` shows the engine's final maps always meet this.
- Cmd.Report: requires the same of a reachable vertex; `Cmd.ReportDefined` discharges it for final snapshots.
- Go's 64-bit `int`: integers are unbounded; a distance that would overflow needs weights near 2^63, and the engine never adds to `MaxInt32` itself.

## Findings

| source | as written | input that shows it | evidently intended | confidence | as-written member | corrected member |
|---|---|---|---|---|---|---|
| cmd/main.go:204-206 | the walk back stops at a predecessor named "", the same value Go uses for "no predecessor" | edges A–"" (1) and ""–B (1), start A: the final map records "" as B's predecessor, and the path to B (distance 2) is printed as just "B" | stop only when there is no entry, so the path is A → "" → B | low: a vertex named "" is unusual; not executed | Cmd.EmptyNameCutsPath | Cmd.EmptyNameFullPath |
| internal/visualizer/dot.go:181-186 | the edge key joins the two names with "-", so names containing "-" can collide | edges "a-b"–"c" and "a"–"b-c": both keys are "a-b-c", and the second edge is never drawn | one line per unordered pair of vertices | medium: any vertex name containing "-"; not executed | Visualizer.CollidingEdgeDropped | Visualizer.GenerateEdgeLinesByPair |
