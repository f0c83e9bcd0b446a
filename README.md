# FlipGraph in Dafny

FlipGraph is a drawing board for non-crossing spanning paths on a point set. A user draws nodes
and edges on a canvas. In EDIT mode anything may be drawn. In FLIP mode the path may only be
changed by edge flips: one edge is removed and another is added. Each flip must leave a spanning
path whose edges do not cross. The board keeps an undo/redo history and points out the nodes and
edges that keep the drawing from being a non-crossing spanning path. It also runs three
background jobs:

- the solver flips a path towards a canonical path that follows the convex layers of the points;
- the wrapper flips a path towards the "wrapping" of the point set, an angular sweep along those layers;
- the randomizer builds a random non-crossing spanning path.

This project models, in Dafny:

- the graph structure: nodes, lines, the adjacency matrix and the spanning-path test;
- the canvas state: history, edit operations, the diagnosis of problem nodes and edges, and the convex layers;
- the three jobs, as loops over that state.

It proves that the operations keep the graph well formed and keep every recorded graph well
formed. It also proves that each flip move keeps a spanning path, that undo and redo are inverse
to each other, and that the tests of the source mean what their names say.

Module layout (one file per module):

- `geometry.dfy`, module `Geometry`: `Line` equality and the orientation test `intersect`;
- `graph_model.dfy`, module `GraphModel`: the `Graph` value (nodes, lines, matrix) and its pure updates;
- `path_spec.dfy`, module `PathSpec`: degrees, reachability, the meaning of `is_spanning_path`, crossings;
- `path_order.dfy`, module `PathOrders`: spanning paths as orders of their nodes; the boundary swap;
- `path.dfy`, module `Paths`: the `Path` class of `GraphClass.py` with its mutating methods;
- `layers.dfy`, module `Layers`: convex-layer peeling (`compute_ch`) and layer lookup;
- `canvas.dfy`, module `Canvases`: the `Canvas` class: history, edits, problem detection;
- `solver.dfy`, module `Solvers`: the layer tests of `Solver.py` (`check_bound`, `check_layercross`);
- `random.dfy`, module `Randoms`: the random generator, an injected object;
- `solver_moves.dfy`, module `SolverMoves`: the flip moves of `boundary_alg` and `boundary_alg_alt`;
- `solver_run.dfy`, module `SolverRuns`: the specifications of the solver's steps and its record of steps;
- `solve_loop.dfy`, module `SolveLoop`: the `Solver` class and its loop `solve_to_canonical`;
- `wrap_order.dfy`, module `WrapOrders`: `node_partition`, `get_wrapping`, the line weight of `try_edge`;
- `wrap_moves.dfy`, module `WrapMoves`: the moves of `Wrapper.py` (`try_edge` … `wrap_path_step_first`);
- `wrapper.dfy`, module `Wrappers`: the `Wrapper` class and its loop `wrap_path`;
- `randomizer.dfy`, module `Randomizers`: the `Randomizer` class and its search `run`.

A graph is the value `Graph(nodes, lines, adj)`. `Valid` is the invariant every operation keeps:

- the matrix is square and 0/1;
- `adj[i][j] == 1` exactly when the line between nodes i and j is in the line list;
- node coordinates are distinct;
- lines are not duplicated;
- every line ends at node coordinates.

`SpanningSpec` is what `is_spanning_path` tests:

- two nodes of degree 1 and all others of degree 2;
- every node reachable from the first end.

`PathOrders.SpanningIsPath` and `PathOrders.PathOfSpanning` prove that this is exactly "the matrix
is a Hamiltonian path". `Healthy` adds that no two lines cross. The canvas of the source is
the `Canvas` class, and its `Path` is the `Path` class. Their fields are updated in place by
methods with `modifies` clauses. The history lists are modelled as a `History` value of the
current snapshot and the two stacks.

## Model

| member | source | states |
|---|---|---|
| Geometry.SameLineUnordered | GraphClass.py:140-141 | line equality ignores endpoint order, is symmetric and reflexive |
| Geometry.SameLineTransitive | GraphClass.py:140-141 | line equality is transitive, so it is an equivalence |
| Geometry.ClockwiseIsPositiveOrient | GraphClass.py:156-165 | the clockwise test is "the cross product is positive" |
| Geometry.OrientRotate | GraphClass.py:156-165 | rotating the three points keeps the orientation |
| Geometry.OrientSwap | GraphClass.py:156-165 | swapping the first two points negates the orientation |
| Geometry.ClockwiseRotate | GraphClass.py:156-165 | the clockwise test is invariant under rotation of its points |
| Geometry.IntersectSharedEndpoint | GraphClass.py:156-163 | lines that share an endpoint, and a line with itself, do not intersect |
| Geometry.IntersectSymmetric | GraphClass.py:156-165 | intersect(l, m) == intersect(m, l) |
| Geometry.IntersectReversedFirst | GraphClass.py:156-165 | reversing the first line does not change the answer when no endpoint of the second is collinear with it |
| Geometry.IntersectSameLine | GraphClass.py:156-165 | for points in general position, equal lines intersect the same lines (first argument) (see also GraphClass.py:140-141) |
| Geometry.IntersectSameLineSecond | GraphClass.py:156-165 | the same for the second argument (see also GraphClass.py:140-141) |
| Geometry.IntersectDependsOnStoredOrder | GraphClass.py:156-165 | for collinear points intersect depends on the stored endpoint order: two equal lines give different answers against the same line |
| GraphModel.IndexOf | GraphClass.py:374-378 | list.index: the position of the first occurrence |
| GraphModel.ZeroMatrix | GraphClass.py:225-232 | the constructor's n-by-n zero matrix |
| GraphModel.WhichNodes | GraphClass.py:297-299 | exactly the nodes at an endpoint of the line; distinct coordinates stay distinct |
| GraphModel.FirstMatch | GraphClass.py:354-357 | the first position of a line equal to l, or the length when there is none |
| GraphModel.FirstMatchFound | GraphClass.py:354-357 | the first match exists exactly when l is in the list |
| GraphModel.RemoveFirstShape | GraphClass.py:354-357 | list.remove deletes the first equal line, and nothing when none |
| GraphModel.RemoveFirstContents | GraphClass.py:354-357 | after remove the list holds exactly the other lines, one fewer when l was present |
| GraphModel.RemoveFirstPast | GraphClass.py:343-344 | removing a freshly appended line gives back the old list (see also GraphClass.py:354-357) |
| GraphModel.RemoveThenAppend | GraphClass.py:343-357 | remove then append keeps the set of lines |
| GraphModel.LineInAppend | GraphClass.py:343-344 | after append, `in` holds for the old lines and the new one |
| GraphModel.LineInRespectsSameLine | GraphClass.py:140-141 | `in` sees lines up to endpoint order |
| GraphModel.AdjNodesAt | GraphClass.py:280-282 | adj(v) lists exactly the nodes whose matrix entry is 1 |
| GraphModel.Symmetric | GraphClass.py:484-510 | the matrix of a valid graph is symmetric |
| GraphModel.ConnectValid | GraphClass.py:484-491 | connect keeps the graph valid, joins both directions, adds a line only when absent |
| GraphModel.DisconnectValid | GraphClass.py:503-510 | disconnect keeps the graph valid, separates both directions, removes a line only when present |
| GraphModel.ConnectDisconnectRoundTrip | GraphClass.py:484-510 | disconnect undoes a connect of an unconnected pair exactly |
| GraphModel.DisconnectConnectRoundTrip | GraphClass.py:484-510 | connect undoes a disconnect up to line order |
| GraphModel.DisconnectUnconnected | GraphClass.py:503-510 | disconnect of an unconnected pair changes nothing |
| GraphModel.ConnectConnected | GraphClass.py:484-491 | connect of a connected pair changes nothing |
| GraphModel.SameGraphRefl | GraphClass.py:515-517 | graph equality is reflexive |
| GraphModel.SameGraphSym | GraphClass.py:515-517 | graph equality is symmetric |
| GraphModel.SameGraphTrans | GraphClass.py:515-517 | graph equality is transitive |
| GraphModel.ConnectSameGraph | GraphClass.py:484-491 | connect respects graph equality |
| GraphModel.DisconnectSameGraph | GraphClass.py:503-510 | disconnect respects graph equality |
| GraphModel.EmptyGraphValid | GraphClass.py:225-232 | a new graph with distinct nodes and no lines is valid |
| GraphModel.AddNodeGrows | GraphClass.py:311-315 | addNode appends the node and a zero row and column, keeping the rest |
| GraphModel.AddNodeValid | GraphClass.py:311-315 | addNode of a node at a new coordinate keeps the graph valid |
| GraphModel.AddNodePresent | GraphClass.py:311-315 | addNode of a present node changes nothing |
| GraphModel.RemoveNodeKeeps | GraphClass.py:327-333 | removeNode drops the node, its row and its column, shifting the rest |
| GraphModel.RemoveNodeLockstep | GraphClass.py:327-333 | removeNode keeps the matrix in step with the lines |
| GraphModel.RemoveNodeDistinct | GraphClass.py:327-333 | removeNode keeps coordinates distinct |
| GraphModel.RemoveNodeValid | GraphClass.py:327-333 | removing an isolated node keeps the graph valid |
| PathSpec.RowSumCountsOnes | GraphClass.py:394-397 | deg, the row sum, counts the neighbours |
| PathSpec.DegIdx | GraphClass.py:597-599 | the indices of the nodes of a given degree, ascending, all of them |
| PathSpec.DegreeCountBound | GraphClass.py:597-599 | at most n nodes have degree 1 or 2, and when exactly n do, every node does |
| PathSpec.DegreeShapeDegrees | GraphClass.py:597-601 | the degree test leaves every degree 1 or 2, and two ordered ends |
| PathSpec.ReachableSelf | GraphClass.py:604-616 | a node reaches itself |
| PathSpec.ReachableStep | GraphClass.py:604-616 | reachability extends along a line |
| PathSpec.ClosedHoldsReachable | GraphClass.py:604-616 | a set closed under neighbours holds everything reachable |
| PathSpec.SpanningSpecFrame | GraphClass.py:596-616 | the spanning test reads only the nodes and the matrix |
| PathSpec.DistinctPositions | GraphClass.py:614-616 | n distinct positions below n cover them all, and no more than n fit |
| PathSpec.CoveringIsRange | GraphClass.py:614-616 | a list covering 0..n-1 is that range as a set |
| PathSpec.CrossingAt | GraphClass.py:466-472 | two intersecting lines make a crossing |
| PathSpec.HasCrossingWitness | GraphClass.py:466-472 | a line crossing another makes a crossing |
| PathSpec.HasCrossingSameLineSet | GraphClass.py:466-472 | in general position, crossing depends only on the set of lines |
| PathOrders.PathDegree | GraphClass.py:597-601 | in a path the ends have degree 1 and the rest degree 2 |
| PathOrders.PathEnds | GraphClass.py:597-601 | the degree-1 nodes of a path are exactly its two ends |
| PathOrders.PathInner | GraphClass.py:597-601 | a path has n - 2 nodes of degree 2 |
| PathOrders.PathOfSpanning | GraphClass.py:596-616 | every Hamiltonian path passes is_spanning_path |
| PathOrders.SpanningIsPath | GraphClass.py:596-616 | every graph passing is_spanning_path is a Hamiltonian path from its first end |
| PathOrders.RevIsPath | GraphClass.py:626-637 | a path read backwards is the same path |
| PathOrders.ReversalIsPath | Solver.py:102-116 | dropping line o[i-1]-o[i] and adding o[0]-o[i] gives the path with its first i nodes reversed |
| PathOrders.BoundarySwapSpans | Solver.py:102-116 | that swap keeps a spanning path |
| PathOrders.PathLineCount | GraphClass.py:596-616 | a path on n nodes has n - 1 lines |
| PathOrders.SpanningShape | GraphClass.py:596-616 | a spanning path has n - 1 lines and no node joined to itself |
| PathOrders.PathNoLoop | GraphClass.py:596-616 | a path joins no node to itself |
| Paths.NewNeighbours | GraphClass.py:608-612 | the inner loop of the search: the unexplored neighbours, distinct, none missed |
| Paths.Explore | GraphClass.py:604-616 | the search finds exactly the nodes reachable from the start, without repeats, in path order on a path |
| Paths.SearchOrder | GraphClass.py:626-637 | the explored order is a duplicate-free list of all nodes along lines |
| Paths.SearchEnds | GraphClass.py:626-637 | the search from one end finishes at the other |
| Paths.Path.constructor | GraphClass.py:541-544 | the path holds the given nodes, ends, no lines and a zero matrix |
| Paths.Path.Copy | GraphClass.py:541-544 | a copy holds the snapshot it was made from (deepcopy) |
| Paths.Path.AddLine | GraphClass.py:343-344 | the line is appended and nothing else changes |
| Paths.Path.DelLine | GraphClass.py:354-357 | the first equal line is removed and nothing else changes |
| Paths.Path.AddNode | GraphClass.py:311-315 | the graph becomes GraphModel.AddNode of the old one |
| Paths.Path.RemoveNode | GraphClass.py:327-333 | the graph becomes GraphModel.RemoveNode at the node's index |
| Paths.Path.Connect | GraphClass.py:484-491 | the graph becomes GraphModel.Connect of the two indices |
| Paths.Path.Disconnect | GraphClass.py:503-510 | the graph becomes GraphModel.Disconnect of the two indices |
| Paths.Path.ExpandPath | GraphClass.py:577-585 | the node is added, joined to the old end when there was one, and becomes the end |
| Paths.Path.IsSpanningPath | GraphClass.py:596-616 | the answer is SpanningSpec; the ends are set to the degree-1 nodes when the degrees fit |
| Paths.Path.PathNodeOrder | GraphClass.py:626-637 | every node once, from start to end, consecutive nodes joined |
| Paths.Path.Crosses | GraphClass.py:466-472 | exactly the lines crossing another line, empty exactly when none cross |
| Paths.CollectPair | GraphClass.py:468-471 | the inner step of crosses: both lines of a crossing pair are collected |
| Paths.CrossesResult | GraphClass.py:466-472 | a finished scan holds every crossing line, and is empty exactly when nothing crosses |
| Paths.CollectedHasCrossing | GraphClass.py:466-472 | a non-empty scan result means a crossing exists |
| Layers.ShuffledNoDup | Canvas.py:380-387 | a hull list with at most one copy of each node has no duplicates |
| Layers.CountAtMostOne | Canvas.py:380-387 | in a duplicate-free list every node occurs at most once |
| Layers.Without | Canvas.py:388 | the nodes not yet on a layer: exactly the others, never more |
| Layers.RingLayer | Canvas.py:380-387 | a hull of n >= 3 nodes becomes a ring: node k joined to k+1 and the last to the first; 2 nodes become one line |
| Layers.RingClose | Canvas.py:385-387 | closing the chain of the hull gives the ring |
| Layers.PeelOne | Canvas.py:366-388 | one layer: the rest itself when two or fewer nodes remain, else a ring of hull nodes drawn from the rest |
| Layers.ComputeLayers | Canvas.py:362-388 | compute_ch: at most n layers of ring shape that split the nodes, each node on exactly one layer |
| Layers.PeelingStep | Canvas.py:365-388 | each pass of the peeling keeps the split and shrinks what is left |
| Layers.NodeLayer | Solver.py:38-42 | the first layer holding the node, None exactly when no layer does (see also Wrapper.py:38-42) |
| Layers.LineLayer | Solver.py:60-64 | the first layer holding the line, None exactly when no layer does |
| Layers.NodeLayerUnique | Solver.py:38-42 | in a split, a node's layer is the one it is on |
| Canvases.Undone | Canvas.py:639-654 | undo moves one snapshot from the undo stack to the redo stack, or does nothing when there is none |
| Canvases.Redone | Canvas.py:659-674 | redo moves one snapshot back, or does nothing |
| Canvases.Rewound | Canvas.py:679-701 | to_start empties the undo stack |
| Canvases.FastForwarded | Canvas.py:706-728 | to_end empties the redo stack |
| Canvases.UndoThenRedo | Canvas.py:639-674 | redo undoes undo |
| Canvases.RedoThenUndo | Canvas.py:639-674 | undo undoes redo |
| Canvases.EditThenUndo | Canvas.py:639-654 | undo after an edit restores the old current graph and leaves the edited one to redo (see also Canvas.py:143-144) |
| Canvases.ToStartShape | Canvas.py:679-701 | to_start moves every snapshot to the redo stack and shows the oldest |
| Canvases.ToEndAfterUndo | Canvas.py:706-728 | to_end after undo is to_end (see also Canvas.py:639-654) |
| Canvases.ToStartThenToEnd | Canvas.py:679-728 | to_end after to_start returns to where to_end would go |
| Canvases.MaxNameBounds | Canvas.py:73-74 | the maximum name bounds every name and is taken by one node |
| Canvases.DegNodesAll | Canvas.py:458-472 | the nodes of a degree class are all nodes exactly when every degree is in the class |
| Canvases.ProblemNodesMembers | Canvas.py:458-472 | problem_node names a node exactly when not all degrees are 2 and the node is isolated, or of degree > 2 when there is one, else of degree 1 |
| Canvases.ProblemNodesEmpty | Canvas.py:458-472 | no problem node exactly when every node has degree 2 |
| Canvases.UndoValid | Canvas.py:639-654 | undo keeps every snapshot valid |
| Canvases.RedoValid | Canvas.py:659-674 | redo keeps every snapshot valid |
| Canvases.EditedValid | Canvas.py:143-144 | recording an edit keeps every snapshot valid |
| Canvases.ToStartValid | Canvas.py:679-701 | to_start keeps every snapshot valid |
| Canvases.ToEndValid | Canvas.py:706-728 | to_end keeps every snapshot valid |
| Canvases.ExpandedValid | Canvas.py:150-157 | drawing a node keeps the path valid, appends the node, joins it to the old end and keeps the edge difference (see also GraphClass.py:577-585) |
| Canvases.NonCrossingInGeneralPosition | GraphClass.py:466-472 | in general position "no crossing in some order of the lines" is "no crossing" |
| Canvases.RemovalFound | Canvas.py:487-495 | a removal that passes the test is a line whose removal gives a non-crossing spanning path |
| Canvases.DeleteNodeSpec | Canvas.py:279-305 | delete_node leaves a valid graph without the node and with the rest of the matrix |
| Canvases.TryRemoval | Canvas.py:489-494 | the trial restores the path; a success means removing that line fixes the path |
| Canvases.TryAddition | Canvas.py:501-505 | the trial restores the path; success exactly when adding that line gives a non-crossing spanning path |
| Canvases.RemovalsAt | Canvas.py:488-495 | every line reported at one node fixes the path when removed |
| Canvases.RemovalCandidates | Canvas.py:487-495 | every reported line fixes the path when removed |
| Canvases.AdditionsAt | Canvas.py:498-506 | at one node: every reported line fixes the path when added, and every line that would is reported |
| Canvases.AdditionCandidates | Canvas.py:497-506 | every reported line fixes the path when added, and none from a node of degree 1 or 2 is missed |
| Canvases.CoveredByDegree | Canvas.py:497-506 | when the report covers the lines from every node of degree 2 and then of degree 1, it covers every line whose addition fixes the path from each node of degree 1 or 2 |
| Canvases.CrossingLines | Canvas.py:508-510 | exactly the crossing lines |
| Canvases.ProblemEdges | Canvas.py:480-512 | the report for the edge difference: lines to remove (+1), lines to add (-1), crossing lines (0) |
| Canvases.FlipReady | Canvas.py:164 | true exactly when nothing crosses and the path spans |
| Canvases.Unlink | Canvas.py:289-297 | the node is cut from all its neighbours and nothing else changes |
| Canvases.Canvas.constructor | Canvas.py:36-67 | an empty path, empty history, EDIT mode, counters at zero |
| Canvases.Canvas.DrawNode | Canvas.py:141-178 | refused exactly in FLIP mode on a crossing or non-spanning path, and then nothing changes; raises exactly in EDIT mode when the path has nodes but its end is none of them: the old graph is pushed, the node added without a line, the counter left alone; otherwise the old graph is pushed, the node added at the end and the counter moved past the largest name; edge_diff is never recomputed (see also GraphClass.py:484-491 and GraphClass.py:577-585) |
| Canvases.Canvas.DrawEdge | Canvas.py:194-218 | accepted in EDIT mode or when the edge difference is below 1; the nodes are joined, the history grows and the edge difference is recounted |
| Canvases.Canvas.DeleteEdge | Canvas.py:234-265 | accepted in EDIT mode or when the edge difference is above -1; the nodes are separated and the history grows |
| Canvases.Canvas.DeleteNode | Canvas.py:279-305 | only in EDIT mode: the node and its lines go, the history grows, the layers are cleared |
| Canvases.Canvas.Reset | Canvas.py:437-450 | the old graph is pushed, an empty path takes its place, i_ is 0, and the mode switch that main_mode_change triggers leaves the canvas in EDIT mode (see also main.py:191-240); edge_diff is 0 after a reset from EDIT mode, where the switch is refused, and 1 after one from FLIP mode, where the switch ends in drawGraph on the empty path |
| Canvases.Canvas.LeaveFlip | main.py:226-240 | switch_flip_mode from FLIP mode on a path it lets go: EDIT mode, the history and the layers untouched, i_ the largest name (0 on an empty path) and edge_diff recounted by drawGraph |
| Canvases.SwitchedOnEmpty | main.py:191-240 | switch_flip_mode on an empty path ends in EDIT mode, from either mode |
| Canvases.Canvas.ComputeCh | Canvas.py:362-388 | the layers split the nodes into ring-shaped layers; nothing else changes |
| Canvases.Canvas.ProblemEdge | Canvas.py:480-512 | the report of ProblemEdges for the current edge difference |
| Canvases.Canvas.IdentifyProblems | Canvas.py:521-567 | in FLIP mode on an unhealthy path the problem nodes and edges are reported; otherwise they are kept |
| Canvases.Canvas.Diagnose | Canvas.py:521-567 | the problem nodes and the edge report, unconditionally |
| Canvases.Canvas.DrawGraph | Canvas.py:572-589 | the counter is the largest name, the edge difference is recounted and the diagnosis made |
| Canvases.Canvas.Undo | Canvas.py:639-654 | with an undo stack, the history becomes Undone of the old one and the counters are recomputed; otherwise nothing changes |
| Canvases.Canvas.Redo | Canvas.py:659-674 | with a redo stack, the history becomes Redone of the old one; otherwise nothing changes |
| Canvases.Canvas.ToStart | Canvas.py:679-701 | the history becomes Rewound of the old one |
| Canvases.Canvas.ToEnd | Canvas.py:706-728 | the history becomes FastForwarded of the old one |
| Canvases.Canvas.Grow | Canvas.py:142-157 | the accepting half of draw_node: the old graph is pushed, the layers dropped, the path grown at its end by a node named by the counter, and the counter moved past the largest name |
| Canvases.Canvas.Push | Canvas.py:142-143 | the live path goes onto the undo stack and the redo stack is emptied; nothing else changes |
| Canvases.Canvas.Recount | Canvas.py:204 | edge_diff becomes lines + 1 - nodes; nothing else changes |
| Canvases.Canvas.Renumber | Canvas.py:649-650 | on a non-empty path the counter is one past the largest name and edge_diff is lines + 1 - nodes |
| Canvases.Canvas.Redraw | Canvas.py:643-651 | the path stays the same up to line order, and unchanged in EDIT mode; the counter is 0 on an empty path and one past the largest name otherwise; edge_diff matches the path |
| Canvases.Canvas.PopUndo | Canvas.py:641-643 | the history becomes Undone of the old one |
| Canvases.Canvas.PopRedo | Canvas.py:661-663 | the history becomes Redone of the old one |
| Solvers.CheckBound | Solver.py:311-317 | one count per layer |
| Solvers.CheckBoundCounts | Solver.py:311-317 | entry k counts exactly the path lines whose first layer is k |
| Solvers.AllOneMoreIff | Solver.py:340-343 | the zip test holds exactly when every difference is 1 |
| Solvers.LayerLines | Solver.py:335-337 | the line count of every layer |
| Solvers.CheckIfBoundIff | Solver.py:334-343 | check_if_bound holds exactly when every layer misses one line of the path, or none for a last layer of one or two nodes |
| Solvers.EndLayers | Solver.py:366-369 | the layers of the first two nodes on a line |
| Solvers.CrossMatrixCounts | Solver.py:362-372 | entry (i, j) counts the off-layer lines between layers i and j, twice on the diagonal |
| Solvers.LayerCrossSymmetric | Solver.py:362-372 | the layer-crossing matrix is symmetric |
| Solvers.CrossPairsSound | Solver.py:364-371 | every recorded pair of layers comes from an off-layer line |
| Solvers.CrossPairsComplete | Solver.py:364-371 | every off-layer line's pair of layers is recorded |
| Solvers.CheckIfLayercrossIff | Solver.py:389-393 | check_if_layercross holds exactly when one line joins each pair of neighbouring layers and none joins any other pair |
| Randoms.Random.Pick | Solver.py:124-125 | shuffle-then-take-first picks some valid index |
| Randoms.Random.Between | Solver.py:455 | randint(lo, hi) lies between lo and hi inclusive |
| Randoms.Random.Shuffle | Randomizer.py:37 | shuffle returns a permutation |
| SolverMoves.ConnectLoopless | GraphClass.py:484-491 | connecting distinct nodes joins no node to itself |
| SolverMoves.DisconnectLoopless | GraphClass.py:503-510 | disconnect joins no node to itself |
| SolverMoves.HealthyPlanar | Solver.py:109 | a healthy path is planar up to line order |
| SolverMoves.PlanarIsHealthy | Solver.py:109 | in general position, planar up to line order is healthy |
| SolverMoves.SpanningLoopless | Canvas.py:204 | a spanning path has no loop and edge difference 0 |
| SolverMoves.LineEnds | GraphClass.py:297-299 | whichNodes of a line between two nodes finds exactly those two (see also Solver.py:126-127) |
| SolverMoves.CoordsCount | GraphClass.py:297-299 | distinct coordinates: one coordinate per node |
| SolverMoves.ReportHasTwoEnds | Solver.py:122-127 | every line in a report has two end nodes for whichNodes to find |
| SolverMoves.DeleteLine | Canvas.py:234-265 | delete_edge in FLIP mode: accepted exactly when the edge difference is above -1; then the line is gone |
| SolverMoves.DrawLine | Canvas.py:194-218 | draw_edge in FLIP mode: accepted exactly when the edge difference is below 1; then the line is there |
| SolverMoves.WalksReversed | Solver.py:98-99 | a walk read backwards is a walk |
| SolverMoves.OrderFrom | Solver.py:98-101 | path_node_order raises exactly when the path does not span; else every node once along lines, starting at the anchor |
| SolverMoves.AroundAt | Solver.py:92-96 | the ring neighbours of v on its layer not joined to v in the path |
| SolverMoves.AroundIsRing | Solver.py:92-96 | the same stated with the layer's matrix: neighbours on the ring, never v itself |
| SolverMoves.Unjoin | Canvas.py:234-265 | the two nodes are disconnected |
| SolverMoves.Join | Canvas.py:194-218 | the two nodes are connected |
| SolverMoves.EdgeDiffSteps | Canvas.py:204 | connect adds one to the edge difference when the line is new; disconnect subtracts one when it was there (see also Canvas.py:247) |
| SolverMoves.Accepts | Solver.py:109 | true exactly when the path is healthy |
| SolverMoves.FlipStep | Solver.py:105-116 | replacing x-y by v-y is kept exactly when the result is healthy; otherwise the path is restored |
| SolverMoves.Swap | Solver.py:105-107 | the path becomes the rerouted one |
| SolverMoves.Unswap | Solver.py:112-113 | the path returns to what it was, up to line order |
| SolverMoves.RingScan | Solver.py:102-116 | the scan stops at the first ring neighbour whose swap gives a healthy path, or restores the path when none does |
| SolverMoves.ScanStep | Solver.py:103-116 | one scan step: a kept swap is healthy, a rejected one restores the path |
| SolverMoves.TryAt | Solver.py:105-116 | a rejected swap in general position means the swap does not give a planar path |
| SolverMoves.EndSwapSpans | Solver.py:102-116 | swapping at an end of the path always keeps a spanning path |
| SolverMoves.Except | Solver.py:213-214 | the reported lines other than m |
| SolverMoves.AltTry | Solver.py:208-222 | boundary_alg_alt's try: a healthy result is kept; else a reported line other than the new one is removed, giving a planar path; else the path is restored |
| SolverMoves.Repair | Solver.py:212-222 | the repair keeps a spanning path or restores the old one |
| SolverMoves.PairStep | Solver.py:117-129 | the two-node layer: nothing happens when its nodes are joined; otherwise the path is kept or becomes another planar path |
| SolverMoves.PairDraw | Solver.py:121 | drawing the missing layer line raises the edge difference to 1 |
| SolverMoves.Report | Solver.py:122 | the lines problem_edge returns are EdgeReport of the path, and the path is the same up to line order |
| SolverMoves.RemoveReported | Solver.py:125-127 | at edge difference 1, deleting a reported line leaves a planar path, the old path less that line |
| SolverMoves.ReportedEnds | Solver.py:126 | a reported line runs between two different nodes; at edge difference 1 removing it fixes the path, at -1 adding it does |
| SolverMoves.RemovedLineEnds | Solver.py:126 | the two ends of a line whose removal fixes the path are different nodes |
| SolverMoves.PairUndraw | Solver.py:128-129 | with nothing reported, deleting the pair line just drawn restores the path up to line order |
| SolverMoves.DrawnNeverSpans | Solver.py:121-122 | a spanning path with one more line never spans |
| SolverMoves.AltScan | Solver.py:205-224 | the scan of boundary_alg_alt keeps the path or leaves another planar path |
| SolverMoves.AltStep | Solver.py:206-224 | one step: either healthy and stop, or still spanning and still open for the later neighbours |
| SolverMoves.AltKeeps | Solver.py:208-222 | the outcome of a try keeps a spanning path |
| SolverRuns.CanonicalIff | Solver.py:410-411 | valid_canonical is: healthy, one missing line per layer, one line between neighbouring layers and none between others |
| SolverRuns.ValidCanonical | Solver.py:410-411 | the test answers Canonical and changes nothing |
| SolverRuns.KeptTrans | Solver.py:430-466 | two steps that keep a spanning path keep it together |
| SolverRuns.AllocKept | Solver.py:152-166 | allocate_edge's outcome keeps the path |
| SolverRuns.AllocKeepsCount | Solver.py:152-166 | allocate_edge keeps the number of lines |
| SolverRuns.AllocateEdge | Solver.py:152-166 | from a spanning path the line is removed and a reported other line added, giving a planar path, or the path is restored |
| SolverRuns.OutcomeKeeps | Solver.py:152-166 | allocate_edge takes out only its own line: every other line of the path is still drawn |
| SolverRuns.AddBack | Solver.py:156-166 | after the removal, either another line is added or the line is put back |
| SolverRuns.AddOther | Solver.py:158-163 | adding a reported other line gives a planar path |
| SolverRuns.AddReported | Solver.py:160-163 | a reported line, once added, gives a planar path |
| SolverRuns.Readd | Solver.py:164-166 | putting the line back restores the path up to line order |
| SolverRuns.NonLayer | Solver.py:267 | exactly the path lines on no layer |
| SolverRuns.Joining | Solver.py:279-285 | exactly the listed lines joining layers i and j, in either order |
| SolverRuns.PossibleLines | Solver.py:279-285 | the loop collects exactly Joining |
| SolverRuns.JoiningNonEmpty | Solver.py:272-286 | when a pair of neighbouring layers has more than one line, some off-layer line joins them, so possible_line[0] exists |
| SolverRuns.SuperDiagonal | Solver.py:273 | diagonal(1): entry k is m[k][k+1] |
| SolverRuns.FirstAbove | Solver.py:274-277 | the first super-diagonal entry above x, or none |
| SolverRuns.FirstIndex | Solver.py:277 | the first position holding x, or none |
| SolverRuns.FirstPlace | Solver.py:278 | np.where(...)[0][0], [1][0]: the first place in row order holding x |
| SolverRuns.Crowded | Solver.py:272-278 | the pair of layers picked: none exactly when every neighbouring pair has at most one line, else a pair with more |
| SolverRuns.RingBoundary | Solver.py:83-116 | boundary_alg on a ring layer raises exactly when the path does not span; otherwise it keeps the path |
| SolverRuns.RingBoundaryAlt | Solver.py:184-224 | the same for boundary_alg_alt |
| SolverRuns.RecordedStepwise | Solver.py:132-133 | recording appends only a step that differs from the last, so no two consecutive steps are equal |
| SolverRuns.SameGraphFromLines | Solver.py:470-480 | rebuilding from the lines gives the same graph up to line order |
| SolverRuns.Rebuild | Solver.py:470-482 | the cancel rebuild keeps the graph up to line order and recounts the edge difference |
| SolverRuns.Relinked | Solver.py:474-479 | a new path with the nodes and ends, connected line by line, is the same graph |
| SolverRuns.Relink | Solver.py:478-479 | after k+1 lines are connected the path holds exactly those lines |
| SolveLoop.Solver.constructor | Solver.py:16-20 | a stopped solver on the canvas, whose record holds the canvas's path |
| SolveLoop.Solver.ChangeStop | Solver.py:497-498 | stopped is set and nothing else changes |
| SolveLoop.Solver.Look | Solver.py:435 | a poll of the stop flag: set when the cancel arrives at this poll |
| SolveLoop.Solver.Record | Solver.py:132-133 | the record becomes Recorded of the old one |
| SolveLoop.Solver.BoundaryAlg | Solver.py:83-133 | raises exactly when the anchor is missing, or on a ring layer the path does not span; otherwise the step is recorded and a spanning path kept |
| SolveLoop.Solver.BoundaryAlgAlt | Solver.py:184-241 | the same for boundary_alg_alt |
| SolveLoop.Solver.AllocateNonLayer | Solver.py:264-294 | fails exactly when no line is off the layers; otherwise the chosen line is reallocated and the step recorded |
| SolveLoop.Solver.AnchorStep | Solver.py:440-451 | one anchor: finish exactly when canonical or stopped; an AssertionError only skips the anchor |
| SolveLoop.Solver.Finished | Solver.py:440-441 | the two tests before each anchor |
| SolveLoop.Solver.Anchor | Solver.py:442-451 | one call of the boundary step on the anchor keeps a spanning path |
| SolveLoop.Solver.AnchorPass | Solver.py:439-451 | the loop over start and end keeps a spanning path and only appends to the record |
| SolveLoop.Solver.Round | Solver.py:452-461 | steps % 5 == rand triggers a reallocation; rand becomes 2 or 3 for 5 < steps < 50 or 50 < steps < 800, else 1 |
| SolveLoop.Solver.Reallocate | Solver.py:453-461 | the reallocation keeps a spanning path |
| SolveLoop.Solver.NextRand | Solver.py:453-461 | the new rand, as Round states |
| SolveLoop.Solver.Search | Solver.py:434-466 | the loop ends canonical, cancelled, or at step 1001, and keeps a spanning path |
| SolveLoop.Solver.SolveToCanonical | Solver.py:418-484 | no layers: nothing happens; Solved means canonical; ForcedStop means step 1001 and not canonical; Cancelled rebuilds the path; the record becomes the undo history |
| SolveLoop.Solver.Solve | Solver.py:429-484 | the same once the layers exist |
| SolveLoop.Solver.Finish | Solver.py:467-484 | the outcome is Solved exactly when canonical; the record is published |
| SolveLoop.Solver.Conclude | Solver.py:467-482 | Solved exactly when canonical; a cancel rebuilds the path as the same graph |
| SolveLoop.Solver.Publish | Solver.py:483-484 | last_graphs becomes the record and stopped is set |
| SolveLoop.AllocateOffLayers | Solver.py:267-294 | the line chosen is reallocated and a spanning path kept |
| SolveLoop.PickLine | Solver.py:267-285 | fails exactly when no line is off the layers; else the line is off the layers and joins the crowded pair when there is one and mode is not 1 |
| SolveLoop.AllocateLine | Solver.py:291 | the reallocation of the chosen line keeps a spanning path |
| SolveLoop.ChooseLine | Solver.py:267-287 | the choice described under PickLine |
| WrapOrders.OnLayer | Wrapper.py:378 | the nodes of the order on layer i, in order, without duplicates |
| WrapOrders.Oriented | Wrapper.py:373-375 | the path order, reversed when it does not start on the outer layer: the same nodes |
| WrapOrders.NodePartition | Wrapper.py:372-380 | one part per layer; a node is in part i exactly when its layer is i |
| WrapOrders.OnLayerInOrder | Wrapper.py:378 | each part keeps the relative order of the path |
| WrapOrders.PartitionInOrder | Wrapper.py:372-380 | every part is in the order of the oriented path |
| WrapOrders.OuterPartStartsPath | Wrapper.py:372-380 | when the path starts on the outer layer, the outer part starts with the path's first node |
| WrapOrders.WoundPermutes | Wrapper.py:74-80 | the angular loop keeps the placed prefix and places every other node exactly once |
| WrapOrders.WrappingPermutes | Wrapper.py:69-82 | the wrapping is a permutation of the path order with the same first two nodes |
| WrapOrders.Top | Wrapper.py:121-122 | the greatest line weight of the list, taken by some line |
| WrapOrders.Heaviest | Wrapper.py:123 | exactly the lines of the given weight |
| WrapOrders.HeaviestAreTop | Wrapper.py:118-123 | after the sort-and-filter some line is left, and every line left is of the greatest weight |
| WrapMoves.Choose | Wrapper.py:121-129 | the line chosen is of the greatest weight |
| WrapMoves.TryEdge | Wrapper.py:111-143 | a present line gives 0 and no change; else the line is drawn, and a heaviest other reported line is removed (1, planar path) or the drawing undone (0) |
| WrapMoves.Trim | Wrapper.py:115-139 | the draw-then-trim part of try_edge, as TryEdge states |
| WrapMoves.TrimHeaviest | Wrapper.py:121-132 | a heaviest reported line is removed and a planar path results |
| WrapMoves.TryDelEdge | Wrapper.py:172-203 | an absent line gives 0 and no change; else the line is removed, and a heaviest other reported line added (1, planar path) or the line restored (0) |
| WrapMoves.Refill | Wrapper.py:176-200 | the delete-then-refill part of try_del_edge |
| WrapMoves.Rejoin | Wrapper.py:198 | putting the line back restores the path up to line order |
| WrapMoves.AddHeaviest | Wrapper.py:182-193 | a heaviest reported line is added and a planar path results |
| WrapMoves.EdgeTriedKeeps | Wrapper.py:111-143 | try_edge keeps the path: 0 leaves the same graph, 1 a planar path holding the tried line |
| WrapMoves.DelTriedKeeps | Wrapper.py:172-203 | try_del_edge keeps the path: 0 leaves the same graph, 1 a planar path without the tried line |
| WrapMoves.DelTriedKeepsNeighbours | Wrapper.py:172-203 | try_del_edge leaves every other neighbour of the node joined to it |
| WrapMoves.TryAll | Wrapper.py:234-242 | 1 exactly when some node of the list was newly joined to current, giving a planar path; 0 leaves the same graph |
| WrapMoves.TryDelAll | Wrapper.py:273-281 | 1 exactly when some node of the list was cut from current, giving a planar path; 0 leaves the same graph |
| WrapMoves.EdgeAt | Wrapper.py:239-241 | one try of try_all |
| WrapMoves.DelEdgeAt | Wrapper.py:278-280 | one try of try_del_all |
| WrapMoves.KeptSpans | Wrapper.py:111-203 | a kept path still spans |
| WrapMoves.AdjOthers | GraphClass.py:280-282 | adj(v) has no duplicates, and each entry is another node joined to v |
| WrapMoves.TrimStart | Wrapper.py:344-348 | cutting the start's extra lines keeps a spanning path, and a planar one planar |
| WrapMoves.TryNode | Wrapper.py:312-354 | try_node keeps the path, and 1 means a planar path |
| WrapMoves.ShuffledNeighbours | Wrapper.py:314-315 | a shuffle of adj(node): each neighbour once |
| WrapMoves.NodeTry | Wrapper.py:316-353 | one neighbour: the path is kept; on 0 the node keeps its other neighbours |
| WrapMoves.Replace | Wrapper.py:319-340 | the line is cut and a heaviest reported line added (planar), or the line restored |
| WrapMoves.Settle | Wrapper.py:342-349 | after a successful try_all the start is trimmed and the path is planar |
| WrapMoves.OrderPath | GraphClass.py:626-637 | the path order from end to end along lines, each node once |
| WrapMoves.MovedTrans | Wrapper.py:641-693 | two moves make a move: wrap_path's steps compose |
| WrapMoves.StepTry | Wrapper.py:438-447 | one candidate of wrap_path_step keeps a spanning path |
| WrapMoves.AltStepTry | Wrapper.py:512-521 | one candidate of wrap_path_step_alt keeps a spanning path |
| WrapMoves.WrapPathStep | Wrapper.py:403-453 | wrap_path_step keeps a spanning path |
| WrapMoves.WrapPathStepAlt | Wrapper.py:475-527 | wrap_path_step_alt keeps a spanning path |
| WrapMoves.WrapPathCorrection | Wrapper.py:552-560 | 1 exactly when the start ends with degree 1; the path stays spanning |
| WrapMoves.DelLater | Wrapper.py:610-615 | del_later keeps a spanning path |
| WrapMoves.WrapPathStepFirst | Wrapper.py:574-587 | raises exactly when there are fewer than two layers, or the next part has more than two nodes and the outer part fewer than three; otherwise it keeps a spanning path |
| WrapMoves.FirstTargets | Wrapper.py:575-587 | the nodes tried are nodes of the graph, and the two lines tried are between different nodes |
| WrapMoves.FirstMoves | Wrapper.py:580-587 | the one or two tries keep a spanning path |
| WrapMoves.TraversalReversed | Wrapper.py:66-67 | a path order reversed is a path order |
| WrapMoves.Wind | Wrapper.py:69-80 | the loop computes the wrapping |
| WrapMoves.GetWrapping | Wrapper.py:63-82 | raises exactly when start is not an end of the path or not on the outer layer; otherwise the wrapping of the path order from start |
| Wrappers.OnOuter | Wrapper.py:631-634 | whether a node is on the outer layer: None exactly when the lookup raises |
| Wrappers.FirstDiff | Wrapper.py:646 | the first position where the orders differ |
| Wrappers.InStepHasEnds | Wrapper.py:636-639 | both orders start at the same outer node |
| Wrappers.InStepWrapped | Wrapper.py:695-697 | when the orders agree, the path is the wrapping of a path order |
| Wrappers.InStepDiff | Wrapper.py:646-653 | the first difference is past the start, and the node before it has not yet come in the old order |
| Wrappers.Align | Wrapper.py:638-639 | the old order, reversed when needed, starts where the new one does |
| Wrappers.OnSomeLayer | Wrapper.py:38-42 | on a split every node has a layer |
| Wrappers.Wrapper.constructor | Wrapper.py:17-20 | a stopped wrapper on the canvas |
| Wrappers.Wrapper.ChangeStop | Wrapper.py:728-729 | stopped is set |
| Wrappers.Wrapper.Look | Wrapper.py:645 | a poll: stopped is set when the cancel arrives at this poll |
| Wrappers.Wrapper.WrapPath | Wrapper.py:621-715 | no layers: nothing happens; NotSolved: neither end on the outer layer, no change; Wrapped: the path is a wrapping; Abandoned: after 100 steps or a cancel the path is rebuilt; every ending keeps a spanning path |
| Wrappers.Wrapper.WrapOnLayers | Wrapper.py:628-715 | the same once the layers exist |
| Wrappers.Wrapper.WrapFrom | Wrapper.py:635-715 | from an outer end: Wrapped, Abandoned, or an exception |
| Wrappers.Wrapper.Prepare | Wrapper.py:635-639 | raises exactly when the path does not span or start is not an outer end; else both orders start at start |
| Wrappers.Wrapper.Wind | Wrapper.py:640-715 | the loop and its conclusion keep a spanning path |
| Wrappers.Wrapper.Conclude | Wrapper.py:695-715 | Wrapped when the orders agree; otherwise the path is rebuilt; Stale exactly when the orders differ at position 0 (see also Wrapper.py:641-646) |
| Wrappers.Wrapper.Abandon | Wrapper.py:698-714 | the rebuild keeps the path |
| Wrappers.Wrapper.Rounds | Wrapper.py:641-693 | the loop ends with equal orders, at step 101, on a cancel, when neither end is on the outer layer, or when the orders differ at position 0; the step count never passes 101, so at most 100 rounds run; every ending keeps a spanning path and aligned orders |
| Wrappers.OutOfStepDiff | Wrapper.py:638-646 | orders that start at different nodes differ, and the first difference is at position 0 |
| Wrappers.Wrapper.Turn | Wrapper.py:642-677 | one pass of the loop body: the count goes up by one and round 101 runs nothing; a cancel halts it, orders that differ at position 0 stop it, otherwise one round keeps a spanning path, realigns the orders and makes the moves of Schedule for its count |
| Wrappers.Wrapper.Round | Wrapper.py:642-677 | one round keeps a spanning path and realigns the orders; unless the first-layer step raised, the moves it made are Schedule of its count |
| Wrappers.Wrapper.Advance | Wrapper.py:646-655 | the moves for the first difference keep a spanning path; they are Schedule of the count, or the first-layer step alone when it raised |
| Wrappers.ScheduleParity | Wrapper.py:648-655 | the first-layer step runs exactly when the node before the first difference is on the outer layer; wrap_path_step runs exactly on even rounds and wrap_path_step_alt exactly on odd ones; del_later runs exactly on every tenth round, always after wrap_path_step; at most three moves per round |
| Wrappers.Wrapper.Realign | Wrapper.py:656-677 | new orders from an outer end, or the corrections when no end is outer |
| Randomizers.Checked | GraphClass.py:596-601 | the is_spanning_path call of line 46 keeps the graph |
| Randomizers.SeedGrowing | Randomizer.py:42 | the one-node seed path starts the growth |
| Randomizers.FreshCoord | Randomizer.py:43-45 | each node added has a new coordinate |
| Randomizers.Grown | Randomizer.py:43-47 | the loop adds the nodes in order and stops at the first crossing or non-spanning sample |
| Randomizers.SucceedsShape | Randomizer.py:62 | a sample that passes is a valid, non-crossing spanning path on exactly the shuffled nodes |
| Randomizers.GrownSettled | Randomizer.py:43-47 | a non-crossing sample is unchanged by the check |
| Randomizers.SeedUnchecked | Randomizer.py:42 | the seed alone never spans |
| Randomizers.SampleSettled | Randomizer.py:41-47 | the same for the sample from the seed |
| Randomizers.OneNodeFails | Randomizer.py:62 | a single node never passes |
| Randomizers.DistinctTail | Randomizer.py:43-45 | in distinct nodes the head's coordinate is not in the tail |
| Randomizers.PermutedDistinct | Randomizer.py:37 | a shuffle keeps coordinates distinct |
| Randomizers.ShuffleOne | Randomizer.py:37 | a shuffle of one node is that node |
| Randomizers.WhichCount | GraphClass.py:297-299 | whichNodes finds one node per endpoint present, one for a loop |
| Randomizers.WhichPair | Randomizer.py:56-57 | whichNodes of a non-loop line finds its two ends |
| Randomizers.PointwiseLineIn | Randomizer.py:55-57 | lines equal one by one give the same membership |
| Randomizers.PointwiseSame | Randomizer.py:49-57 | the rebuilt graph is the same graph |
| Randomizers.PointwiseSnoc | Randomizer.py:55-57 | one more reconnected line keeps the lists equal one by one |
| Randomizers.LoopFreeStep | Randomizer.py:55-57 | no loop so far and none at line k is no loop through k |
| Randomizers.ReconnectJoin | Randomizer.py:56-57 | connecting the k-th line's ends adds exactly that line |
| Randomizers.Reconnected | Randomizer.py:54-57 | the rebuild raises exactly when some line is a loop; otherwise it reproduces the lines one by one |
| Randomizers.ShuffleLive | Randomizer.py:26-37 | as written: shuffling the live node list permutes the nodes and leaves the lines and matrix in the old order |
| Randomizers.ThreePathValid | Randomizer.py:37 | the three-node example path is valid |
| Randomizers.ThreePathLines | Randomizer.py:37 | its lines and the joined entry |
| Randomizers.ShuffledLiveCorrupt | Randomizer.py:26-37 | as written: after the live shuffle the matrix no longer matches the lines |
| Randomizers.RandomizedValid | Randomizer.py:68-69 | installing the result keeps every snapshot valid |
| Randomizers.RandomizedThenUndo | Randomizer.py:68-69 | undo after a randomization returns the old graph and keeps the result to redo (see also Canvas.py:639-654) |
| Randomizers.ReplacedValid | Randomizer.py:54-58 | replacing the current graph with a valid one keeps every snapshot valid |
| Randomizers.Judge | Randomizer.py:62 | the test passes exactly when all nodes were added and the result is a non-crossing spanning path |
| Randomizers.Sample | Randomizer.py:41-47 | a fresh path grown from the shuffled nodes |
| Randomizers.Randomizer.constructor | Randomizer.py:16-19 | a stopped randomizer on the canvas |
| Randomizers.Randomizer.ChangeStop | Randomizer.py:78-79 | stopped is set |
| Randomizers.Randomizer.Look | Randomizer.py:48 | a poll: stopped is set when the cancel arrives at this poll |
| Randomizers.Randomizer.Install | Randomizer.py:67-70 | the old graph is pushed and a copy of the sample shown |
| Randomizers.Randomizer.Rebuild | Randomizer.py:48-61 | raises exactly when a line is a loop; otherwise the same graph, rebuilt |
| Randomizers.Randomizer.Attempt | Randomizer.py:37-61 | one sample and one poll |
| Randomizers.Randomizer.Finish | Randomizer.py:67-72 | a late cancel drops the result; otherwise it is installed |
| Randomizers.Randomizer.Run | Randomizer.py:25-72 | empty: nothing happens; Done: a passing sample on a permutation of the nodes is installed and the old graph pushed; a cancel rebuilds the graph, raising exactly when a line is a loop; a one-node path never succeeds; a run cut off by fuel polled the stop flag at least fuel times and saw no cancel |
| Randomizers.Randomizer.Search | Randomizer.py:35-66 | the while-True loop, as Run states for a non-empty node list; with the skip as written (heed false) a one-node list polls the stop flag at most once, so a later cancel is never seen |
| Randomizers.Randomizer.Round | Randomizer.py:36-66 | one pass: an ordering skipped or failed is recorded as failing and nothing changes; otherwise the sample is installed, dropped on a late cancel, or the graph rebuilt |
| Randomizers.Randomizer.Skipped | Randomizer.py:38-39 | as written (heed false) a skipped ordering polls nothing; corrected (heed true) it polls the stop flag and rebuilds the graph on a cancel |

## Left out

- Canvases.Canvas.DrawNode: a click on the coordinate of an existing node is not modelled. The source has no hit test (Canvas.py:786-788), so addNode appends a second node at the same point and the path may gain the zero-length line from that point to itself. The model identifies nodes and lines by their coordinates, so its `Valid` keeps coordinates distinct, and DrawNode requires a fresh point.
- Wrappers.Wrapper.Rounds: the loop stops (outcome Stale) once the two orders start at different nodes. The source goes on with i = 0 (Wrapper.py:646-647): it reads `new_path[-1]`, the last node, and its moves may then call try_edge on a node and itself, which can draw a loop line. The claims that WrapPath keeps the path (Moved, Kept) cover the run up to that point only.
- WrapOrders.Wrapping: the angular sort of get_wrapping is a parameter `arrange`. Its `ArrangeSpec` assumes only that it returns a permutation of its input, not the angular order itself.
- WrapMoves: the angular sort of the aiming helpers is a parameter `aim`. Its `AimSpec` assumes only that every node it returns was in its input: neither a permutation nor the angular order.
- Layers: the convex hull of compute_ch is a parameter (`HullSpec`): a hull of at least three points is a subset of them that forms a ring.
- Node names are `int`. The source stores `str(i_)` and converts it back with `int()` wherever it compares names.
- The stop flag of the three jobs is read through an oracle `cancelAt(k)`: whether a cancel has arrived by the k-th poll. The race between a cancel from the window and the job setting `stopped = False` at its start is not modelled.
- Randomizers.Randomizer.Run: the `while True` loop of run takes a `fuel` bound. A run that uses it up ends with the outcome Unfinished, which the source never reaches. The loops of solve_to_canonical and wrap_path stop at their own step limits and need no bound.
- `shuffle`, `random.choice` and `random.randint` are calls on an injected `Random` object whose results are arbitrary (module `Randoms`).
- The `ordered=False` branch of try_all and try_del_all, which shuffles the candidate nodes, is not modelled. No caller in Wrapper.py takes it.
- The `layercross` list of solve_to_canonical (Solver.py:428-429, Solver.py:466) is only appended to and never read, so it is left out.
- The jobs' emitted signals and every message, print, painting, pixmap and button state are left out. Only their effect on the canvas state is modelled.
- The Qt threads (`run()` as a QRunnable slot, Thread, WaitBox) are left out. Each job is a method that runs to completion on the canvas.
- Graph equality (`Graph.__eq__`, used by the solver's step record) is modelled as `SameStep`, as the source compares: the same nodes and the same lines, each counted as often, with a line told apart by its stored endpoint order, and the matrix not looked at.
- `SameGraph` is not `Graph.__eq__`. It is what a tentative change and its undo leave: the same node list, the same matrix, and the same lines up to order and up to endpoint order.
- The solver's moves assume FLIP mode and a path without loop lines (`SolverMoves.Ready`), which is how the window starts them.
- Canvases.AdditionCandidates: at edge_diff -1 problem_edge tries only nodes of degree 2 and 1 (Canvas.py:499). A line whose addition fixes the path from a node of degree 0 is not reported, as in the source: two nodes with no lines are such a case.
- Canvas.flip (Canvas.py:318-359), the deprecated mouse flip, is not modelled.
- Saving and loading a graph, mouse handling, resizing, and `Node.dist`, `Line.dist` and the angle helpers outside the sorting parameters are not modelled.

## Findings

| source | as written | input that shows it | evidently intended | confidence | as-written member | corrected member |
|---|---|---|---|---|---|---|
| Randomizer.py:37 | `nodelist` is the live node list that getNodes returns (Randomizer.py:26, GraphClass.py:242-243), and `shuffle(nodelist)` reorders it in place, but not the path's matrix. On success that live path is pushed onto the undo stack as it is (Randomizer.py:68; modelled by Randomizers.ShuffleLive), so undo brings back a path whose matrix no longer matches its lines. | nodes a = (0,0), b = (1,0), c = (1,1) joined as the path a-b-c, shuffled to [b, a, c]: the matrix still joins positions 1 and 2, now a and c, and no line joins a and c | shuffle a copy of the node list and leave the path alone until a result is installed | not executed | Randomizers.ShuffledLiveCorrupt | Randomizers.Randomizer.Run |
| Randomizer.py:35-39 | an ordering already tried is skipped with `continue` before the stop flag is read (Randomizer.py:48) | a one-node path: its first sample fails (a single node is not a spanning path), so every later shuffle is in `past_nodelist` and the loop spins without reading the stop flag, and a cancel is never seen (Randomizers.OneNodeFails; with heed off, Randomizers.Randomizer.Skipped does not look) | a skipped ordering still reads the stop flag, so a cancel ends the search | not executed | Randomizers.Randomizer.Search | Randomizers.Randomizer.Run |
