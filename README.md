# Graph-Driven Routing System — a verified Dafny model

This project models the routing core of the Graph-Driven Routing system in Dafny and proves
properties of that model. The system is a road-network service written in C++, in three
generations, and graded by a Python reference implementation.

A road network has:
- nodes with coordinates and point-of-interest tags;
- edges with an id, endpoints, a length, an average time, an optional 96-slot speed profile,
  a road type and a one-way flag.

The C++ side covers:
- **Phase 1**: the mutable graph store (`removeEdge`, `modifyEdge`, `nearestNodeByEuclid`),
  constrained Dijkstra in distance or time mode, the time-of-day traversal cost, and k-nearest
  points of interest by Euclidean and by network distance;
- **Phase 2**: a second graph store (with `removeEdgeBetween` and a different `modifyEdge`),
  a distance-only Dijkstra, Yen's k-shortest paths, an overlap-penalty heuristic for diverse
  paths, and a time-budgeted weighted A* batch;
- **Phase 3**: delivery routing over a precomputed travel-time table; this covers route
  validation, a greedy builder, a 2-opt improver, clustering of orders over drivers, the
  schedule and the total-delivery-time metric, and the precompute step that builds the table.

The Python autograder re-implements some of this and checks answers:
- `graph.py`: the autograder's edge and graph, patching, cross time along a speed profile, path
  validation and shortest-path verdicts;
- `solvers.py`: the reference Dijkstra, nearest node, k-NN and Yen, and the
  update-query handlers;
- `phase2.py`: the k-shortest-path length comparison and the overlap penalty;
- `phase3.py`: the delivery-assignment verifier;
- `utils.py`: path length, a distance-only Dijkstra, graph loading and the processing-time sum.

## How the model is organised

Each source file becomes one module, plus a few shared ones:

| module (file) | models |
|---|---|
| `Common` (common.dfy) | node, edge and patch records, extended distances `Ext` (`Inf` or `Fin(r)`), the 1e18 sentinel, the nearest-node scan |
| `Walks` (walks.dfy) | the network seen by a search: per node, a sequence of arcs, each with a head, a cost and an "allowed" flag; walks, routes and shortest-route predicates |
| `Engine` (engine.dfy) | the one label-setting Dijkstra loop that every Dijkstra of the system instantiates, together with its optimality proof and parent-map path reconstruction |
| `Sorting`, `RealArith` | an insertion sort by key with permutation proofs, and small lemmas on real arithmetic |
| `EdgeStore` (store.dfy) | the adjacency / `edge_by_id` / `removed_edges` store shared by both C++ graph generations, and its consistency invariant |
| `CppCost` (cpp_cost.dfy) | `compute_time_with_profile` |
| `Phase1Graph`, `Phase1Algorithms` | Phase-1 `graph.cpp` (class `Graph`) and `algorithms.cpp` |
| `Phase2Graph`, `Phase2Algorithms` | Phase-2 `graph.cpp` (class `Graph`) and `algorithms.cpp` |
| `Overlap`, `Yen`, `Heuristic` | Phase-2 `kshortest.cpp` |
| `Approx` | Phase-2 `approx.cpp` |
| `Delivery`, `Precompute` | Phase-3 `delivery.cpp` and `precompute.cpp` |
| `GraderEdge`, `GraderGraph` | `autograder/graph.py` (class `PyGraph`) |
| `GraderSolvers`, `GraderYen` | `autograder/solvers.py` |
| `GraderPhase2`, `GraderPhase3`, `GraderUtils` | `autograder/phase2.py`, `phase3.py`, `utils.py` |

The model keeps the code's own form:
- Algorithms that loop over mutable state are Dafny methods with loop invariants.
- Each method is proved against a specification function, or against the shortest-route and
  no-route predicates of `Walks`.
- Both C++ graphs are classes. Their fields are reassigned by `RemoveEdge`, `ModifyEdge` and
  the other operations, and each operation is proved equal to a pure transition function on a
  `Store` value. The lemmas about those functions carry the properties: the consistency
  invariant is kept, an operation fails exactly in the stated cases, nothing else changes.

Modelling conventions:
- **Distances and priority queues.** Distances are `real`, extended with `Inf`. A priority
  queue is the set or multiset of its `(key, node)` entries. A pop takes the
  lexicographically least entry, as `std::priority_queue<pair, greater>` and `heapq` on tuples
  both do.
- **Square roots.** Euclidean distance is replaced by squared distance, which gives the same
  ranking. The 1e18 bound becomes 1e36 on the squared scale.
- **Unordered-map iteration order.** This order is unspecified in the code, so the model
  leaves it unspecified too. Scans pick an arbitrary remaining key, and the proofs hold for
  every order.
- **External inputs.** The wall clock in `approx.cpp` is an input sequence of readings. The
  sector and zone angle arithmetic of `balanced_cluster` is an input function.

## Model

| member | source | states |
|---|---|---|
| Common.Reversed | DSA_project/Phase-1/graph.cpp:46-50 | the reverse copy of a two-way edge has its endpoints swapped, keeps the id, and swapping back gives the original edge |
| Common.WithoutId | DSA_project/Phase-1/graph.cpp:66-68 | erasing the entries with an id keeps exactly the entries with another id and never lengthens the vector |
| Common.ToSet | DSA_project/Phase-1/algorithms.cpp:52-53 | the forbidden-node and forbidden-road-type sets hold exactly the listed ids and types |
| Common.Lower | DSA_project/Phase-1/algorithms.cpp:63-64 | the normalised mode has the same length and is lower-cased character by character |
| Common.SqDist | DSA_project/Phase-1/graph.cpp:6-10 | the squared Euclidean distance that replaces `euclid_dist` is non-negative (it ranks nodes as the square root does) |
| Common.ScanNearest | DSA_project/Phase-1/graph.cpp:129-137 | the best-so-far scan under strict `<`, started at the bound, yields nothing iff no node lies strictly within the bound, otherwise a node within it of least distance, for every iteration order |
| CppCost.SlotOf | DSA_project/Phase-1/algorithms.cpp:15 | for a non-negative clock the slot index `floor(t/15) % 96` lies in [0, 96) |
| CppCost.SlotElapsed | DSA_project/Phase-1/algorithms.cpp:16 | `fmod(t, 15)` lies in [0, 15) |
| CppCost.SlotSpeed | DSA_project/Phase-1/algorithms.cpp:19-24 | the profile speed, replaced by `length / average_time` when it is at most 1e-6, is positive for an edge of positive length |
| CppCost.SlotDrive | DSA_project/Phase-1/algorithms.cpp:15-26 | one slot step computes the minutes left in the slot, the speed used and the metres possible in the slot |
| CppCost.Travel | DSA_project/Phase-1/algorithms.cpp:14-38 | the slot loop as a terminating function: non-negative minutes, zero once at most 1e-6 metres remain |
| CppCost.SlotDecreases | DSA_project/Phase-1/algorithms.cpp:33-37 | a slot that does not finish the edge lowers the loop's termination measure |
| CppCost.Decompose | DSA_project/Phase-1/algorithms.cpp:15-16 | a clock reading `15k + off` lies in slot `k % 96`, `off` minutes in |
| CppCost.TravelCovers | DSA_project/Phase-1/algorithms.cpp:14-38 | the minutes the loop spends, driven at the slowest slot speed, cover at most the distance, and at the fastest at least the distance |
| CppCost.ComputeTimeWithProfile | DSA_project/Phase-1/algorithms.cpp:5-41 | the loop returns `TimeWithProfile` (the average time without a profile, else the slot function in seconds) |
| CppCost.DriveSlot | DSA_project/Phase-1/algorithms.cpp:14-38 | one pass of the slot loop: afterwards the clock again reads `15k + off` with `off` in [0, 15), the minutes added to the total are exactly those the slot function loses, and the termination measure drops |
| CppCost.TimeWithProfileSpec | DSA_project/Phase-1/algorithms.cpp:7-8 | the average time without a profile; otherwise non-negative seconds, zero for an edge of at most 1e-6 metres, bracketed by the slowest and fastest slot speeds |
| Engine.PopMin | DSA_project/Phase-1/algorithms.cpp:81 | `pq.top()` of a min-queue of `(distance, node)` pairs is the lexicographically least entry |
| Engine.ArcCost | DSA_project/Phase-1/algorithms.cpp:90-99 | the weight of an entry is its length in distance mode, and in time mode `compute_time_with_profile` at `dist[u]/60` or the average time when there is no profile |
| Engine.Search | DSA_project/Phase-1/algorithms.cpp:70-107 | the label-setting loop (stale entries skipped, optional break at the target, relaxation under strict `<`) leaves a distance map over the nodes and a parent tree whose walks attain each distance; the target (or, without one, every node) gets a distance no walk through the nodes beats, and with an infinite initial value every reachable node is finite |
| Engine.TreeWalk | DSA_project/Phase-1/algorithms.cpp:101-104 | every node in the parent tree has a walk from the source through the nodes, ending at it, whose arrival time is its distance |
| Engine.TreePath | DSA_project/Phase-1/algorithms.cpp:112-119 | the node sequence of that walk starts at the source and ends at the node |
| Engine.TreePathSimple | DSA_project/Phase-1/algorithms.cpp:112-119 | a reconstructed path never repeats a node |
| Engine.TracePath | DSA_project/Phase-1/algorithms.cpp:112-119 | following `parent` from the target until the source and reversing yields the tree path |
| Engine.TraceByPrev | DSA_project/autograder/solvers.py:76-84 | following `prev` until a node without a predecessor and reversing yields the tree path |
| Engine.OptimalExact | DSA_project/Phase-2/algorithms.cpp:21-38 | with an infinite initial value and FIFO crossing costs, an optimal distance is exactly the least arrival over all routes, attained by one, and infinite iff there is no route |
| EdgeStore.WithId | DSA_project/Phase-1/graph.cpp:67-68 | the entries carrying an id, in order: exactly the entries with that id |
| EdgeStore.WithIdAppend | DSA_project/Phase-1/graph.cpp:122-123 | filtering by id distributes over appending entries |
| EdgeStore.Attach | DSA_project/Phase-1/graph.cpp:122-123 | attaching an edge keys `u`, and `v` when it is two-way |
| EdgeStore.AttachAt | DSA_project/Phase-1/graph.cpp:122-123 | attaching appends the forward entry at `u` and, for a two-way edge, the reverse entry at `v`; every other list is unchanged |
| EdgeStore.DetachAt | DSA_project/Phase-1/graph.cpp:66-73 | detaching an id erases its entries from `adj[u]` (and `adj[v]` when both ends are pruned) and leaves every other list as it was |
| EdgeStore.DetachFacts | DSA_project/Phase-1/graph.cpp:65-74 | after detaching a live id no entry carries it and every entry with another id is kept |
| EdgeStore.LoadIndexKeys | DSA_project/Phase-1/graph.cpp:51 | the loaded `edge_by_id` files every record under its own id and holds exactly the records' ids |
| EdgeStore.LoadOk | DSA_project/Phase-1/graph.cpp:45-51 | loading records with distinct ids yields adjacency entries that agree with `edge_by_id`: each entry is the forward or the reverse copy of its indexed edge, and each live edge has its entries |
| EdgeStore.LiveEntries | DSA_project/Phase-1/graph.cpp:45-50 | in a consistent store a live edge has its forward entry at `u`, and its reverse entry at `v` exactly when it is two-way (or a loop) |
| EdgeStore.AttachOk | DSA_project/Phase-1/graph.cpp:122-124 | attaching an edge whose id has no entries and indexing it keeps adjacency and index in agreement |
| EdgeStore.DropOk | DSA_project/Phase-1/graph.cpp:65-74 | detaching a live id and dropping it from the index keeps adjacency and index in agreement and leaves no entry with the id |
| EdgeStore.ReplaceExact | DSA_project/Phase-1/graph.cpp:122-123 | after attaching an edge to a store without entries for its id, the id's entries are exactly the new ones: a modify replaces rather than duplicates |
| EdgeStore.ReplaceLiveAt | DSA_project/Phase-2/graph.cpp:95-109 | erasing a live edge's entries and attaching the patched edge keeps the store consistent, gives the id exactly the patched entries and keeps every other entry |
| Phase1Graph.Graph.LoadFromJson | DSA_project/Phase-1/graph.cpp:12-53 | the graph's node table is the parsed nodes, `adj` and `edge_by_id` are built from the edge records in order, and `removed_edges` is not cleared |
| Phase1Graph.LoadSpec | DSA_project/Phase-1/graph.cpp:34-52 | a load of records with distinct ids (and no tombstoned id) gives a consistent store whose `edge_by_id` holds each record |
| Phase1Graph.LoadLast | DSA_project/Phase-1/graph.cpp:51 | with distinct ids, `edge_by_id[id]` is that id's record |
| Phase1Graph.Graph.RemoveEdge | DSA_project/Phase-1/graph.cpp:57-76 | the method performs the `Remove` transition on the store and leaves the nodes alone |
| Phase1Graph.RemoveSpec | DSA_project/Phase-1/graph.cpp:57-76 | a remove succeeds iff the id is live; a failure changes nothing; a success tombstones the indexed edge, drops it from `edge_by_id`, erases exactly the entries with that id, keeps the store consistent, and a second remove fails |
| Phase1Graph.PatchEdgeSpec | DSA_project/Phase-1/graph.cpp:102-120 | a patch is rejected iff it sets a length or an average time at most 0; otherwise `length`, `average_time`, `speed_profile` and `road_type` are taken from the patch when present and everything else (including `oneway`) is kept |
| Phase1Graph.Graph.ModifyEdge | DSA_project/Phase-1/graph.cpp:78-127 | the method performs the as-written `ModifyAsWritten` transition, including the erasures done before a patch is rejected |
| Phase1Graph.ModifyVersionsAgree | DSA_project/Phase-1/graph.cpp:78-127 | the as-written and the corrected modify agree on the verdict, and on the whole new store when the modify succeeds |
| Phase1Graph.DetachedState | DSA_project/Phase-1/graph.cpp:84-111 | as written, on any consistent store, a rejected patch of a live edge reports failure and keeps the index and the tombstones, but erases exactly the entries carrying the id, so the id stays indexed with no entry and the store is no longer consistent |
| Phase1Graph.DetachedStateExample | DSA_project/Phase-1/graph.cpp:84-111 | a two-way edge patched with length -1 loses its entries but stays in `edge_by_id`, leaving an inconsistent store; removing it first and then patching it loses the edge altogether, so a later valid patch fails |
| Phase1Graph.Graph.ModifyEdgeChecked | DSA_project/Phase-1/graph.cpp:78-127 | the method with the patch checked before anything is erased performs `ModifyChecked` |
| Phase1Graph.ModifyCheckedSpec | DSA_project/Phase-1/graph.cpp:78-127 | the corrected modify succeeds iff the id is live with a non-empty patch or tombstoned, and the patch is valid; a failure changes nothing; a success stores the patched edge, clears the tombstone, gives the id exactly its new entries and keeps the store consistent |
| Phase1Graph.RemoveThenRestore | DSA_project/Phase-1/graph.cpp:95-126 | modifying a just-removed edge with a valid patch restores it: live, patched, with its entries present, in a consistent store |
| Phase1Graph.Graph.NearestNodeByEuclid | DSA_project/Phase-1/graph.cpp:129-137 | -1 when no node lies strictly within distance 1e18 (in particular for no nodes); otherwise an id of least distance |
| Phase1Algorithms.View | DSA_project/Phase-1/algorithms.cpp:84-99 | the search's view of `adj` keeps every list and its order; an entry leads to `e.v`, costs its length or its time-of-day time, and is unusable when its road type or its target is forbidden |
| Phase1Algorithms.ViewPre | DSA_project/Phase-1/algorithms.cpp:90-99 | with non-negative lengths (or usable profiles in time mode) every entry's cost is defined and non-negative |
| Phase1Algorithms.DistanceFifo | DSA_project/Phase-1/algorithms.cpp:97-98 | distance mode adds fixed lengths, so arriving later never helps |
| Phase1Algorithms.ViewWalkAllowed | DSA_project/Phase-1/algorithms.cpp:84-88 | every node of a walk from a non-forbidden source is not forbidden, and every hop is an adjacency entry of the current node towards the next one whose road type is not forbidden |
| Phase1Algorithms.ViewHop | DSA_project/Phase-1/algorithms.cpp:87-88 | one hop of such a walk is an allowed adjacency entry |
| Phase1Algorithms.Dijkstra | DSA_project/Phase-1/algorithms.cpp:47-125 | impossible when source or target is forbidden (checked first); `[source]` at cost 0 when they are equal; impossible when either is not a node; otherwise a possible answer is a route through the nodes from source to target whose node list is the path and whose arrival is the cost, shortest in distance mode (and in time mode whenever crossing times are FIFO); an impossible answer means no route exists |
| Phase1Algorithms.NoRouteAtInf | DSA_project/Phase-1/algorithms.cpp:109-110 | a target left at infinity by a complete search has no route |
| Phase1Algorithms.ShortestAtFin | DSA_project/Phase-1/algorithms.cpp:121-122 | a finite optimal distance is no more than the cost of any route |
| Phase1Algorithms.CollectEuclid | DSA_project/Phase-1/algorithms.cpp:133-140 | the item vector holds one `(distance, id)` per node carrying the POI and nothing else |
| Phase1Algorithms.EuclidSorted | DSA_project/Phase-1/algorithms.cpp:141 | sorting those items by distance ranks every POI node exactly once, nearest first |
| Phase1Algorithms.EuclidOrder | DSA_project/Phase-1/algorithms.cpp:141 | a sorted permutation of the items lists POI nodes by non-decreasing distance |
| Phase1Algorithms.KnnEuclid | DSA_project/Phase-1/algorithms.cpp:126-145 | the output is the first `min(k, #POI nodes)` of a ranking of all POI nodes by distance (empty for `k <= 0`) |
| Phase1Algorithms.EuclidTopK | DSA_project/Phase-1/algorithms.cpp:141-143 | every POI node left out is no nearer than any node returned |
| Phase1Algorithms.CollectReached | DSA_project/Phase-1/algorithms.cpp:175-180 | the found vector holds one `(dist, id)` per POI node with a finite distance and nothing else |
| Phase1Algorithms.ReachedSorted | DSA_project/Phase-1/algorithms.cpp:181 | sorting it ranks exactly the reachable POI nodes once each, by non-decreasing network distance |
| Phase1Algorithms.KnnShortestPath | DSA_project/Phase-1/algorithms.cpp:147-185 | `[]` when there is no nearest node; otherwise the distances are exact network distances from the nearest node, and the output is the first `min(k, n)` of a ranking of the `n` reachable POI nodes by distance, or all `n` of them for a negative `k`, since the size compare is unsigned |
| Phase2Graph.EmptyAdj | DSA_project/Phase-2/graph.cpp:23 | every node gets an empty adjacency list and nothing else is keyed |
| Phase2Graph.LoadNodesKeys | DSA_project/Phase-2/graph.cpp:15-24 | the node table files every record under its own id and holds every record's id |
| Phase2Graph.LoadAdjKeys | DSA_project/Phase-2/graph.cpp:37-42 | materialising the edges keeps every key already present |
| Phase2Graph.LoadSpec | DSA_project/Phase-2/graph.cpp:12-45 | a load of edge records with distinct ids builds a consistent store with no tombstones, an `adj` entry for every node and an index entry for every edge |
| Phase2Graph.Graph.LoadFromJson | DSA_project/Phase-2/graph.cpp:12-45 | all four maps are rebuilt: the node table and the store are those of `Load` on the records |
| Phase2Graph.PatchEdge | DSA_project/Phase-2/graph.cpp:85-93 | a patch never changes an edge's id or endpoints |
| Phase2Graph.PatchEdgeSpec | DSA_project/Phase-2/graph.cpp:85-93 | `length`, `average_time`, `road_type`, `oneway` and `speed_profile` are taken from the patch when present, with no validation; an empty patch changes nothing |
| Phase2Graph.RemoveSpec | DSA_project/Phase-2/graph.cpp:47-63 | a remove succeeds iff the id is live; a failure changes nothing; a success tombstones the edge, drops it from the index, erases exactly the entries with that id, keeps the store consistent, and a second remove fails |
| Phase2Graph.Graph.RemoveEdge | DSA_project/Phase-2/graph.cpp:47-63 | the method performs the `Remove` transition and leaves the nodes alone |
| Phase2Graph.ModifySpec | DSA_project/Phase-2/graph.cpp:65-111 | a modify succeeds iff the id is live or tombstoned; a failure changes nothing; a success indexes the patched edge, clears its tombstone, gives the id exactly the patched entries, keeps every other entry and keeps the store consistent |
| Phase2Graph.OnewayFlip | DSA_project/Phase-2/graph.cpp:96-107 | after patching `oneway`, the head keeps a reverse entry iff the patched edge is two-way, and the tail has exactly the patched forward entry |
| Phase2Graph.RemoveThenRestore | DSA_project/Phase-2/graph.cpp:69-74 | modifying a just-removed edge always restores it, patched, live and with its entries present |
| Phase2Graph.Graph.ModifyEdge | DSA_project/Phase-2/graph.cpp:65-111 | the method performs the `Modify` transition and leaves the nodes alone |
| Phase2Graph.WithoutTargetMembers | DSA_project/Phase-2/graph.cpp:126-134 | the kept entries of `adj[u]` are exactly those not leading to `v` |
| Phase2Graph.RemoveBetweenSpec | DSA_project/Phase-2/graph.cpp:122-136 | the result is true iff `u` has a list holding an entry towards `v`; exactly those entries are erased from `adj[u]`; the index, the tombstones and every other list are unchanged, and entries still agree with the index |
| Phase2Graph.PrunedEdgeStaysIndexed | DSA_project/Phase-2/graph.cpp:122-136 | pruning the only entry of a live one-way edge leaves it in `edge_by_id` without entries, so the store is no longer complete |
| Phase2Graph.Graph.RemoveEdgeBetween | DSA_project/Phase-2/graph.cpp:122-136 | the method performs the `RemoveBetween` transition and leaves the nodes alone |
| Phase2Algorithms.LengthView | DSA_project/Phase-2/algorithms.cpp:27-28 | the search's view uses each entry's length, with nothing forbidden |
| Phase2Algorithms.LengthViewFifo | DSA_project/Phase-2/algorithms.cpp:28 | with non-negative lengths every cost is defined and FIFO |
| Phase2Algorithms.Dijkstra | DSA_project/Phase-2/algorithms.cpp:5-54 | impossible when source or target is not a node; `[source]` at cost 0 when they are equal; a possible answer is a repetition-free route from source to target whose node list is the path and whose length is the cost, and no route is shorter; an impossible answer for two nodes means no route exists |
| Phase2Algorithms.RouteEntries | DSA_project/Phase-2/algorithms.cpp:27-33 | each hop of a route is an adjacency entry of the current node towards the next |
| Phase2Algorithms.RouteLinked | DSA_project/Phase-2/algorithms.cpp:40-47 | the node list of a route is a path through the nodes along adjacency entries, from source to target |
| Overlap.EncodeInjective | DSA_project/Phase-2/kshortest.cpp:14-16 | with `v` packed as its unsigned 32-bit pattern, the code tells apart any two pairs of 32-bit ints |
| Overlap.EncodeAgrees | DSA_project/Phase-2/kshortest.cpp:14-16 | for a non-negative `v` the as-written packing and the corrected one agree |
| Overlap.OverlapCollision | DSA_project/Phase-2/kshortest.cpp:14-16 | as written, the hops 1→-1 and 2→-1 encode alike, so `[1,-1]` and `[2,-1]` overlap 100% although they share no hop |
| Overlap.CollectCodes | DSA_project/Phase-2/kshortest.cpp:18-21 | the hash-set pass collects the as-written codes (sign-extended `v`) of exactly the path's hops |
| Overlap.CountShared | DSA_project/Phase-2/kshortest.cpp:23-25 | `common` is the size of the intersection of the two code sets |
| Overlap.CodesCount | DSA_project/Phase-2/kshortest.cpp:18-27 | over paths of 32-bit ints, counting codes is counting distinct directed hops, in each set and in their intersection |
| Overlap.EdgeOverlap | DSA_project/Phase-2/kshortest.cpp:8-31 | `calculate_edge_overlap` as written computes `OverlapAsWritten`: shared hop codes over the codes of the path with fewer of them, in percent, on any ids |
| Overlap.OverlapSpec | DSA_project/Phase-2/kshortest.cpp:8-31 | the intended overlap (distinct directed hops) lies in [0, 100], is symmetric, is 100 for a path with itself and 0 when either path has at most one node |
| Overlap.OverlapAsWrittenSpec | DSA_project/Phase-2/kshortest.cpp:8-31 | the overlap as written also lies in [0, 100], is symmetric, is 100 for a path of two or more nodes with itself and 0 when either path has at most one node |
| Overlap.OverlapAgrees | DSA_project/Phase-2/kshortest.cpp:14-31 | on paths of non-negative 32-bit ids the overlap as written equals the intended `OverlapOf` |
| Yen.FirstMatch | DSA_project/Phase-2/kshortest.cpp:57-63 | the first entry of `adj[u]` leading to `v`: none iff no entry does, otherwise an entry towards `v` |
| Yen.FirstMatchFirst | DSA_project/Phase-2/kshortest.cpp:58-62 | no earlier entry leads to `v` |
| Yen.FirstEntry | DSA_project/Phase-2/kshortest.cpp:57-63 | the scan with `break` finds that first entry, none when `u` has no vector |
| Yen.RootCost | DSA_project/Phase-2/kshortest.cpp:53-65 | the root cost loop adds the first matching entry's length for each of the first `i` hops, 0 for a hop without one |
| Yen.RootCostMono | DSA_project/Phase-2/kshortest.cpp:53-65 | with non-negative lengths the root cost is non-negative and grows with the root |
| Yen.RootCostPrefix | DSA_project/Phase-2/kshortest.cpp:53-65 | the root cost depends only on the root's nodes, so a candidate and its parent have the same root cost |
| Yen.LexTotal | DSA_project/Phase-2/kshortest.cpp:42-43 | the node-sequence order of candidates is total |
| Yen.PopCandidate | DSA_project/Phase-2/kshortest.cpp:114-115 | `B.top()` is a least candidate by cost and then node sequence |
| Yen.CutFacts | DSA_project/Phase-2/kshortest.cpp:69-75 | pruning only removes entries, and for every accepted path sharing the root the copy has no entry along its next hop |
| Yen.IsolateFacts | DSA_project/Phase-2/kshortest.cpp:77-90 | isolating the root nodes only removes entries, and no entry of the copy leads into one of them |
| Yen.PrunedFacts | DSA_project/Phase-2/kshortest.cpp:67-90 | the spur copy is a sub-graph of `g`, no entry leads into a root node before the spur, and the next hop of each accepted path sharing the root is cut |
| Yen.IsolateNode | DSA_project/Phase-2/kshortest.cpp:78-90 | on the copy's class, clears the node's list and erases every entry leading to it, changing nothing else |
| Yen.PrunedCopy | DSA_project/Phase-2/kshortest.cpp:67-90 | `Graph g_copy = g` and the pruning build a fresh graph with the same nodes and the pruned adjacency |
| Yen.CandidateOk | DSA_project/Phase-2/kshortest.cpp:96-97 | the root followed by the spur path minus its first node is a simple path of `g` from `src` to `tgt` |
| Yen.CandidateNew | DSA_project/Phase-2/kshortest.cpp:69-75 | such a candidate differs from every accepted path |
| Yen.SpurCandidate | DSA_project/Phase-2/kshortest.cpp:50-104 | a found candidate is a simple path of `g` from `src` to `tgt`, new, extending the root and leaving the last accepted path there by another hop, with cost root cost plus the spur's shortest cost in the pruned copy; without a spur path the copy has no route from the spur node |
| Yen.SpurRounds | DSA_project/Phase-2/kshortest.cpp:49-109 | the spur loop runs once per node of the last accepted path but its end; `found[i]` is the spur result of index `i` (nothing exactly when that round's pruned copy has no route); the seen set gains every found node sequence, and `B` gains exactly the found candidates whose node sequence was not seen before the loop and whose cost is below 1e18, so every such candidate is queued; the candidate invariant and every queued candidate's spur origin are kept |
| Yen.SpurStep | DSA_project/Phase-2/kshortest.cpp:94-105 | one spur index: its spur result (none iff no route in the pruned copy, otherwise a candidate with Yen's cost decomposition that leaves the last path at that index); a found candidate is marked seen, and queued exactly when not seen before and below 1e18; the candidate invariant and origins are kept |
| Yen.SpurSearch | DSA_project/Phase-2/kshortest.cpp:92-104 | the Dijkstra on the pruned copy and the splice: none exactly when the copy has no route from the spur node, otherwise a new simple path of `g` leaving the last path at index `i`, with Yen's cost decomposition |
| Yen.Enqueue | DSA_project/Phase-2/kshortest.cpp:93-108 | a spur search without a route changes nothing; otherwise `visited` gains the candidate's node sequence, and `B` gains the candidate exactly when that sequence was not seen and the cost is below 1e18; the candidate invariant and origins are kept |
| Yen.SpurPathRoute | DSA_project/Phase-2/kshortest.cpp:92-94 | a spur path found in the pruned copy rules out "no route" there |
| Yen.LastLeaves | DSA_project/Phase-2/kshortest.cpp:69-75 | a candidate that avoids the cut next hop of every accepted path sharing its root leaves the last accepted path there |
| Yen.SpursFoundAt | DSA_project/Phase-2/kshortest.cpp:49-94 | every index recorded by the spur loop has its spur result |
| Yen.SpursFoundSnoc | DSA_project/Phase-2/kshortest.cpp:49-94 | recording one more index keeps every index's spur result |
| Yen.NotSeenBefore | DSA_project/Phase-2/kshortest.cpp:49-105 | a candidate keeping the first `i + 1` nodes of the last path was not found at an earlier spur index, since those candidates leave the path earlier |
| Yen.QueuedAll | DSA_project/Phase-2/kshortest.cpp:99-108 | over one spur loop, every found candidate not seen before the loop and below 1e18 is queued, and only found candidates are |
| Yen.RoundSnoc | DSA_project/Phase-2/kshortest.cpp:99-108 | one more spur index keeps the seen set and queue equal to what the recorded spur results give |
| Yen.SpurFound | DSA_project/Phase-2/kshortest.cpp:94-104 | a candidate from spur index `i` of the last accepted path costs the root cost of its own first `i` hops plus a shortest spur cost on that round's pruned copy |
| Yen.SourcedPush | DSA_project/Phase-2/kshortest.cpp:99-108 | pushing a candidate under a new node sequence keeps every queued candidate's origin |
| Yen.PushStep | DSA_project/Phase-2/kshortest.cpp:99-108 | marking a new candidate seen and pushing it when below 1e18 keeps the candidate invariant |
| Yen.AcceptStep | DSA_project/Phase-2/kshortest.cpp:114-116 | accepting a queued candidate keeps the accepted paths pairwise different simple paths and the rest of `B` valid |
| Yen.SpurOfGrow | DSA_project/Phase-2/kshortest.cpp:114-116 | a candidate's origin and cost decomposition stay valid when more paths are accepted |
| Yen.AcceptSpurs | DSA_project/Phase-2/kshortest.cpp:114-116 | accepting a queued candidate keeps the other candidates' origins and gives the new answer its decomposition |
| Yen.YenRound | DSA_project/Phase-2/kshortest.cpp:47-117 | one pass of the outer loop keeps the loop state and appends its record (starting queue and seen set, each index's spur result, the queue after the spur loop); it stops exactly when that queue is empty, leaving the answers unchanged, and otherwise appends exactly one path, a least entry of that queue |
| Yen.RoundsSnoc | DSA_project/Phase-2/kshortest.cpp:47-117 | appending a valid pass record keeps every record valid |
| Yen.RoundsOkAt | DSA_project/Phase-2/kshortest.cpp:47-117 | every recorded pass has one spur result per index and its queue is the starting queue plus what its spur loop queued |
| Yen.ChainStep | DSA_project/Phase-2/kshortest.cpp:111-116 | a pass that pops a least entry of its queue extends the record: the next pass starts from that queue minus the popped entry and from the seen set plus what the pass found |
| Yen.ChainStop | DSA_project/Phase-2/kshortest.cpp:111-112 | a pass with an empty queue closes the record |
| Yen.StartOk | DSA_project/Phase-2/kshortest.cpp:40-46 | before the first pass the single shortest path, an empty queue and seen set and an empty record satisfy the loop state |
| Yen.Pass | DSA_project/Phase-2/kshortest.cpp:47-117 | one pass keeps the loop state, counts an accepted path, and stops the loop only on an empty queue with fewer than `k` answers |
| Yen.MoreExit | DSA_project/Phase-2/kshortest.cpp:46-118 | on leaving the loop: at most `max(k, 1)` answers, one record per later answer, and one more with an empty queue when it stopped short |
| Yen.MorePaths | DSA_project/Phase-2/kshortest.cpp:46-118 | from the shortest path on: at most `max(k, 1)` paths, the shortest first, every later one a distinct simple path with its spur origin and popped as a least entry of the previous pass's queue; one pass record per answer, and fewer than `max(k, 1)` answers only when the last pass's queue was empty |
| Yen.KShortest | DSA_project/Phase-2/kshortest.cpp:33-120 | `[]` iff source or target is missing or there is no route; at most `max(k, 1)` paths; `A[0]` is a shortest route from the Dijkstra; all paths are simple paths of `g` from `src` to `tgt`, pairwise different, every later one costing below 1e18; `g` is only read; every later path `A[j]` shares the first `i + 1` nodes of an earlier path and costs the root cost of those hops plus a shortest spur cost on the copy pruned for that round; `A[j]` was a least entry of the previous pass's queue; pass `r` records each spur index's result and its queue is the starting queue plus every found candidate not seen before and below 1e18, the next pass starting from that queue minus the popped path; and fewer than `max(k, 1)` paths are returned only when the last pass's queue was empty |
| Heuristic.ChargedGrows | DSA_project/Phase-2/kshortest.cpp:133-144 | charging a path's hops only raises usage counts and never forgets an edge |
| Heuristic.ChargedHits | DSA_project/Phase-2/kshortest.cpp:177-188 | the first matching edge of each charged hop gains at least the charge (+1 accept, +2 reject) |
| Heuristic.ChargedMisses | DSA_project/Phase-2/kshortest.cpp:203-214 | an edge no hop charges keeps its count |
| Heuristic.ChargePath | DSA_project/Phase-2/kshortest.cpp:203-214 | the charging loop computes `ChargedPath` |
| Heuristic.PenalizedAt | DSA_project/Phase-2/kshortest.cpp:149-162 | after the scan over a set of ids, each entry is its original scaled by `(1 + 0.3·usage)` once per vector the scan touched it in |
| Heuristic.PenaltyStepOk | DSA_project/Phase-2/kshortest.cpp:149-162 | one id of the scan scales its entries at `u`, and at `v` for a two-way edge, when it has a usage, and does nothing otherwise |
| Heuristic.PenaltySpec | DSA_project/Phase-2/kshortest.cpp:147-162 | the penalised copy keeps every list's length, ids and endpoints, never shortens an entry, leaves entries of uncharged edges alone and keeps lengths non-negative |
| Heuristic.PenalizedPath | DSA_project/Phase-2/kshortest.cpp:164 | a path of the penalised copy is a path of `g` |
| Heuristic.PenalizeMap | DSA_project/Phase-2/kshortest.cpp:149-162 | the scan over `mod.edge_by_id`, in any order, computes the penalised adjacency |
| Heuristic.ScaleEntries | DSA_project/Phase-2/kshortest.cpp:151-154 | the inner loop scales exactly the entries with the id |
| Heuristic.PenalizedCopy | DSA_project/Phase-2/kshortest.cpp:147-162 | `Graph mod = g` plus the scan is a fresh graph with the same nodes and the penalised adjacency |
| Heuristic.Acceptable | DSA_project/Phase-2/kshortest.cpp:167-174 | a path is acceptable iff its as-written overlap with every kept path is at most the threshold |
| Heuristic.IsDuplicate | DSA_project/Phase-2/kshortest.cpp:192-198 | a path is a duplicate iff some kept path equals it |
| Heuristic.KeepStep | DSA_project/Phase-2/kshortest.cpp:199-201 | keeping an acceptable, non-duplicate penalised shortest path keeps the kept-answer invariant |
| Heuristic.HeuristicKShortest | DSA_project/Phase-2/kshortest.cpp:122-218 | `[]` iff source or target is missing or there is no route; at most `max(k, 1)` answers, the first a shortest route of `g`; all answers are simple paths of `g`, pairwise different, each overlapping every earlier one (as written) by at most the threshold, and each later one a shortest route of the copy penalised by the usage it was found under; the base answer has the empty usage and every later usage has each earlier answer's hops charged once on top of the usage before it |
| Heuristic.Round | DSA_project/Phase-2/kshortest.cpp:147-215 | one round keeps the kept-answer invariant and never lowers a count; it stops, with nothing changed, only when the penalised copy has no route; otherwise its penalised shortest answer is rejected with its hops charged 2, skipped as a duplicate with the usage unchanged, or appended with its hops charged 1 |
| Heuristic.ChargedPathGrows | DSA_project/Phase-2/kshortest.cpp:177-188 | charging a whole path never lowers a count |
| Heuristic.ChargesKept | DSA_project/Phase-2/kshortest.cpp:146-215 | a round that raises the usage and keeps or appends a once-charged answer keeps the charge bookkeeping of the kept answers |
| Heuristic.KeptSpreadIntended | DSA_project/Phase-2/kshortest.cpp:167-174 | when every node id is a non-negative 32-bit value, the kept answers are also pairwise within the threshold by the intended overlap |
| Heuristic.PairIntended | DSA_project/Phase-2/kshortest.cpp:14-31 | two paths over non-negative 32-bit ids overlap as written exactly as intended |
| Approx.HeuristicSpec | DSA_project/Phase-2/approx.cpp:9-22 | the heuristic is 0 when either node is missing and never negative |
| Approx.PopState | DSA_project/Phase-2/approx.cpp:70-71 | the popped state is a least `(f, node)` pair of the queue |
| Approx.RelaxStep | DSA_project/Phase-2/approx.cpp:93-96 | after an improving relaxation every finite g-score is still the length of a walk from the source |
| Approx.RelaxEntry | DSA_project/Phase-2/approx.cpp:88-100 | a neighbour that is not closed and improves gets `g = g[u] + length`, `f = g + (1+ε)·h` and a queue entry; otherwise nothing changes; scores only decrease and closed nodes keep theirs |
| Approx.Relax | DSA_project/Phase-2/approx.cpp:87-101 | the loop over `adj[u]` keeps the scores witnessed by walks, only adds queue entries and only improves scores of open nodes; afterwards every entry of `u` leads to a closed node or to one whose g-score is at most `g[u]` plus the length, and the search invariants (`Frontier`) hold again |
| Approx.RelaxPending | DSA_project/Phase-2/approx.cpp:88-100 | one entry of the loop keeps the invariants: a new state becomes its node's current one, that node's older states stay above it, and entry `k` joins the covered entries of `u` |
| Approx.RelaxImproved | DSA_project/Phase-2/approx.cpp:94-98 | an improving relaxation keeps every reached node's f-score equal to its g-score plus `(1+ε)·h`, keeps every open reached node's current state queued, and adds at most one crossing to the g-score bound |
| Approx.CurrentPop | DSA_project/Phase-2/approx.cpp:70-83 | the first pop of a node takes its current state (`f == f_score[u]`), so the outdated-entry skip never drops a node's first expansion |
| Approx.PopFrontier | DSA_project/Phase-2/approx.cpp:74 | dropping a state of a closed node keeps the search invariants |
| Approx.CloseFrontier | DSA_project/Phase-2/approx.cpp:74-85 | closing the target, or a node without an adjacency list, keeps the search invariants |
| Approx.OpenPending | DSA_project/Phase-2/approx.cpp:74-87 | closing any other node by its current state leaves the invariants holding for every closed node but that one, whose entries are still to be relaxed |
| Approx.StartFrontier | DSA_project/Phase-2/approx.cpp:49-60 | the opening state satisfies the search invariants |
| Approx.ReachClosed | DSA_project/Phase-2/approx.cpp:62-105 | with the queue empty and the target never popped, under bounded lengths, every walk from the source through graph nodes ends at a closed node |
| Approx.Exhausted | DSA_project/Phase-2/approx.cpp:62-105 | an emptied queue without the target popped means, under bounded lengths, that no route joins source and target |
| Approx.Start | DSA_project/Phase-2/approx.cpp:49-60 | every node starts at 1e18 (g- and f-score) and the source at g = 0 and f = `(1+ε)·h(source)`, and the queue holds only the source with that priority |
| Approx.ExpandStep | DSA_project/Phase-2/approx.cpp:74-75 | closing a node not yet closed keeps the record of expanded nodes repetition-free |
| Approx.Expand | DSA_project/Phase-2/approx.cpp:70-101 | one pop closes a node at most once, reports the target only with a finite score, closes the target only when it reports it, keeps the search invariants, and lowers the measure (open nodes, then queue size) |
| Approx.ClockStep | DSA_project/Phase-2/approx.cpp:62-68 | one more reading within the limit extends the run of readings within it |
| Approx.WeightedAStar | DSA_project/Phase-2/approx.cpp:25-106 | -1 when source or target is missing, 0 when they are equal; otherwise -1 or the length of a route through the nodes from source to target; no node is expanded twice; a non-negative answer means every clock reading was within 95% of the budget; for known, distinct endpoints and bounded lengths, -1 means no route joins them or the search's last reading passed 95% of the budget |
| Approx.ApproxBatch | DSA_project/Phase-2/approx.cpp:108-150 | the output is an input-ordered subsequence of queries whose nodes both exist, each with a non-negative result that is the length of a route between them; processing stops only at a query seen after the clock passed the budget; a query before the stop whose nodes both exist and which is not answered has distinct endpoints and, under bounded lengths, no route between them or a search whose last reading passed 95% of the budget |
| Approx.MissedStep | DSA_project/Phase-2/approx.cpp:123-146 | one more query keeps the completeness fact of every earlier query |
| Delivery.ShortestTime | DSA_project/Phase-3/delivery.cpp:60-67 | the same node costs 0; a node without a row or column costs the 1e18 sentinel; otherwise the table entry |
| Delivery.ScanEvent | DSA_project/Phase-3/delivery.cpp:78-90 | one (position, order) event: reports a premature dropoff exactly when the dropoff is matched before any pickup of that id, and otherwise keeps the flags equal to the ids matched so far |
| Delivery.ScanNode | DSA_project/Phase-3/delivery.cpp:78-90 | the order loop at one route position: either a premature dropoff is found, or the flags cover every event up to the next position |
| Delivery.ScanRoute | DSA_project/Phase-3/delivery.cpp:78-90 | the whole route scan: it stops early only at a premature dropoff, and otherwise no event is premature |
| Delivery.IsValidRoute | DSA_project/Phase-3/delivery.cpp:69-99 | returns true exactly when no dropoff comes before its pickup and every order's pickup and dropoff were matched |
| Delivery.IdMatch | DSA_project/Phase-3/delivery.cpp:78-90 | with distinct ids, an id is flagged picked (dropped) before an event exactly when its pickup (dropoff) node is visited at an earlier event |
| Delivery.ValidRouteDistinct | DSA_project/Phase-3/delivery.cpp:69-99 | with distinct ids, a route is valid exactly when every order's pickup and dropoff are visited and every visit of a dropoff has a pickup visit at or before it; no orders means always valid |
| Delivery.NextStop | DSA_project/Phase-3/delivery.cpp:111-135 | the chosen open stop is the nearest one below 1e18, taking the first index on ties; -1 exactly when no open stop is reachable below 1e18 |
| Delivery.GreedyStep | DSA_project/Phase-3/delivery.cpp:110-150 | one round keeps the greedy invariant and the log: it stops only when no open order is reachable; otherwise it logs the round's greedy choice and extends the route by that stop exactly as the push rule says |
| Delivery.LogChoice | DSA_project/Phase-3/delivery.cpp:111-142 | the nearest open stop picked from where the route ends, appended unless the driver is already there (or pickup equals dropoff), keeps the route equal to the one the log builds and makes the new step a greedy choice |
| Delivery.LogStep | DSA_project/Phase-3/delivery.cpp:139-148 | logging a picked-up or delivered order keeps the log well formed and the flag vectors equal to the log |
| Delivery.GreedyRoute | DSA_project/Phase-3/delivery.cpp:101-153 | no orders gives [depot]; the route starts at the depot; it has at most 2 stops per order; every later stop is a pickup or dropoff; an early end means every open order is unreachable; the route is the one its step log builds under the push rule of lines 139-142, and each logged step is the nearest open stop (first index on ties, below 1e18) from where the route stood |
| Delivery.RouteCost | DSA_project/Phase-3/delivery.cpp:155-163 | the table time along the route, hop by hop |
| Delivery.RouteCostJoin | DSA_project/Phase-3/delivery.cpp:155-163 | the cost of a joined route is the two costs plus the joining hop |
| Delivery.RouteCostNonNeg | DSA_project/Phase-3/delivery.cpp:155-163 | with non-negative table entries a route cost is non-negative |
| Delivery.ReverseSpan | DSA_project/Phase-3/delivery.cpp:180 | reversing a span keeps the route length |
| Delivery.ReversePerm | DSA_project/Phase-3/delivery.cpp:180 | a reversal is a permutation |
| Delivery.ReverseSpanSpec | DSA_project/Phase-3/delivery.cpp:180 | reversing an inner span is a permutation that keeps the first and last stop |
| Delivery.FindMove | DSA_project/Phase-3/delivery.cpp:177-193 | the move found is the first (i, j) in scan order whose reversal is valid and cheaper by more than 1e-9; none found means the route is locally optimal |
| Delivery.FindMoveFrom | DSA_project/Phase-3/delivery.cpp:178-191 | for one i, the first j whose reversal of positions i..j is valid and cheaper by more than 1e-9; none found means no such j exists |
| Delivery.TwoOptImprove | DSA_project/Phase-3/delivery.cpp:165-195 | routes of at most 3 stops are unchanged; the result is a permutation keeping both endpoints; at most 200 moves; each move lowers the cost by more than 1e-9 and the result is valid after any move; fewer than 200 moves means locally optimal |
| Delivery.Orders | DSA_project/Phase-3/delivery.cpp:207-214 | the orders of the order records, position by position |
| Delivery.FlatJoin | DSA_project/Phase-3/delivery.cpp:258-274 | flattening distributes over concatenation of cluster lists |
| Delivery.GridJoin | DSA_project/Phase-3/delivery.cpp:258-274 | flattening distributes over concatenation of grid rows |
| Delivery.RowSplit | DSA_project/Phase-3/delivery.cpp:258-274 | a flattened row is the lists before, at and after a position |
| Delivery.GridSplit | DSA_project/Phase-3/delivery.cpp:258-274 | a flattened grid is the rows before, at and after a position |
| Delivery.AppendAt | DSA_project/Phase-3/delivery.cpp:265-267 | appending to one cluster adds exactly the appended orders |
| Delivery.GridAppendAt | DSA_project/Phase-3/delivery.cpp:255 | filing one order into a cell adds exactly that order to the grid |
| Delivery.HandedLe | DSA_project/Phase-3/delivery.cpp:258-274 | the cells handed out so far are part of the grid |
| Delivery.ISqrt | DSA_project/Phase-3/delivery.cpp:220 | the integer square root r satisfies r*r <= n < (r+1)*(r+1) |
| Delivery.ISqrtFrom | DSA_project/Phase-3/delivery.cpp:220 | the same bound, searched upwards from a start below the root |
| Delivery.Sectors | DSA_project/Phase-3/delivery.cpp:220 | at least one sector |
| Delivery.CellsEnough | DSA_project/Phase-3/delivery.cpp:220-221 | sectors times zones is at least the number of drivers, and there is a zone for any driver |
| Delivery.CollectInfo | DSA_project/Phase-3/delivery.cpp:207-214 | the kept orders are those whose pickup has a column, in input order, each with that column's radius and angle |
| Delivery.FloorIndex | DSA_project/Phase-3/delivery.cpp:230 | the zone quantile index lies inside the sorted radii |
| Delivery.ZoneBounds | DSA_project/Phase-3/delivery.cpp:227-233 | zones + 1 bounds: 0, the radius at each quantile index, and 1e18 |
| Delivery.FindZone | DSA_project/Phase-3/delivery.cpp:247-253 | the first zone whose bounds hold the radius, or zone 0 when none does |
| Delivery.FileOrder | DSA_project/Phase-3/delivery.cpp:240-256 | filing an order keeps the grid shape and adds exactly that order |
| Delivery.NewGrid | DSA_project/Phase-3/delivery.cpp:238 | an empty grid of the given shape |
| Delivery.BuildGrid | DSA_project/Phase-3/delivery.cpp:238-256 | the grid holds exactly the kept orders |
| Delivery.EmptyGrid | DSA_project/Phase-3/delivery.cpp:238 | a grid of empty cells flattens to nothing |
| Delivery.EmptyRow | DSA_project/Phase-3/delivery.cpp:238 | a row of empty cells flattens to nothing |
| Delivery.HandRow | DSA_project/Phase-3/delivery.cpp:258-274 | handing out one sector's cells adds exactly the cells handed, and stops early only when every driver has one |
| Delivery.HandOut | DSA_project/Phase-3/delivery.cpp:258-274 | one cluster per driver, holding only orders from the grid |
| Delivery.AssignedIds | DSA_project/Phase-3/delivery.cpp:277-282 | the ids of every clustered order |
| Delivery.IdsSnoc | DSA_project/Phase-3/delivery.cpp:277-282 | appending an order adds its id |
| Delivery.LeftoverCount | DSA_project/Phase-3/delivery.cpp:284-290 | the leftover orders are those whose id is not yet assigned, each as often as in the input |
| Delivery.RoundRobin | DSA_project/Phase-3/delivery.cpp:284-290 | the round-robin pass adds exactly the leftover orders to the clusters |
| Delivery.DistinctCount | DSA_project/Phase-3/delivery.cpp:284-290 | with distinct ids an order occurs at most once |
| Delivery.KeptDistinct | DSA_project/Phase-3/delivery.cpp:207-214 | filtering keeps ids distinct and only keeps input orders |
| Delivery.ClusterCount | DSA_project/Phase-3/delivery.cpp:277-290 | clustered plus leftover orders never exceed the kept orders, and equal them when ids are distinct |
| Delivery.BalancedCluster | DSA_project/Phase-3/delivery.cpp:203-294 | exactly one cluster per driver; the clusters hold only kept orders, and every kept order exactly once when ids are distinct |
| Delivery.IdList | DSA_project/Phase-3/delivery.cpp:322-324 | the ids of a cluster, position by position |
| Delivery.SameStops | DSA_project/Phase-3/delivery.cpp:165-195 | a permutation keeping the first stop keeps every later stop a pickup or dropoff |
| Delivery.PlanDriver | DSA_project/Phase-3/delivery.cpp:314-336 | a driver's assignment is its cluster's greedy route improved by 2-opt, with the cluster's ids |
| Delivery.ScheduleDeliveries | DSA_project/Phase-3/delivery.cpp:296-339 | one assignment per driver, each planned from its cluster, and the clusters hold the kept orders as in BalancedCluster |
| Delivery.LastByIdSpec | DSA_project/Phase-3/delivery.cpp:342-345 | the order map has exactly the ids of the orders, each mapped to the last order carrying it |
| Delivery.OrderMap | DSA_project/Phase-3/delivery.cpp:342-345 | the loop builds the last-by-id map |
| Delivery.PickedBeforeStep | DSA_project/Phase-3/delivery.cpp:360-371 | the picked set grows by the ids picked up at the current position |
| Delivery.ScanIds | DSA_project/Phase-3/delivery.cpp:360-371 | the id loop at one position adds that position's pickups and the elapsed time of each delivery there |
| Delivery.DriverDelivery | DSA_project/Phase-3/delivery.cpp:352-372 | one driver adds the delivery time of its route |
| Delivery.TotalDeliveryTime | DSA_project/Phase-3/delivery.cpp:341-376 | the total is the sum over drivers of the elapsed route time at each delivery whose pickup came at an earlier non-depot position |
| Delivery.TotalTimeNonNeg | DSA_project/Phase-3/delivery.cpp:341-376 | with non-negative table entries the total is non-negative |
| Delivery.DriverTimeNonNeg | DSA_project/Phase-3/delivery.cpp:352-372 | one driver's share is non-negative |
| Delivery.GainNonNeg | DSA_project/Phase-3/delivery.cpp:360-371 | one position's gain is non-negative |
| Delivery.DriverTimeSplit | DSA_project/Phase-3/delivery.cpp:360-371 | a driver's share splits over its last id |
| Delivery.DriverTimeByOrder | DSA_project/Phase-3/delivery.cpp:352-372 | a driver's share is the sum of each order's own share |
| Delivery.DriverTimeEmpty | DSA_project/Phase-3/delivery.cpp:352-372 | no ids add nothing |
| Delivery.OneDelivery | DSA_project/Phase-3/delivery.cpp:360-371 | an order deliverable at one position only adds the elapsed time there, or nothing |
| Delivery.DeliveryTimeOfOrder | DSA_project/Phase-3/delivery.cpp:360-371 | an order picked up after the depot and dropped off once adds the route time to its dropoff |
| Delivery.DepotPickupIgnored | DSA_project/Phase-3/delivery.cpp:365 | an order picked up only at the depot position adds nothing |
| Precompute.TimeView | DSA_project/Phase-3/precompute.cpp:36 | with non-negative average times the arcs are well formed |
| Precompute.TimeViewFixed | DSA_project/Phase-3/precompute.cpp:36 | weights are fixed average times, so the view is well formed and FIFO |
| Precompute.ClosedTriangle | DSA_project/Phase-3/precompute.cpp:28-42 | when the search closes, every settled distance obeys the triangle inequality over each edge |
| Precompute.DijkstraAll | DSA_project/Phase-3/precompute.cpp:18-44 | every node and the source has a distance in [0, 1e18], the source 0; no walk is shorter; values below 1e18 are attained; the triangle inequality holds; other heads read as 0 |
| Precompute.ImportantSet | DSA_project/Phase-3/precompute.cpp:69-74 | exactly the depot and every pickup and dropoff node |
| Precompute.ColumnIndex | DSA_project/Phase-3/precompute.cpp:83-86 | the column map is the inverse of the id list |
| Precompute.FillRow | DSA_project/Phase-3/precompute.cpp:94-103 | each column holds the node's distance, or 1e18 when the search gave none |
| Precompute.TableRow | DSA_project/Phase-3/precompute.cpp:96-103 | every column of a row holds a shortest time from the row's node, within [0, 1e18], 0 on the diagonal |
| Precompute.BuildTable | DSA_project/Phase-3/precompute.cpp:67-103 | the row nodes are the sorted depot and stops, the columns the sorted graph nodes with their inverse index, and every row is a shortest-time row |
| GraderEdge.ApplyPatch | DSA_project/autograder/graph.py:28-31 | each of length, average time, speed profile and road type takes the patch's value when the patch names it and keeps its own otherwise; id, ends, direction and the disabled flag never change |
| GraderEdge.SlowestBelow | DSA_project/autograder/graph.py:45-51 | the slowest positive speed among the first slots is positive when one exists and bounds every positive speed from below |
| GraderEdge.FastestBelow | DSA_project/autograder/graph.py:45-55 | the fastest speed among the first slots bounds every one of them from above |
| GraderEdge.ZeroRunStops | DSA_project/autograder/graph.py:46-51 | the run of skipped slots ends no later than the first drivable slot |
| GraderEdge.ZeroRunDrops | DSA_project/autograder/graph.py:49-51 | skipping a slot whose speed is not positive shortens the run of skipped slots when some slot is drivable, so the skips end |
| GraderEdge.SlotsAhead | DSA_project/autograder/graph.py:46 | a slot of the wrapped profile comes round again within one profile length, immediately exactly when it is the current one |
| GraderEdge.SpeedRange | DSA_project/autograder/graph.py:47-55 | every positive slot speed lies between the slowest and the fastest one |
| GraderEdge.SlotDrop | DSA_project/autograder/graph.py:64-67 | a drivable slot that does not finish the edge lowers the count of slots still needed |
| GraderEdge.CrossFrom | DSA_project/autograder/graph.py:45-69 | the time still needed from `off` seconds into absolute slot `k` is never negative, and zero once nothing is left to cover |
| GraderEdge.PyDecompose | DSA_project/autograder/graph.py:46 | a clock reading `900 k + off` with `off` below 900 falls in absolute slot `k` |
| GraderEdge.SlotStep | DSA_project/autograder/graph.py:53-55 | the time to the next boundary is the rest of the slot and the distance possible is the speed times that rest |
| GraderEdge.GetCrossTime | DSA_project/autograder/graph.py:33-69 | the corrected loop, which takes each slot boundary from the absolute slot, returns the traversal time `CrossTime`: the average time for an empty profile, otherwise the slot-by-slot crossing from the departure time. It agrees with the code as written until the clock passes `slot_count · 900` s (see Left out) |
| GraderEdge.CrossSlot | DSA_project/autograder/graph.py:45-67 | one iteration (skip, finish or partial slot) keeps elapsed time plus the time still needed constant and lowers the termination measure |
| GraderEdge.CrossFromSkip | DSA_project/autograder/graph.py:49-51 | a slot whose speed is not positive is skipped to the start of the next slot |
| GraderEdge.CrossFromFinish | DSA_project/autograder/graph.py:59-63 | a slot that can cover the rest finishes the edge in the rest over the speed |
| GraderEdge.CrossFromStep | DSA_project/autograder/graph.py:64-67 | a slot that cannot cover the rest adds its remaining seconds and continues from the next slot with its distance deducted |
| GraderEdge.CrossFromCovers | DSA_project/autograder/graph.py:45-69 | the time returned, driven at the slowest positive speed, covers at most the distance, and at the fastest speed at least the distance |
| GraderEdge.CrossTimeSpec | DSA_project/autograder/graph.py:33-69 | an empty profile gives the average time; otherwise the time is not negative, zero for a non-positive length, and brackets the length between the slowest and the fastest speed |
| GraderEdge.CrossAsWritten | DSA_project/autograder/graph.py:45-69 | the loop as written, on a fuel bound, returns the elapsed time once the distance is covered |
| GraderEdge.AsWrittenSlotAgrees | DSA_project/autograder/graph.py:46 | while the clock is below `slot_count · 900` s, the wrapped slot index as written is the absolute slot, which the corrected loop uses |
| GraderEdge.GetCrossTimeAsWritten | DSA_project/autograder/graph.py:33-69 | as written, an empty profile returns the average time |
| GraderEdge.AsWrittenWithinLap | DSA_project/autograder/graph.py:33-69 | at any non-negative departure whose corrected crossing ends within the first lap of the profile (`WithinLap`: the last metre is covered in an absolute slot below `slot_count`), the code as written, given one pass of fuel per slot, returns exactly the corrected crossing time `CrossTime` |
| GraderEdge.AsWrittenFrom | DSA_project/autograder/graph.py:45-67 | from absolute slot `k` of the first lap, the loop as written makes the same skip, finish and drive passes as the corrected one and ends with the elapsed time plus the corrected remaining time |
| GraderEdge.AsWrittenSkip | DSA_project/autograder/graph.py:49-51 | in a stopped slot of the first lap both loops move on to the next slot with nothing added to the elapsed time |
| GraderEdge.AsWrittenFinish | DSA_project/autograder/graph.py:59-63 | a slot of the first lap that can cover the remaining distance ends both loops with the same time |
| GraderEdge.AsWrittenDrive | DSA_project/autograder/graph.py:53-67 | a slot of the first lap that cannot cover the remaining distance is driven to its end by both loops: the same distance, the same seconds and the same next clock |
| GraderEdge.NegativeStepExample | DSA_project/autograder/graph.py:53-54 | departing at 900 s over a 10 km edge with speeds [1, 10], the code as written returns 190 s, which no profile speed can cover the edge in, while the traversal with the absolute slot gives 1810 s, which does |
| GraderEdge.NegativeStepAsWritten | DSA_project/autograder/graph.py:53-54 | as written, the example runs to 190 s and 190 s at the fastest speed does not cover the edge |
| GraderEdge.NegativeStepCorrected | DSA_project/autograder/graph.py:33-69 | with the boundary taken from the absolute slot, the example takes 1810 s, which brackets the edge |
| GraderGraph.LoadOneFacts | DSA_project/autograder/graph.py:115-130 | one edge of the file stores its record under its id, keeps every entry, adds `(v, id)` at `u` and, for a two-way road, `(u, id)` at `v` |
| GraderGraph.AddOneFacts | DSA_project/autograder/graph.py:123-130 | `_add_edge` keeps every entry resolvable and appends `(v, id)` to the list of `u` |
| GraderGraph.LoadAllKeeps | DSA_project/autograder/graph.py:102-121 | loading edges keeps every entry resolvable and never drops an entry already there |
| GraderGraph.LoadAllEntries | DSA_project/autograder/graph.py:102-121 | every edge of the file ends up in the list of its tail, and a two-way edge also in the list of its head |
| GraderGraph.FileIdsSpec | DSA_project/autograder/graph.py:103-105 | an id is among the file's ids exactly when some edge of the file carries it |
| GraderGraph.LoadAllIds | DSA_project/autograder/graph.py:102-125 | the edge map holds exactly the ids it held before plus the file's ids |
| GraderGraph.LoadAllLast | DSA_project/autograder/graph.py:115-125 | an id keeps the record of the last edge of the file carrying it (the mirror of a two-way road, which overwrites the forward record) |
| GraderGraph.FirstEnabled | DSA_project/autograder/graph.py:163-168 | the scan finds an entry exactly when some entry leads to `v` over an edge that is not disabled, and then the first such entry |
| GraderGraph.DisableCloses | DSA_project/autograder/graph.py:132-140 | after disabling an id no scan finds that id |
| GraderGraph.ModifyReopens | DSA_project/autograder/graph.py:142-147 | after modifying an id the scan from its tail to its head finds an enabled entry again |
| GraderGraph.ValidPathAvoids | DSA_project/autograder/graph.py:149-171 | a path `validate_path` accepts touches no forbidden node |
| GraderGraph.ValidPathHop | DSA_project/autograder/graph.py:159-170 | every hop of an accepted path has an enabled entry whose road type is allowed |
| GraderGraph.HopCost | DSA_project/autograder/graph.py:206-211 | in time mode a hop over a record with a profile, or with a non-negative average time, never costs a negative amount |
| GraderGraph.PathCost | DSA_project/autograder/graph.py:199-215 | the total of the first `n` hops, or failure; in time mode over ready records never negative |
| GraderGraph.PathReadyPrefix | DSA_project/autograder/graph.py:199-215 | if the records the total loop crosses in the first `n` hops all have traversals that end, so do those of every shorter prefix |
| GraderGraph.PathCostNext | DSA_project/autograder/graph.py:202-213 | a hop with an enabled entry of an allowed road type adds that edge's cost at the running total |
| GraderGraph.PathCostFails | DSA_project/autograder/graph.py:204-215 | a hop with no enabled entry, or whose first enabled entry has a forbidden road type, fails the total |
| GraderGraph.ValidPathCosts | DSA_project/autograder/graph.py:193-215 | on a path `validate_path` accepted, the total loop never fails |
| GraderGraph.PathCostStuck | DSA_project/autograder/graph.py:199-215 | once the total loop fails it stays failed for every longer prefix |
| GraderGraph.AcceptsImpossible | DSA_project/autograder/graph.py:187-191 | an "impossible" answer is accepted exactly when the expected answer is impossible |
| GraderGraph.AcceptsPossible | DSA_project/autograder/graph.py:193-235 | a "possible" answer is accepted exactly when its path is valid, a total is reported, the recomputed total is within 0.01 of it and at most 0.1 above the expected total |
| GraderGraph.AcceptsExact | DSA_project/autograder/graph.py:193-235 | a valid path reported with its own total is accepted against that total |
| GraderGraph.AcceptedBounds | DSA_project/autograder/graph.py:217-235 | an accepted answer reports a total at most 0.11 above the expected one and its path avoids the forbidden nodes |
| GraderGraph.ValidAnswerCosted | DSA_project/autograder/graph.py:193-215 | a valid path always gets a total |
| GraderGraph.Step | DSA_project/autograder/graph.py:237-274 | one query keeps the entries resolvable and the records ready, and only remove and modify queries change the graph |
| GraderGraph.ReadyBatch | DSA_project/autograder/graph.py:276-290 | if some query is in time mode, ready records and ready patches let every answer of the batch be checked on the graph the earlier updates leave, whatever the answers |
| GraderGraph.RunAll | DSA_project/autograder/graph.py:276-290 | the number of passing answers is at most the batch size and the graph stays resolvable |
| GraderGraph.RunAllStep | DSA_project/autograder/graph.py:280-283 | the count from query `i` on is one for a passing query `i` plus the count of the rest on the updated graph |
| GraderGraph.RunAllReadOnly | DSA_project/autograder/graph.py:276-290 | a batch without remove or modify queries leaves the graph as it was |
| GraderGraph.RunAllAllPass | DSA_project/autograder/graph.py:276-290 | the pass count reaches the batch size exactly when every answer passes, each checked on the graph the earlier ones left (`AllPass`) |
| GraderGraph.NodesOfSpec | DSA_project/autograder/graph.py:93-100 | a node id is loaded exactly when some node of the file carries it, with the last such node |
| GraderGraph.FindIn | DSA_project/autograder/graph.py:163-168 | the scan of `u`'s list returns the first enabled entry heading to `v` |
| GraderGraph.PathHop | DSA_project/autograder/graph.py:201-215 | one hop of the total loop fails exactly when the specified total fails, and otherwise returns it |
| GraderGraph.PathTotalIn | DSA_project/autograder/graph.py:199-215 | the total loop returns the specified total of the path, or failure |
| GraderGraph.PyGraph.constructor | DSA_project/autograder/graph.py:84-91 | the nodes are those of the file and the edge maps are the load of its edges into empty maps |
| GraderGraph.PyGraph.LoadNodes | DSA_project/autograder/graph.py:93-100 | the node map becomes the file's nodes keyed by id, the edge maps untouched |
| GraderGraph.PyGraph.AddEdge | DSA_project/autograder/graph.py:123-130 | the edge maps become `AddOne` of the old ones |
| GraderGraph.PyGraph.LoadEdges | DSA_project/autograder/graph.py:102-121 | the edge maps become the load of the file's edges onto the old ones |
| GraderGraph.PyGraph.RemoveEdgeUv | DSA_project/autograder/graph.py:132-140 | reports success exactly for a known id and leaves `Disable` of the old maps |
| GraderGraph.PyGraph.ModifyEdge | DSA_project/autograder/graph.py:142-147 | reports success exactly for a known id and leaves `Modify` of the old maps |
| GraderGraph.PyGraph.FindEntry | DSA_project/autograder/graph.py:163-168 | returns the first enabled entry from `u` to `v` |
| GraderGraph.PyGraph.ValidatePath | DSA_project/autograder/graph.py:149-171 | returns exactly `ValidPath` on the current maps |
| GraderGraph.PyGraph.PathTotal | DSA_project/autograder/graph.py:199-215 | returns the specified total of the whole path |
| GraderGraph.PyGraph.ValidateShortestPath | DSA_project/autograder/graph.py:173-235 | returns exactly `Accepts` on the current maps |
| GraderGraph.PyGraph.SortedEqual | DSA_project/autograder/graph.py:257 | two node lists compare equal once sorted exactly when they hold the same elements with the same multiplicities |
| GraderGraph.PyGraph.Verify | DSA_project/autograder/graph.py:237-274 | the verdict and the new maps are `Step` of the old maps |
| GraderGraph.PyGraph.VerifyAll | DSA_project/autograder/graph.py:276-290 | `n` is the shortest of the three lists and the count and final maps are `RunAll` over the first `n` queries |
| GraderGraph.PyGraph.VerifyAt | DSA_project/autograder/graph.py:280-283 | one iteration adds one exactly for a passing answer and leaves what the rest of the batch needs |
| GraderGraph.Min3 | DSA_project/autograder/graph.py:277 | the least of three sizes: no larger than any and equal to one |
| GraderSolvers.View | DSA_project/autograder/solvers.py:44-63 | the arcs of every node follow its adjacency list entry by entry, with the same length |
| GraderSolvers.ViewPre | DSA_project/autograder/solvers.py:59-65 | every arc cost the search uses is defined and non-negative |
| GraderSolvers.DistanceFifo | DSA_project/autograder/solvers.py:62-63 | in distance mode every arc cost is a fixed length, so later departures never arrive earlier |
| GraderSolvers.WalkHopAllowed | DSA_project/autograder/solvers.py:44-57 | every hop of a search walk uses an entry of its node's list that is enabled, of an allowed road type, and heads to an allowed node |
| GraderSolvers.WalkAvoids | DSA_project/autograder/solvers.py:28-57 | a walk from an allowed node never touches a forbidden one |
| GraderSolvers.DijkstraShortestPath | DSA_project/autograder/solvers.py:9-86 | a forbidden end gives no path; no path exactly when the cost is infinite; the source alone at cost 0 for source equal to target; otherwise a path without repeats that is the node list of a shortest walk, and no path only when no walk exists |
| GraderSolvers.SearchFrom | DSA_project/autograder/solvers.py:31-86 | the search between allowed ends returns a shortest walk's nodes and its cost, or nothing exactly when no route exists |
| GraderSolvers.TracedFound | DSA_project/autograder/solvers.py:75-86 | following `prev` back from a reached target and reversing gives a repeat-free path that is the node list of a shortest walk, and `[source]` at cost 0 for the source |
| GraderSolvers.TracedShortest | DSA_project/autograder/solvers.py:75-86 | the walk up the tree to a reached target is a shortest route |
| GraderSolvers.FoundBy | DSA_project/autograder/solvers.py:71-86 | a route arriving at the target's final distance is a shortest one |
| GraderSolvers.FindNearestNode | DSA_project/autograder/solvers.py:92-101 | none exactly for an empty graph, and otherwise a node no farther from the point than any other and strictly nearer than every node before it in the dictionary's iteration order |
| GraderSolvers.EuclidKeys | DSA_project/autograder/solvers.py:120-125 | every node gets a distance key |
| GraderSolvers.RankedFirst | DSA_project/autograder/solvers.py:128-129 | the first of a ranking precedes every other member in `(distance, id)` order |
| GraderSolvers.RankedUnique | DSA_project/autograder/solvers.py:128-129 | a set has only one ranking, so the sort's result is determined |
| GraderSolvers.SliceEnd | DSA_project/autograder/solvers.py:129 | Python's slice end for `[:k]` never exceeds the length |
| GraderSolvers.CollectPairs | DSA_project/autograder/solvers.py:121-125 | the list holds each member once, paired with its key |
| GraderSolvers.PairsPerm | DSA_project/autograder/solvers.py:128 | sorting keeps the list a key-paired list of the same members |
| GraderSolvers.SortedRanked | DSA_project/autograder/solvers.py:128-129 | the ids of the sorted list form the ranking of the members |
| GraderSolvers.RankPairs | DSA_project/autograder/solvers.py:128-129 | the result is the first `k` of the ranking, with Python's slice rules for any `k` |
| GraderSolvers.FoundShortest | DSA_project/autograder/solvers.py:138 | a distance-mode search result is the network distance |
| GraderSolvers.DistanceTo | DSA_project/autograder/solvers.py:138 | the distance to a POI node is the shortest distance when finite and infinite only when no route exists |
| GraderSolvers.ReachStep | DSA_project/autograder/solvers.py:137-140 | one more POI node tried keeps every kept distance exact and every dropped node unreachable |
| GraderSolvers.PairsAdd | DSA_project/autograder/solvers.py:140 | appending a new member with its key keeps the list key-paired |
| GraderSolvers.CollectReached | DSA_project/autograder/solvers.py:136-140 | the kept POI nodes are exactly the reachable ones, each with its shortest distance |
| GraderSolvers.KnnQuery | DSA_project/autograder/solvers.py:103-146 | no POI or an unknown metric gives nothing; euclidean gives the first `k` of the POI nodes ranked by `(distance, id)`; shortest path searches from a nearest node (the first in dictionary order on a tie) and gives the first `k` of the reachable POI nodes ranked by network distance |
| GraderSolvers.SolverRemove | DSA_project/autograder/solvers.py:213-224 | succeeds exactly for a known enabled id, which it disables; nothing else changes |
| GraderSolvers.SolverModify | DSA_project/autograder/solvers.py:226-241 | succeeds exactly for a non-empty patch and a known id, which it patches and enables; otherwise nothing changes |
| GraderSolvers.HandleRemove | DSA_project/autograder/solvers.py:213-224 | the answer and the new maps are `SolverRemove` of the old maps |
| GraderSolvers.HandleModify | DSA_project/autograder/solvers.py:226-241 | the answer and the new maps are `SolverModify` of the old maps |
| GraderSolvers.RemoveAgreement | DSA_project/autograder/graph.py:239-243 | the autograder accepts the solver's removal answer unless the id was already disabled, and both leave the same graph |
| GraderSolvers.EmptyPatchKeeps | DSA_project/autograder/graph.py:28-31 | an empty patch changes no field |
| GraderSolvers.ModifyAgreement | DSA_project/autograder/graph.py:245-249 | the autograder accepts the solver's modify answer unless the patch is empty and the id known, and both leave the same graph unless, in addition, that edge was disabled (the autograder re-enables it, the solver does not) |
| GraderSolvers.HandleShortestPath | DSA_project/autograder/solvers.py:243-262 | the answer is possible exactly when a path is given, which then comes with its cost and is the node list of a shortest walk; impossible between allowed ends only when no route exists |
| GraderSolvers.FirstEnabledIs | DSA_project/autograder/graph.py:163-168 | with one entry per head, the scan finds the entry of any usable hop |
| GraderSolvers.PathCostPrefix | DSA_project/autograder/graph.py:199-215 | the total of the first `n` hops reads only the first `n + 1` nodes |
| GraderSolvers.PathCostStep | DSA_project/autograder/graph.py:202-213 | one more hop adds the cost of the entry it uses |
| GraderSolvers.HopAgrees | DSA_project/autograder/graph.py:202-211 | with one entry per head, the autograder's scan picks the entry a search hop used and charges the cost the search charged |
| GraderSolvers.WalkCostPrefix | DSA_project/autograder/graph.py:199-215 | the autograder's total over the first hops of a walk does not look past them |
| GraderSolvers.ArriveLast | DSA_project/autograder/solvers.py:59-65 | a walk arrives at its prefix's arrival plus the last hop's cost at that time |
| GraderSolvers.LastHopCost | DSA_project/autograder/graph.py:202-211 | the last hop of a walk is the autograder's first enabled entry and costs what the search charged |
| GraderSolvers.WalkCostStep | DSA_project/autograder/graph.py:199-215 | the autograder's total and the walk's arrival grow by the same last hop |
| GraderSolvers.StepChain | DSA_project/autograder/graph.py:202-213 | one more hop gives the named extended total |
| GraderSolvers.WalkCostAgrees | DSA_project/autograder/graph.py:199-215 | with one entry per head, the autograder recomputes exactly the search's arrival for every walk |
| GraderSolvers.WalkCostGrow | DSA_project/autograder/graph.py:199-215 | the same for a walk of at least one hop |
| GraderSolvers.WalkValid | DSA_project/autograder/graph.py:149-171 | the node list of a walk of at least one hop from an allowed source passes `validate_path` |
| GraderSolvers.SelfAccepted | DSA_project/autograder/graph.py:173-235 | with one entry per head, the solver's own shortest path is accepted against its own cost |
| GraderSolvers.WalkAccepted | DSA_project/autograder/graph.py:173-235 | any walk to the target, reported with its arrival, is accepted against that arrival |
| GraderSolvers.TrivialRejected | DSA_project/autograder/graph.py:153-154 | a one-node path is never accepted, so the solver's answer for a source equal to its target fails |
| GraderSolvers.SelfImpossible | DSA_project/autograder/graph.py:187-191 | an impossible answer is accepted against an impossible expectation |
| GraderYen.CrossFromFlag | DSA_project/autograder/graph.py:33-69 | the traversal time of an edge does not depend on its disabled flag |
| GraderYen.HopCostFlag | DSA_project/autograder/solvers.py:186-192 | the cost of a hop does not depend on the edge's disabled flag |
| GraderYen.FirstTo | DSA_project/autograder/solvers.py:184-186 | `eids[0]`: present exactly when some entry heads to `v`, disabled or not, and then the first such entry |
| GraderYen.CandidateCost | DSA_project/autograder/solvers.py:181-192 | the candidate total over the first `n` hops; in time mode never negative |
| GraderYen.CandidateCostFlags | DSA_project/autograder/solvers.py:181-192 | the candidate total is the same on two graphs that differ only in disabled flags |
| GraderYen.FlagsKeep | DSA_project/autograder/solvers.py:167-197 | graphs that differ only in flags resolve the same entries and have the same ready records |
| GraderYen.CandidateTotal | DSA_project/autograder/solvers.py:181-192 | the loop computes the candidate total `CandidateCost` of the whole path |
| GraderYen.Block | DSA_project/autograder/solvers.py:167-176 | disabling the next entry of every accepted path that shares the root keeps the same edge ids and resolvable entries |
| GraderYen.BlockEffect | DSA_project/autograder/solvers.py:167-176 | the recorded ids are distinct, were enabled before, and are exactly the records now disabled; every other record is unchanged |
| GraderYen.BlockStep | DSA_project/autograder/solvers.py:168-176 | each further accepted path only adds disabled flags, and one sharing the root disables its first enabled entry at the spur node |
| GraderYen.BlockCloses | DSA_project/autograder/solvers.py:168-176 | with one entry per head, after blocking, no accepted path sharing the root can leave the spur node by its next hop |
| GraderYen.LastCloses | DSA_project/autograder/solvers.py:168-176 | with one entry per head, the last path sharing the root has its next hop closed once it is blocked |
| GraderYen.DisableCloses | DSA_project/autograder/solvers.py:172-176 | with one entry per head, disabling the first usable entry towards `v` closes the hop |
| GraderYen.Closed | DSA_project/autograder/solvers.py:168-176 | disabling more records keeps a closed hop closed |
| GraderYen.EnableAll | DSA_project/autograder/solvers.py:196-197 | exactly the listed ids are enabled, every other record unchanged |
| GraderYen.EnableUndoesBlock | DSA_project/autograder/solvers.py:167-197 | enabling the blocked ids restores the record map exactly |
| GraderYen.BlockFlags | DSA_project/autograder/solvers.py:167-176 | blocking changes only disabled flags |
| GraderYen.RootsExtend | DSA_project/autograder/solvers.py:163-171 | every accepted path sharing a root of the last path has a next node after the root |
| GraderYen.BlockRoots | DSA_project/autograder/solvers.py:167-176 | the loop over `A` leaves the record map and the recorded ids of `Block`; adjacency and nodes unchanged |
| GraderYen.Unblock | DSA_project/autograder/solvers.py:196-197 | the record map becomes `EnableAll` of the old one over the recorded ids |
| GraderYen.DedupAsWritten | DSA_project/autograder/solvers.py:193 | where the test as written returns, it agrees with the intended one; it raises whenever the heap is not empty |
| GraderYen.DedupCrashes | DSA_project/autograder/solvers.py:193 | with the candidate `[0, 1]` on the heap, a new path `[0, 2, 1]` makes the test as written raise where the intended test lets it in |
| GraderYen.LexTrans | DSA_project/autograder/solvers.py:194 | Python's lexicographic order on node lists is transitive |
| GraderYen.LexTotal | DSA_project/autograder/solvers.py:194 | of two node lists, one is equal to or below the other |
| GraderYen.LexIrrefl | DSA_project/autograder/solvers.py:194 | no node list is below itself |
| GraderYen.TupleTrans | DSA_project/autograder/solvers.py:194-202 | the order on `(cost, path)` tuples is transitive |
| GraderYen.TupleTotal | DSA_project/autograder/solvers.py:194-202 | candidates with different paths are ordered one way or the other |
| GraderYen.PopMin | DSA_project/autograder/solvers.py:202 | `heappop` removes one candidate of the heap, which precedes every one left |
| GraderYen.SpliceToTarget | DSA_project/autograder/solvers.py:180 | the root without its last node plus a repeat-free spur path to the target reaches the target only at its end and keeps the root |
| GraderYen.SpurFirstHop | DSA_project/autograder/solvers.py:178-179 | a spur path of at least one hop leaves the spur node over an enabled entry |
| GraderYen.SpurFresh | DSA_project/autograder/solvers.py:167-180 | with one entry per head, a candidate leaving the spur node over an entry the blocking kept open differs from every accepted path |
| GraderYen.PushKeeps | DSA_project/autograder/solvers.py:193-194 | pushing a fresh candidate with its own total keeps every candidate reaching the target at its total, and none equal to an accepted path |
| GraderYen.SpurCandidate | DSA_project/autograder/solvers.py:178-192 | when the spur search succeeds, the candidate keeps the root, reaches the target only at its end, leaves the spur node over an open entry and comes with its total on the unblocked graph; it fails exactly when the spur node has no route to the target in the blocked graph, and otherwise the candidate is the root plus a repeat-free shortest spur path |
| GraderYen.CandidateOn | DSA_project/autograder/solvers.py:181-192 | the candidate total on the blocked graph is its total on the unblocked one |
| GraderYen.SpurSearch | DSA_project/autograder/solvers.py:178-180 | no splice exactly when the spur node has no route to the target; otherwise the splice is the root plus a repeat-free shortest spur path, reaches the target only at its end and leaves the spur node over an open entry |
| GraderYen.PriceSpur | DSA_project/autograder/solvers.py:180-192 | a spliced path is priced with its candidate total on the unblocked graph; no splice gives no candidate |
| GraderYen.CostedSame | DSA_project/autograder/solvers.py:181-192 | two candidates priced by their totals with the same path are the same candidate |
| GraderYen.SpursPySnoc | DSA_project/autograder/solvers.py:163-192 | appending the spur result of the next index keeps every index's spur result |
| GraderYen.PushesSnoc | DSA_project/autograder/solvers.py:193-194 | one more spur step pushes its candidate exactly when it is found and not yet on the heap |
| GraderYen.Blocked | DSA_project/autograder/solvers.py:167-176 | the records during the search at spur index `i`: resolvable, over the same adjacency |
| GraderYen.SpursPyAt | DSA_project/autograder/solvers.py:163-192 | every spur index of a recorded round has its spur result |
| GraderYen.PushesHold | DSA_project/autograder/solvers.py:193-194 | the spur pushes keep the old heap in front, put every found path on the heap, and add only found candidates |
| GraderYen.FoundInPool | DSA_project/autograder/solvers.py:181-194 | on a heap that prices each path by its candidate total, every found candidate is itself on the heap |
| GraderYen.SpurSplice | DSA_project/autograder/solvers.py:178-180 | what a shortest spur walk found in the blocked graph gives the spliced candidate |
| GraderYen.SpurOnce | DSA_project/autograder/solvers.py:164-197 | one spur index restores the graph; its result is the spur result of the blocked graph (none exactly when no route, else the spliced shortest spur path at its candidate total), and the heap gains that candidate exactly when it holds no entry with its path |
| GraderYen.SpurRound | DSA_project/autograder/solvers.py:163-197 | the spur loop restores the graph and gives one spur result per node of the last path but its end; the new heap is the old one with each found candidate pushed in order unless its path is already there, and holds every found candidate |
| GraderYen.FoundToTarget | DSA_project/autograder/solvers.py:157 | a repeat-free shortest path reaches the target only at its end |
| GraderYen.PoppedShape | DSA_project/autograder/solvers.py:202 | the popped candidate is the least of the heap, and with the rest it makes up the old heap as a multiset |
| GraderYen.PopKeeps | DSA_project/autograder/solvers.py:202-203 | moving a candidate to the answer keeps both invariants, and freshness and distinctness of the answer |
| GraderYen.RestAt | DSA_project/autograder/solvers.py:202 | the heap without its `m`-th entry, entry by entry |
| GraderYen.RestCand | DSA_project/autograder/solvers.py:202 | removing a candidate keeps the heap invariant |
| GraderYen.RestFresh | DSA_project/autograder/solvers.py:202-203 | the popped candidate is new to the answer and the rest stay fresh |
| GraderYen.NextPath | DSA_project/autograder/solvers.py:162-203 | one round restores the graph, records every spur result and the heap after the spur steps, which holds every found candidate; it stops exactly when that heap is empty, and otherwise appends the tuple-least candidate of that heap and keeps the others |
| GraderYen.RoundsPyAt | DSA_project/autograder/solvers.py:162-203 | every pass in the record is a valid pass |
| GraderYen.RoundsPySnoc | DSA_project/autograder/solvers.py:162-203 | a valid pass appended keeps the record valid |
| GraderYen.PyChainStep | DSA_project/autograder/solvers.py:199-203 | a pass that pops a least entry of its heap extends the chain of passes and answers and leaves the rest as the next starting heap |
| GraderYen.PyChainLinks | DSA_project/autograder/solvers.py:199-203 | in the extended record each pass starts from the previous heap minus its popped answer, the least entry of that heap |
| GraderYen.PyChainStop | DSA_project/autograder/solvers.py:199-200 | a pass whose heap is empty closes the chain without a new answer |
| GraderYen.PassRecord | DSA_project/autograder/solvers.py:162-203 | recording a pass keeps the record valid and chained, threads the next heap, and an empty heap closes the record |
| GraderYen.PyStart | DSA_project/autograder/solvers.py:157-161 | before the first pass one answer, an empty heap and an empty record satisfy the loop state |
| GraderYen.MoreExit | DSA_project/autograder/solvers.py:162-205 | on leaving the loop: at most `max(K, 1)` answers, one record per later answer, and one more with an empty heap when it stopped short |
| GraderYen.Pass | DSA_project/autograder/solvers.py:162-203 | one pass restores the graph, adds at most one answer, keeps the first one, and extends the record of passes; an empty heap closes it |
| GraderYen.MorePaths | DSA_project/autograder/solvers.py:162-205 | the outer loop restores the graph, keeps the shortest path first and at most `max(K, 1)` paths, records every pass (each spur result and each heap, every later path the least of its pass's heap), and ends short of `K` only after a pass whose heap was empty |
| GraderYen.YenKShortestPaths | DSA_project/autograder/solvers.py:148-205 | the graph is restored; no path exactly when no route exists; at most `max(K, 1)` paths; the first a repeat-free shortest path, every later one a path to the target with its candidate total; with one entry per head, no path twice; each later path is the tuple-least of its round's heap, every candidate in which is a path to the target priced by its candidate total, and fewer than `K` paths come back only when a round's heap was empty |
| GraderPhase2.CompareLengths | DSA_project/autograder/phase2.py:4-12 | both lists come back sorted as permutations of the inputs, and the result is 1 exactly when the sizes agree and no reported length exceeds its expected partner by more than 0.1 |
| GraderPhase2.AscendingUnique | DSA_project/autograder/phase2.py:5-6 | an ascending list of reals is determined by its multiset, so the sort's result is unique |
| GraderPhase2.MatchOrderFree | DSA_project/autograder/phase2.py:4-12 | the verdict does not depend on the order the lengths came in |
| GraderPhase2.MatchOneSided | DSA_project/autograder/phase2.py:9-11 | the test is one-sided: a reported 5.0 against 5.2 passes, 5.2 against 5.0 fails |
| GraderPhase2.EdgesCard | DSA_project/autograder/phase2.py:60-61 | a path of at most one node has no hop, and a path has at most one hop fewer than nodes |
| GraderPhase2.OverlapCount | DSA_project/autograder/phase2.py:78-85 | the number of paths overlapping path `i` is at most the number of paths |
| GraderPhase2.EdgeSets | DSA_project/autograder/phase2.py:72 | one hop set per path, each the set of its consecutive pairs |
| GraderPhase2.ShareNonNegative | DSA_project/autograder/phase2.py:89-93 | a path no shorter than a positive shortest distance adds a share that is not negative |
| GraderPhase2.DivNonNegative | DSA_project/autograder/phase2.py:91-92 | a non-negative detour over a positive distance is not negative |
| GraderPhase2.ComputePenalty | DSA_project/autograder/phase2.py:64-95 | the division raises exactly for a zero shortest distance and at least one path; otherwise the result is the sum over paths of overlap count times relative detour plus 0.1 |
| GraderPhase2.CountAll | DSA_project/autograder/phase2.py:75-85 | `overlap_counts[i]` is the number of paths overlapping path `i`, for every `i` |
| GraderPhase2.CountOverlaps | DSA_project/autograder/phase2.py:79-85 | the inner loop counts the paths overlapping path `i` |
| GraderPhase2.SelfCounted | DSA_project/autograder/phase2.py:79-85 | a path with a hop counts itself once the threshold is below 100 |
| GraderPhase2.NoHopsNoCount | DSA_project/autograder/phase2.py:80-81 | a path without hops gets the count 0 |
| GraderPhase2.PenaltyNonNegative | DSA_project/autograder/phase2.py:87-95 | with a positive shortest distance no longer than any path, the penalty is not negative |
| GraderPhase2.OverlapAsymmetric | DSA_project/autograder/phase2.py:82-84 | overlap is measured against the hops of path `i`: `[0, 1]` overlaps `[0, 1, 2]` at threshold 60 but not the other way round |
| GraderPhase3.SetArc | DSA_project/autograder/phase3.py:18-20 | `setdefault(u, {})[v] = w` adds `u` to the keys and nothing else |
| GraderPhase3.LoadGraphTime | DSA_project/autograder/phase3.py:6-23 | raises exactly when some edge lacks the weight; otherwise the node set is the file's ids, the dictionary is the edge load over an empty entry per node, and its keys are the nodes plus every arc tail |
| GraderPhase3.NodeEntries | DSA_project/autograder/phase3.py:9-12 | an empty entry per node, the node set being exactly those ids |
| GraderPhase3.AddEdges | DSA_project/autograder/phase3.py:13-20 | the edge loop computes `EdgesInto` and raises exactly when some edge lacks the weight |
| GraderPhase3.LastProvider | DSA_project/autograder/phase3.py:13-20 | the index of the last edge providing `u -> v` lies within the list |
| GraderPhase3.LastProviderIsLast | DSA_project/autograder/phase3.py:13-20 | that edge provides the arc and no later one does; with none, no edge provides it |
| GraderPhase3.SetArcArc | DSA_project/autograder/phase3.py:18 | writing one arc changes that arc and no other |
| GraderPhase3.EdgeArc | DSA_project/autograder/phase3.py:18-20 | one weighted edge sets the arcs it provides to its weight and leaves every other arc |
| GraderPhase3.EdgesIntoArc | DSA_project/autograder/phase3.py:13-20 | after loading, each arc carries the weight of the last edge providing it, or its old value when none does |
| GraderPhase3.EdgesIntoKeys | DSA_project/autograder/phase3.py:13-22 | loading adds exactly the arc tails to the keys (a one-way edge's head is not keyed unless it is a node) |
| GraderPhase3.OrdersFromOk | DSA_project/autograder/phase3.py:30-40 | the order map is built exactly when every order has an id, a pickup and a dropoff and no id repeats |
| GraderPhase3.OrdersFromMap | DSA_project/autograder/phase3.py:30-40 | the map keeps what it held, holds exactly the given ids, and maps each to its pickup and dropoff |
| GraderPhase3.UnknownNodeIn | DSA_project/autograder/phase3.py:54-56 | none exactly when every route node is known, otherwise a route node outside the node set |
| GraderPhase3.BadHopIn | DSA_project/autograder/phase3.py:57-60 | none exactly when every hop is an arc, otherwise a hop of the route missing from the dictionary |
| GraderPhase3.RouteFailure | DSA_project/autograder/phase3.py:54-60 | a route passes exactly when all its nodes are known and all its hops are arcs |
| GraderPhase3.CountIds | DSA_project/autograder/phase3.py:61-64 | counting succeeds exactly when every assigned id is an order, keeping the order ids as keys |
| GraderPhase3.CountIdsCounts | DSA_project/autograder/phase3.py:61-64 | each order's count grows by its number of occurrences among the assigned ids |
| GraderPhase3.FirstIndex | DSA_project/autograder/phase3.py:78 | the first position of the route holding `x` |
| GraderPhase3.FirstFrom | DSA_project/autograder/phase3.py:79-83 | the first position from `j` on holding `x`, or none when no later position does |
| GraderPhase3.ServedFirst | DSA_project/autograder/phase3.py:74-83 | both nodes are on the route with a dropoff visit after the first pickup visit exactly when the route visits the dropoff after the pickup |
| GraderPhase3.OrderPenaltiesOk | DSA_project/autograder/phase3.py:72-84 | the penalty loop succeeds exactly when the route serves every assigned order |
| GraderPhase3.AssignStep | DSA_project/autograder/phase3.py:49-84 | a successful assignment keeps the order ids as coverage keys |
| GraderPhase3.AssignStepOk | DSA_project/autograder/phase3.py:49-84 | an assignment passes exactly when its route is a list of known nodes along arcs and it serves every assigned known order, and then adds the assignment's occurrences to the coverage |
| GraderPhase3.Scan | DSA_project/autograder/phase3.py:47-84 | the assignments scan keeps the order ids as coverage keys |
| GraderPhase3.ScanOk | DSA_project/autograder/phase3.py:47-84 | the scan succeeds exactly when every assignment passes, and then each order's coverage is its number of occurrences across the assignments |
| GraderPhase3.VerifyPasses | DSA_project/autograder/phase3.py:26-91 | an answer passes exactly when the orders are present and well formed, the assignments are a list of passing assignments and every order is assigned exactly once |
| GraderPhase3.PrefixNonNegative | DSA_project/autograder/phase3.py:65-68 | with non-negative weights every prefix time is not negative |
| GraderPhase3.OrderPenaltiesGrow | DSA_project/autograder/phase3.py:72-84 | with non-negative weights the penalty only grows |
| GraderPhase3.ScanNonNegative | DSA_project/autograder/phase3.py:47-84 | with non-negative weights the scanned penalty is not negative |
| GraderPhase3.PenaltyNonNegative | DSA_project/autograder/phase3.py:26-91 | with non-negative weights a passing answer's penalty is not negative |
| GraderPhase3.IndicesAre | DSA_project/autograder/phase3.py:69-71 | every recorded position of `x` holds `x` |
| GraderPhase3.IndicesHave | DSA_project/autograder/phase3.py:69-71 | every position holding `x` is recorded |
| GraderPhase3.IndicesSorted | DSA_project/autograder/phase3.py:69-71 | the positions are recorded in increasing order |
| GraderPhase3.IndicesNone | DSA_project/autograder/phase3.py:69-71 | a node not on the route has no positions |
| GraderPhase3.Above | DSA_project/autograder/phase3.py:79-80 | the comprehension keeps exactly the positions after the pickup |
| GraderPhase3.AboveHeadLeast | DSA_project/autograder/phase3.py:79-83 | over increasing positions, the first kept one is the least |
| GraderPhase3.PickupIndex | DSA_project/autograder/phase3.py:78 | `node_positions[pickup][0]` is the first position of the pickup |
| GraderPhase3.DropIndex | DSA_project/autograder/phase3.py:79-83 | the dropoff positions after `k` are empty exactly when no later visit exists, and otherwise start with the first later visit |
| GraderPhase3.BuildOrderMap | DSA_project/autograder/phase3.py:30-40 | the loop builds `OrdersFrom`, failing at the first bad order |
| GraderPhase3.CheckRoute | DSA_project/autograder/phase3.py:54-60 | the node loop then the hop loop return `RouteFailure` |
| GraderPhase3.CountAssigned | DSA_project/autograder/phase3.py:61-64 | the counting loop returns `CountIds` |
| GraderPhase3.PrefixTimes | DSA_project/autograder/phase3.py:65-68 | `prefix[i]` is the travel time from the start of the route to position `i` |
| GraderPhase3.NodePositions | DSA_project/autograder/phase3.py:69-71 | the keys are the route's nodes and each maps to all its positions in increasing order |
| GraderPhase3.PenaltyOf | DSA_project/autograder/phase3.py:73-84 | one order's step read off the positions and the prefix array is `OrderStep` |
| GraderPhase3.AddPenalties | DSA_project/autograder/phase3.py:72-84 | the order loop returns `OrderPenalties` |
| GraderPhase3.CheckAssignment | DSA_project/autograder/phase3.py:50-84 | one iteration returns `AssignStep` |
| GraderPhase3.ScanFailSticks | DSA_project/autograder/phase3.py:49-84 | a failing assignment decides the scan whatever follows |
| GraderPhase3.ScanAssignments | DSA_project/autograder/phase3.py:47-84 | the loop returns `Scan`, stopping at the first failure |
| GraderPhase3.VerifyAssignments | DSA_project/autograder/phase3.py:26-91 | returns exactly `Verify` of the event and the answer |
| GraderUtils.Times | DSA_project/autograder/utils.py:77-81 | one processing time per record, in order, each the record's own field |
| GraderUtils.ComputeTotalProcessingTime | DSA_project/autograder/utils.py:73-82 | -1 for an output that is not a dictionary or has a record without a processing time; otherwise the sum of the records' times (0 for no results) |
| GraderUtils.Append | DSA_project/autograder/utils.py:95-107 | appending edges never adds or drops a node's list |
| GraderUtils.AppendOne | DSA_project/autograder/utils.py:96-107 | one edge appends its entry to the list of `u`, and to the list of `v` unless one-way, leaving every other list |
| GraderUtils.AppendFails | DSA_project/autograder/utils.py:105-107 | loading raises exactly when some edge names an endpoint with no list that it appends to |
| GraderUtils.AppendEntries | DSA_project/autograder/utils.py:95-107 | a node's final list is its initial list followed by the entries the edges give it, in file order |
| GraderUtils.LoadGraph | DSA_project/autograder/utils.py:86-109 | the loop returns `Append` over an empty list per node id |
| GraderUtils.LoadedGraph | DSA_project/autograder/utils.py:86-109 | the loaded lists are keyed by exactly the node ids, each holding the entries its edges give it, the weight defaulting to 1.0; loading fails exactly on a dangling endpoint |
| GraderUtils.FirstTo | DSA_project/autograder/utils.py:158-162 | the position of the first entry leading to `v`, or none when no entry does |
| GraderUtils.FirstLength | DSA_project/autograder/utils.py:157-162 | the inner loop finds an entry exactly when one leads to `v`, and takes the length of the first |
| GraderUtils.FirstToIs | DSA_project/autograder/utils.py:158-162 | a position leading to `v` with none before it is the first |
| GraderUtils.ComputePathLength | DSA_project/autograder/utils.py:147-167 | returns the path's length through first matching entries, -1 when a hop has no entry, 0 for a path of at most one node |
| GraderUtils.NonePersists | DSA_project/autograder/utils.py:164-165 | a prefix without a length leaves the whole path without one |
| GraderUtils.PathLengthNone | DSA_project/autograder/utils.py:153-165 | a path has no length exactly when some hop has no entry |
| GraderUtils.PathLengthNonNegative | DSA_project/autograder/utils.py:147-167 | with non-negative lengths a path's length is not negative, so -1 is never a length |
| GraderUtils.ArcsOf | DSA_project/autograder/utils.py:126-128 | the adjacency lists seen as arcs with fixed usable weights, keys and positions kept |
| GraderUtils.ArcsOfFixed | DSA_project/autograder/utils.py:126-132 | with non-negative lengths the arcs are fixed, non-negative and first-in-first-out |
| GraderUtils.ArcsOfPre | DSA_project/autograder/utils.py:126-132 | with non-negative lengths the arcs meet the search's precondition |
| GraderUtils.PathWalk | DSA_project/autograder/utils.py:147-167 | a priced path is a walk of the arcs visiting exactly its nodes at the same total |
| GraderUtils.LastHop | DSA_project/autograder/utils.py:158-162 | the hop of a priced path's last step leaves its second-last node and leads to its last |
| GraderUtils.LastHopWalk | DSA_project/autograder/utils.py:153-162 | a walk along all but the last node extends by that hop to a walk along the whole path |
| GraderUtils.WalkSnoc | DSA_project/autograder/utils.py:126-128 | a walk extends by any entry out of its last node, visiting that entry's head next |
| GraderUtils.LastHopArrive | DSA_project/autograder/utils.py:153-162 | extending by the last hop adds its length, giving the whole path's length |
| GraderUtils.WalkInside | DSA_project/autograder/utils.py:126-128 | when every entry leads to a keyed node, walks stay within the keys |
| GraderUtils.Dijkstra | DSA_project/autograder/utils.py:112-144 | infinity exactly when the target cannot be reached; otherwise the distance of a walk to the target that no walk beats, 0 from a node to itself, and no more than the length of any priced path between the two |
| Phase1Graph.ApplyPatch | DSA_project/Phase-1/graph.cpp:102-120 | the patch steps compute `PatchEdge`: rejected at the first length or average time at most 0, otherwise the patched edge |
| Phase1Graph.ReplaceLive | DSA_project/Phase-1/graph.cpp:84-94 | erasing a live edge's entries and attaching the patched edge keeps the store consistent, gives the id exactly the new entries and keeps every other entry |
| Phase1Graph.ReplaceRestore | DSA_project/Phase-1/graph.cpp:95-100 | attaching a patched tombstoned edge and clearing its tombstone keeps the store consistent, gives the id exactly the new entries and keeps every other entry |
| Phase2Graph.ApplyPatch | DSA_project/Phase-2/graph.cpp:85-93 | the patch steps compute `PatchEdge` |
| Phase2Graph.PruneTarget | DSA_project/Phase-2/graph.cpp:126-134 | the kept entries are those not leading to `v`, and something was removed exactly when some entry led to `v` |
| EdgeStore.TombstoneOk | DSA_project/Phase-1/graph.cpp:65-74 | tombstoning a live edge keeps the store consistent and keeps exactly the entries with other ids |
| EdgeStore.ReplaceAfter | DSA_project/Phase-1/graph.cpp:122-124 | re-attaching and re-indexing an edge whose id has no entries gives a consistent store holding exactly the new entries for the id and every other entry unchanged |
| CppCost.SlotBracket | DSA_project/Phase-1/algorithms.cpp:19-26 | the metres one slot allows lie between the slowest and the fastest profile speed times the seconds left in the slot |
| CppCost.EdgeCovers | DSA_project/Phase-1/algorithms.cpp:14-38 | the seconds the slot loop spends on an edge, at the slowest profile speed, cover at most its length, and at the fastest at least its length |
| Approx.SearchLoop | DSA_project/Phase-2/approx.cpp:62-105 | the main loop returns -1 or the non-negative length of a route from the source to the target; every expanded node is a node, none twice; a result other than -1 was found within the time budget; under bounded lengths -1 means no route or a last reading over the limit |
| Approx.Rounds | DSA_project/Phase-2/approx.cpp:62-102 | the pop rounds keep scores witnessed by walks and the queue consistent; the target is found only with a finite score; a non-empty queue without a find means the budget ran out; an empty queue without a find means, under bounded lengths, that no route reaches the target |
| Delivery.InitFlags | DSA_project/Phase-3/delivery.cpp:70-76 | the first loop leaves one flag per order id in each map, every one unset, which is the flag state before any stop of the route is scanned |
| Engine.RelaxOut | DSA_project/Phase-1/algorithms.cpp:87-105 | relaxing the settled node's entries in order, skipping unusable ones and improving a target on `dist[u] + w < dist[v]`, restores the loop invariant: every finite distance is the cost of a recorded route, the queue holds an entry for every open improved node, and settled distances are shortest |
| Engine.Visit | DSA_project/Phase-1/algorithms.cpp:80-105 | settling the node of a least queue entry and relaxing its entries keeps the loop invariant and grows the settled set by exactly that node, within the node set |
| Yen.IsolateMap | DSA_project/Phase-2/kshortest.cpp:80-89 | the loop over the copy's adjacency computes `IsolateAdj`: the node's own list emptied and every entry into the node erased, every other list kept |
| Sorting.SortBy | DSA_project/Phase-1/algorithms.cpp:141 | the result is ordered by the comparison and is a permutation of the input |
| Sorting.TakeIds | DSA_project/Phase-1/algorithms.cpp:143 | the ids of the first `min(k, n)` items, in order, and none for `k <= 0`, as the signed size compare gives |
| Approx.RelaxScores | DSA_project/Phase-2/approx.cpp:87-100 | one entry of the relaxation loop: when its target is open and `g[u] + length` beats the target's score, the target's g-score and weighted f-score are set and `(f, v)` is pushed; otherwise scores and queue are unchanged |
| Phase2Graph.Graph.NearestNodeByEuclid | DSA_project/Phase-2/graph.cpp:113-120 | -1 when no node lies strictly within distance 1e18 (in particular for no nodes), or when node -1 is itself a nearest one; otherwise an id of least distance, within the bound |

## Left out

- File and JSON I/O: every `loadFromJson`, the Phase-3 `load_graph` and binary `load_precomputed`, and `json.load` in the autograder. The model builds graphs from sequences of already-parsed records, and the travel-time table is an input map.
- The drivers and graders that only dispatch and log: `SampleDriver.cpp`, `SamplerDriver.cpp`, Phase-3 `main.cpp`, `autograder.py`, `phase1.py`, the `test_p2_task_*` and `test_p3_task_1` functions, `run_command`, `test_files`, `load_json`, `save_json` and the `__main__` blocks.
- Logging calls (`logger.error` and the like) have no effect on results, so they are dropped.
- Wall-clock time in `approx.cpp`: the clock is an input sequence of readings, one per check, so the model proves nothing about latency.
- Square roots: `sqrt` and `hypot` distances are squared distances where only the ranking matters. The A* heuristic uses an input `sqrt` function that is non-negative on non-negative arguments.
- The `atan2`/`acos` sector and zone arithmetic of `balanced_cluster` and of the precompute `main` is not modelled. It is an input function `sectorOf`; the model clamps its result to the sector range as the code does.
- Floating point: doubles are exact `real`s, with no rounding, overflow, infinity or NaN. Python's `float('inf')` and C++'s 1e18 are `Inf`, or the named sentinel.
- Iteration order of `std::unordered_map`, `unordered_set` and Python sets: the model fixes no order, and its proofs hold for every order.
- Ties: on ties the model fixes no winner when popping a priority queue, when `std::sort` orders knn results, or when `nearestNodeByEuclid` scans its `unordered_map`. Where the code's tie-break is observable (the first strict minimum in the dictionary order of `find_nearest_node`, Python's tuple order), that tie-break is modelled.
- C++ integer widths: node ids are unbounded `int`s. Only the 64-bit packing in `calculate_edge_overlap` is modelled bit for bit; for ids outside the 32-bit range the model applies the same packing formula to the unbounded value instead of first truncating it.
- Python dynamic typing: JSON values carry the shapes the code reads, and "not a list" or "not a dict" is a constructor of its own. A record missing a key is an `Option` field.
- GraderEdge.ApplyPatch: Python's `hasattr`/`setattr` would also set any other attribute a patch names, such as `disabled` or `u`. The model sets only the four patch fields the autograder's patches carry (`length`, `average_time`, `speed_profile`, `road_type`), and `oneway` is ignored as in the code.
- GraderPhase2.CompareLengths: the sort happens in place on the caller's lists in the code. The model returns the sorted lists, so it does not capture aliasing.
- GraderUtils.Dijkstra: the code reconstructs a path and discards it (lines 137-142). Only the returned distance is modelled.
- GraderYen.YenKShortestPaths: the code disables only the next edge of each root-sharing path and never removes the root nodes. So, unlike the C++ Yen, a spur path may revisit a root node, and the model proves no looplessness for the autograder's Yen.
- GraderPhase3.VerifyAssignments: `missing` and `multiple` are Python lists in dictionary order; the model keeps them as sets of order ids.
- GraderEdge.CrossAsWritten: the as-written `get_cross_time` loop need not end (see Findings). It is modelled with a `fuel` bound, and running out of fuel gives `None`; the corrected `CrossTime` terminates without fuel.
- GraderEdge.GetCrossTime: it is the corrected loop, which measures the time to the next slot boundary from the absolute slot `current_time // 900`. The code as written measures it from the wrapped slot index. The two agree while the clock is between 0 and `slot_count · 900` seconds (GraderEdge.AsWrittenWithinLap proves it), and they differ outside that range (GraderEdge.NegativeStepExample). The model keeps the corrected loop, because the loop as written need not end. So every time-mode cost built on it uses the corrected crossing, and not the crossing the code as written produces. These members are GraderGraph.HopCost, GraderGraph.PathCost, GraderGraph.PathHop, GraderGraph.PathTotalIn, GraderGraph.PyGraph.PathTotal, GraderGraph.PyGraph.ValidateShortestPath, GraderGraph.PyGraph.Verify and GraderGraph.PyGraph.VerifyAll; GraderSolvers.DijkstraShortestPath and GraderSolvers.HandleShortestPath in time mode; and GraderYen.CandidateCost, GraderYen.CandidateTotal and GraderYen.YenKShortestPaths.
- GraderSolvers.DijkstraShortestPath: requires `target in nodes` and that every adjacency entry leads to a known node (`Known`). Without these the code raises `KeyError` at `dist[v]` (solvers.py:66) or `dist[target]` (solvers.py:72). The model does not model the exception.
- GraderSolvers.DijkstraShortestPath: when `source` is not a node of the graph and some other target is reached, the path reconstruction raises `KeyError` at `prev[source]` (solvers.py:32, 80), because `prev` has keys only for the graph's nodes. The model treats the source as one more node (`nodes.Keys + {source}`) and returns the path.
- GraderSolvers.DijkstraShortestPath, GraderSolvers.HandleShortestPath, GraderSolvers.KnnQuery and GraderYen.YenKShortestPaths: these searches require `CostsReady`. That means non-negative lengths in distance mode, and every record `Ready` in time mode, even records the search never relaxes. The code runs on any numbers, but with a negative cost a label-setting search can return a cost that is not the least, so the model states nothing for such graphs. (The checks of a submitted answer, GraderGraph.Accepts and the members built on it, need readiness only of the records the answer's path crosses.)
- GraderGraph.HopReady: in time mode a crossed record whose profile has no positive slot and whose length is positive makes `get_cross_time` loop forever. So checking an answer requires every record the total loop reaches to be crossable (`CrossOk`), and a batch requires this of each answer on the graph the earlier updates leave (`BatchOk`). A run that would hang is outside the model.
- GraderEdge.CrossTime: a start clock before midnight, which a negative `average_time` earlier on a path produces, uses the same corrected rule. The slot index is `floor(t / 900)` modulo the profile length, as Python's `//` and `%` compute it, and the boundary is that of the absolute slot.
- GraderSolvers.FindNearestNode: the dictionary's insertion order is an input sequence `order` that lists each key once, because the map type has no order of its own. GraderSolvers.KnnQuery takes the same input.
- GraderUtils.Dijkstra: requires that every entry leads to a node of the graph (`ClosedUnder`), that source and target are nodes (utils.py:115-134 raises `KeyError` otherwise), and non-negative lengths. With a negative length the visited-set search can return a cost that is not the least, and the model proves nothing for that case.
- Phase1Algorithms.CostsOk: the C++ searches (`dijkstra`, `knn`, Yen's and the heuristic k-paths, and the weighted A* search) require non-negative lengths and, in time mode, usable profiles. `loadFromJson` accepts any numbers, and with a negative length a label-setting search can return a cost that is not the least, so the model states nothing for such graphs.
- Delivery.BalancedCluster: requires `drivers >= 0`, and `drivers >= 1` unless no order is kept. A negative count makes `vector(drivers)` throw (delivery.cpp:205, 217, 257). Zero drivers with kept orders index an empty grid row (delivery.cpp:254) and take `round_robin % 0` (delivery.cpp:287), which is undefined behaviour.
- Approx.WeightedAStar: the answer is not proved to be within a factor `1 + ε` of the shortest route. The search closes nodes and never reopens them, and the heuristic is not shown to be admissible, so only soundness (a real route of the returned length) and completeness are proved.
- Approx.WeightedAStar: completeness is proved when every length is at most some `M` with `(|nodes| + 1) · M < 1e18` (`Short`). The code drops a relaxation whose tentative score is not below the 1e18 sentinel, so with longer crossings a reachable target can come back as -1.
- Heap layout: `heapq` lists and `std::priority_queue` are modelled as sets or multisets of entries, and only the pop order is modelled.
- Concurrency: none exists in the core.

## Findings

| source | as written | input that shows it | evidently intended | confidence | as-written member | corrected member |
|---|---|---|---|---|---|---|
| DSA_project/autograder/graph.py:46-54 | the next boundary is `(slot_index + 1) * 900 - current_time`, with `slot_index` reduced modulo the profile length, so once the clock passes the end of the profile the step is negative | a 10 000 m edge, profile `[1, 10]` m/s, departure 900 s: the slot step from 1800 s goes back 900 s and the result is 190 s, shorter than even 10 m/s allows | the boundary of the absolute slot, `(floor(t / 900) + 1) * 900`, giving 1810 s | high (not executed) | GraderEdge.NegativeStepExample | GraderEdge.CrossTimeSpec |
| DSA_project/autograder/solvers.py:193 | the duplicate test reads `p["path"]` from the `(cost, path)` tuples held in `B` | a second spur candidate `[0, 2, 1]` found while `(1.0, [0, 1])` is in `B`: indexing a tuple by a string raises `TypeError` | test whether some candidate's path equals the new path | high (not executed) | GraderYen.DedupCrashes | GraderYen.YenKShortestPaths |
| DSA_project/Phase-1/graph.cpp:84-111 | the old adjacency entries (live edge) or the tombstone (removed edge) are erased before the patch is checked, and a rejected patch returns `false` without undoing that | modifying a live two-way edge with `{"length": -1}`: the call fails, the edge stays in `edge_by_id` with no adjacency entries, and the store's invariant is broken | check the patch first, so that a rejected modify changes nothing | medium (not executed) | Phase1Graph.DetachedStateExample | Phase1Graph.ModifyCheckedSpec |
| DSA_project/Phase-2/kshortest.cpp:14-16 | the packing ORs `(long long)u << 32` with `v`, and a negative `v` is sign-extended over the upper half | the paths `[1, -1]` and `[2, -1]` share no hop, yet both hops encode to -1, so the overlap is 100 | pack `v` as an unsigned 32-bit value, which is injective on pairs of 32-bit ids | low (not executed) | Overlap.OverlapCollision | Overlap.OverlapSpec (the heuristic itself keeps the packing as written; Overlap.OverlapAgrees and Heuristic.KeptSpreadIntended show the two agree on non-negative ids) |
