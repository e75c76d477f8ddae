# Dijkstra's shortest paths and the nearest end node, in Dafny

This project models `dijkstra.py`, a small Python module with two functions:

- `dijkstra(graph, start)` computes the distance from `start` to every node of
  a weighted graph. The graph is an adjacency dictionary. The search uses a
  `heapq` frontier of `(distance, node)` pairs. It starts with every node at
  infinity and `start` at 0. It pops a least-distance pair and relaxes each
  neighbour of the popped node. A neighbour's distance is replaced, and the
  neighbour pushed, only when the candidate `distance + weight` is strictly
  smaller. Stale pairs stay in the heap and are expanded again when popped.
- `dijkstra_shortest_path_to_end_nodes(graph, start, end_nodes)` runs the
  search and keeps the end nodes that are keys of the distance table. It then
  returns the first of them with least distance, together with that distance.

The model is split into three modules:

- `Graphs` (`graphs.dfy`) holds the data model and the specification. A
  `Graph<N>` is `map<N, map<N, nat>>` over a node type `N`. The source's
  nodes are strings (`start (str)`, line 36), which `heapq` can order.
  `Dist` is `Inf` or `Fin(n)`. A distance `Table<N>` is `map<N, Dist>`. A path is a node sequence
  joined by edges, and `Weight` is its total edge weight. `ShortestTable` says
  a table is *the* answer: the graph's keys, 0 at the start, every finite
  entry the weight of some path (`Sound`), and no path lighter than the entry
  of its end node (`Optimal`).
- `ShortestPaths` (`dijkstra.dfy`) holds the two operations. The frontier is a
  `multiset<Entry<N>>`. `PopMin` removes some entry of least distance, and
  `Relax` is the loop over the popped node's neighbours. `Dijkstra` is the
  outer `while` loop, and `ShortestPathToEndNodes` is the end-node query.
- `Fixture` (`fixture.dfy`) is the module-level example graph and its
  end-node list. It proves that the query from `A` returns `H` at 15.

Python exceptions become results. A `KeyError` from `graph[current_node]` or
`distances[neighbor]` becomes `Failure(KeyError)`. The `ValueError` of `min`
over an empty mapping becomes `Failure(ValueError)`. `Dijkstra` succeeds
exactly when every node reachable from `start` is a key of the graph
(`ClosedFrom`); `start` itself counts. When it succeeds, its table is sound
and optimal. The search terminates even though stale entries are
re-expanded: the loop's `decreases` clause is the set of nodes still at
infinity, then the set of pairs `(u, k)` with `k` below `u`'s finite distance,
then the frontier size. Every push lowers some node's distance strictly, so
each expansion shrinks this measure.

The loop invariant (`Inv`) does not rely on popping a minimum. It says that
every finite node either still has its exact `(distance, node)` entry in the
frontier or has all its out-edges relaxed. So when the frontier is empty, no
edge can improve the table, and `RelaxedIsOptimal` turns that into
optimality. `ShortestUnique` shows that at most one table meets the
specification. Therefore neither the choice among equal minima nor the order
of neighbours changes the result.

## Model

| member | source | states |
|---|---|---|
| `Graphs.ExtendPath` | dijkstra.py:54-56 | following an edge from the end of a path gives a path whose weight is the old weight plus that edge's weight, the candidate `current_distance + weight` |
| `Graphs.AchievableExtend` | dijkstra.py:54-60 | if some path reaches `u` with weight `d`, then some path reaches each neighbour `v` with weight `d + weight(u, v)` |
| `Graphs.EscapeNotClosed` | dijkstra.py:54-59 | a node reached by a path that has a neighbour outside the graph's keys shows that not everything reachable is a key, which is the `distances[neighbor]` KeyError |
| `Graphs.StartMissingNotClosed` | dijkstra.py:42-54 | a start that is not a key of the graph already violates closedness, the `graph[start]` KeyError after line 43 added it to the table |
| `Graphs.ClosedIsClosedFrom` | dijkstra.py:54-59 | if every neighbour in the graph is a key and the start is a key, every node reachable from the start is a key |
| `Graphs.RelaxedBoundsPath` | dijkstra.py:28-31 | if a table holds 0 at the start and no out-edge of a finite node can improve it, then every path from the start ends at a table node whose entry is at most the path's weight |
| `Graphs.RelaxedIsOptimal` | dijkstra.py:38-39 | the table-wide form: such a table is optimal |
| `Graphs.ShortestReachability` | dijkstra.py:42-49 | in a sound and optimal table, an entry is finite exactly when its node is reachable from the start, so unreachable nodes keep infinity |
| `Graphs.ShortestUnique` | dijkstra.py:49-62 | two tables that both meet the shortest-table specification are equal, so the result does not depend on which least entry is popped or on neighbour order |
| `ShortestPaths.MinimumExists` | dijkstra.py:51 | every non-empty frontier has an entry whose distance is no larger than any other entry's |
| `ShortestPaths.PopMin` | dijkstra.py:51 | the popped entry is in the frontier and its distance is no larger than that of any frontier entry |
| `ShortestPaths.Relax` | dijkstra.py:53-62 | each neighbour ends at the smaller of its old distance and the candidate. Non-neighbours keep theirs. Exactly one entry is pushed per strictly improved neighbour, carrying the new distance, and nothing else is pushed |
| `ShortestPaths.RelaxationLowers` | dijkstra.py:59-60 | relaxation never raises a distance, so table entries are non-increasing throughout the loop |
| `ShortestPaths.ImprovedAchievable` | dijkstra.py:56-62 | a strictly improved neighbour gets the candidate distance, and some path from the start has exactly that weight |
| `ShortestPaths.MeasureDecreases` | dijkstra.py:49-62 | a table that changed and only went down is smaller in the lexicographic order: nodes at infinity first, then pairs below finite distances |
| `ShortestPaths.StepDecreases` | dijkstra.py:49-62 | one expansion either lowers that measure or pushes nothing and leaves the frontier minus the popped entry, so the loop terminates |
| `ShortestPaths.InitialInv` | dijkstra.py:42-46 | the table with every key at infinity and the start at 0, with frontier `{(0, start)}`, satisfies the loop invariant |
| `ShortestPaths.StepFrontier` | dijkstra.py:51-62 | after an expansion, every frontier entry, stale or not, is at least its node's table entry and is the weight of some path from the start |
| `ShortestPaths.StepTableImproved` | dijkstra.py:59-62 | a node whose distance the expansion lowered is in the new frontier with its new distance, and that distance is a path weight |
| `ShortestPaths.StepTableExpanded` | dijkstra.py:53-62 | expanding an entry that was exact for its node leaves every out-edge of that node relaxed |
| `ShortestPaths.RelaxedStays` | dijkstra.py:59-60 | an out-edge already relaxed stays relaxed when distances only go down and its source keeps its distance |
| `ShortestPaths.StepTable` | dijkstra.py:49-62 | after an expansion, every finite entry is a path weight and either waits in the frontier as an exact entry or has all out-edges relaxed |
| `ShortestPaths.StepPreserves` | dijkstra.py:49-62 | one pop plus relaxation preserves the whole loop invariant, including the start staying at 0 |
| `ShortestPaths.DanglingNotClosed` | dijkstra.py:54-59 | a popped node with a neighbour missing from the table shows that some reachable node is not a key of the graph |
| `ShortestPaths.InvAtExit` | dijkstra.py:49-64 | with the frontier empty, the invariant gives a shortest table: finite exactly at reachable nodes, and every reachable node is a key |
| `ShortestPaths.Dijkstra` | dijkstra.py:27-64 | terminates. Fails, always with KeyError, exactly when some node reachable from the start is not a key of the graph. On success the table has exactly the graph's keys and maps the start to 0. Every finite entry is the weight of a path, no path is lighter than its end node's entry, and entries are finite exactly at reachable nodes |
| `ShortestPaths.FirstNearestUnique` | dijkstra.py:84-87 | at most one end node is the first one of least distance |
| `ShortestPaths.NearestEndNode` | dijkstra.py:84-88 | no result exactly when no end node is a key of the table. Otherwise the result is a kept end node whose distance is at most every kept end node's, and strictly below every kept end node listed before it |
| `ShortestPaths.ShortestPathToEndNodes` | dijkstra.py:66-90 | succeeds exactly when the search succeeds and some end node is a key of the graph; fails with KeyError exactly when the search does, otherwise with ValueError. The node is an end node and a key of the graph, is the first nearest under the shortest table, and comes with that table's distance. The distance is finite exactly when the node is reachable |
| `Fixture.ExpectedTableSound` | dijkstra.py:93-105 | every distance of the expected example table (E = 10, H = 15, G = 17, ...) is the weight of a path from `A` |
| `Fixture.ExpectedRelaxedAt` | dijkstra.py:93-105 | no edge of the example graph improves the expected table |
| `Fixture.ExpectedTableIsShortest` | dijkstra.py:93-105 | the expected table is the shortest table of the example graph from `A` |
| `Fixture.NearestIsH` | dijkstra.py:107-108 | under that table, `H` is the only first nearest end node among `G, H, I, J, K` |
| `Fixture.NearestExampleEndNode` | dijkstra.py:107-111 | the query from `A` on the example returns `H` with distance 15 |

## Left out

- Floating point: weights are `nat` and infinity is the `Inf` constructor. Real-valued and negative weights are not modelled.
- `heapq` internals: the binary-heap layout and the tuple order that breaks distance ties by node name. `PopMin` may take any least-distance entry. `ShortestUnique` shows that the table does not depend on this choice.
- Dictionary iteration order of a node's neighbours: `Relax` visits them in any order. Each neighbour is compared once against its own entry, so the per-node result is the same in every order.
- ShortestPaths.Dijkstra: does not model the `TypeError` that `heapq` raises when two frontier entries tie on distance and their nodes cannot be compared with `<` (say `1` and `'a'`). The model's nodes need only equality, so such a graph succeeds here.
- ShortestPaths.Dijkstra: does not say which missing key the `KeyError` names. It also does not model the entries updated before the exception, because the raise discards the table.
- Mutation of the input graph: Dafny maps are values, so the graph is only read, as in the source.
- Script glue: the import-time computation at line 111 and the `__main__` message at lines 114-115. The example is kept as `Fixture.NearestExampleEndNode`.
- Fixture.NearestExampleEndNode: the example's node names are an enumeration `A` to `K`, not strings. The operations are generic over the node type, so this changes only the node values.
- The license header (lines 1-23).
