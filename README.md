# Network topology and routing engines

A model of the `NetworkTopology` class of a small routing simulator
(`main.cpp`). The class keeps an undirected weighted network in two views:

- a dense `MAX_N × MAX_N` adjacency matrix, where `-1` means "no edge";
- a sparse edge list, a `std::map` keyed by `(source, destination)`.

A watermark `count` tracks the highest node seen. Node `i` is matrix row `i`;
the reports run over nodes `1..count`.

- **Edge commands.** `addEdge`, `removeEdge` and `modifyEdge` update both
  views in place.
- **Matrix report.** `printAdjacencyMatrix` shows the matrix.
- **Link-state engine.** Dijkstra runs over the matrix: `dijkstra`, with
  `min_distance` and `print_parents`. It prints a per-round trace and a path
  table.
- **Distance-vector engine.** Bellman-Ford runs over the edge list:
  `bellman_ford`. It prints a next-hop table.

The modules:

- `Graph` holds the store as a value (`State`) and the three edge commands
  as transition functions. It proves:
  - their effects and failure cases;
  - the consistency of the two views (a symmetric matrix agreeing with the
    edge list);
  - round trips, idempotence, and invariance over any command sequence.
- `Topology.NetworkTopology` is the class itself:
  - the matrix is an `array2<int>`, mirrored by a ghost map `cells`;
  - every mutating method is proved to perform exactly the matching `Graph`
    transition;
  - the two engines are methods over arrays with loop invariants.
- `Paths` defines path costs, walks, the predecessor chains that
  `print_parents` prints, and the shortest-path tree Dijkstra builds.
- `Relaxation` holds the invariants of the Bellman-Ford relaxation passes.
- `Routing` states what each engine's result guarantees, and gives the rows
  of the printed reports. It also replays both engines as functions:
  Dijkstra's rounds as min_distance's pick followed by the sweep, and
  Bellman-Ford's passes as a fold over the keys in the list's order. The
  engines' methods are proved to leave exactly what the replay gives, so
  each result is determined by the store and the source.
- `Scenarios` builds the triangle 1-2 (cost 1), 2-3 (cost 1), 1-3 (cost 5)
  with three `addEdge` commands and proves what either engine reports
  from node 1: node 3 at distance 2 over 1 -> 2 -> 3. A second example, a
  tie where 1-3 costs 2, shows that both engines keep node 3 behind node 1.

The quirks of the source are kept:

- `modifyEdge` has no self-loop or duplicate check.
- `removeEdge` only tests the `[s][d]` entry and never lowers `count`.
- Dijkstra skips zero-cost matrix entries (the entry is tested for
  truthiness).
- `min_distance` picks the highest index among ties.
- The trace prints INF as `-1`.
- The Bellman-Ford table reports the source as next hop for any node
  without a predecessor.

## Model

| member | source | states |
|---|---|---|
| `Graph.Empty` | main.cpp:26-33 | the fresh store is well formed and consistent, with every matrix entry `-1`, no edges and count 0 |
| `Graph.Insert` | main.cpp:44-45 | `std::map::insert` adds the key, keeps the value of a key already present and gives a new key the inserted value |
| `Graph.AddEdge` | main.cpp:35-47 | a successful add keeps the store well formed and never lowers the watermark |
| `Graph.AddEdgeEffect` | main.cpp:35-47 | the add fails with the self-loop error exactly when `s == d`, and fails at all exactly on a self-loop or an existing `[s][d]` entry; on success it writes the cost both ways, zeroes both diagonals, adds both directions to the edge list, raises `count` to the larger endpoint and leaves every other row alone |
| `Graph.DuplicateAddRejected` | main.cpp:39-41 | a second add of the same pair, in either direction, is rejected as "topology already set" |
| `Graph.AddEdgePreservesConsistent` | main.cpp:42-45 | a successful add keeps the matrix symmetric and the edge list equal to its off-diagonal edges, cost for cost |
| `Graph.RemoveEdge` | main.cpp:49-57 | remove keeps the store well formed and the watermark unchanged |
| `Graph.RemoveEdgeEffect` | main.cpp:49-57 | on a missing `[s][d]` entry remove is a no-op; otherwise it writes `-1` to `[s][d]` and `[d][s]` (for `s == d`, the diagonal), erases both directions from the edge list, keeps every other edge with its cost and keeps `count` |
| `Graph.RemoveEdgePreservesConsistent` | main.cpp:49-57 | remove keeps the two views consistent, self-loops included |
| `Graph.ModifyEdge` | main.cpp:59-71 | modify keeps the store well formed and never lowers the watermark |
| `Graph.ModifyEdgeUpserts` | main.cpp:59-71 | with distinct endpoints modify is an upsert: both views hold the cost in both directions, the rest of the edge list is unchanged, and consistency is kept; a fresh pair sets both diagonals to 0, an existing pair leaves them, and every other diagonal entry is unchanged |
| `Graph.ModifySelfLoopPreservesConsistent` | main.cpp:59-71 | a modify of `(s, s)` keeps the views consistent, puts `(s, s)` in the edge list, raises the watermark to `s` and changes no matrix entry but the diagonal |
| `Graph.ModifyEdgeIdempotent` | main.cpp:59-71 | with distinct endpoints, repeating the same modify changes nothing |
| `Graph.ModifySelfLoopOverwritesDiagonal` | main.cpp:59-67 | a modify of `(s, s)` on an unmarked node leaves its diagonal at 0 and puts `(s, s)` in the edge list; a second one overwrites the diagonal with the cost |
| `Graph.AddThenRemove` | main.cpp:35-57 | removing a freshly added edge restores the edge list and the matrix, except that both diagonals stay marked 0 |
| `Graph.AddRemoveAdd` | main.cpp:35-57 | add, remove and add again of one edge succeeds and ends in exactly the state of the first add |
| `Graph.RunPreservesInvariants` | main.cpp:35-71 | any sequence of commands on matrix indices with costs other than `-1`, self-loop modifies included, keeps the store well formed and consistent and never lowers the watermark |
| `Graph.Submatrix` | main.cpp:84-90 | the printed matrix: the entries of rows and columns `1..count`, row `i` of the result being node `i + 1` |
| `Graph.PrintedRow` | main.cpp:86-88 | one printed row: node `u`'s entries in columns `1..count` |
| `Graph.SubmatrixSymmetric` | main.cpp:84-90 | in a consistent store the printed `count × count` matrix is symmetric |
| `Paths.Chain` | main.cpp:160-165 | the printed predecessor chain has at most `fuel` hops, each an index of the parent array |
| `Paths.ChainFollowsParents` | main.cpp:160-165 | each node of the chain is the recorded predecessor of the next, the chain ends at `j`, and it starts at a node without predecessor unless the fuel ran out |
| `Paths.ChainHop` | main.cpp:160-165 | following the predecessor `u` of `v` extends the path printed for `u` by the link `u -> v`, adding its cost |
| `Paths.TreePath` | main.cpp:150-156 | in Dijkstra's tree, the printed path of a reached node starts at the source, follows relaxable links only and costs exactly the node's distance |
| `Paths.LinkWalkPrefix` | main.cpp:118-123 | a prefix of a walk over relaxable links is one, and the next hop adds its matrix cost |
| `Paths.LinkWalkCost` | main.cpp:119-121 | with no negative link, a walk over links costs at least its hop count and no less than any of its prefixes |
| `Paths.HopsCost` | main.cpp:191-198 | a walk over an edge list of costs at least 1 costs at least its hop count |
| `Routing.TraceRow` | main.cpp:133-141 | a trace row has one entry per destination; the entry is `-1` exactly when the distance is INF or `-1`, and any finite distance is printed as is |
| `Routing.Trace` | main.cpp:125-145 | the trace has one row per recorded round, the row of each round's distances |
| `Routing.LinkStateTable` | main.cpp:147-157 | the path table has one row per destination other than the source, in increasing order, carrying its raw distance and its predecessor chain followed by itself |
| `Routing.NextHop` | main.cpp:205 | the next hop printed is the predecessor, or the source when there is none |
| `Routing.DistanceVectorTable` | main.cpp:201-209 | the next-hop table has one row per destination `1..count`, carrying the predecessor (or the source) as next hop, its distance and its bracketed chain |
| `Routing.DistanceVectorRows` | main.cpp:204-209 | an unreached destination is reported with the source as next hop and a one-node path; a reached one other than the source prints a path of at least two nodes whose next-to-last node is its next hop, through an edge of the list; with no negative cost every reached destination's path is a walk from the source costing at most the printed distance |
| `Routing.StartDistances` | main.cpp:183-189 | both engines start with the source at 0 and every other node at INF |
| `Routing.NoParents` | main.cpp:183-188 | both engines start with no predecessor for any node (`-1`) |
| `Routing.Closest` | main.cpp:167-177 | what min_distance returns: an unvisited node of `1..count` at most INF away, of least distance, and strictly closer than every unvisited node of higher index (so the highest index among ties) |
| `Routing.Improves` | main.cpp:119-120 | the sweep's test for `j`: unvisited, behind a nonzero, non-`-1` entry from the reached `m`, and strictly shorter through `m` |
| `Routing.Swept` | main.cpp:118-123 | the distances the sweep from the visited `m` leaves: `dist[m] + cost` where `Improves` holds, the old distance elsewhere (`m` is already visited, so `dist[m]` does not change during the sweep) |
| `Routing.SweptParents` | main.cpp:118-123 | the predecessors the sweep leaves: `m` where `Improves` holds, the old predecessor elsewhere |
| `Routing.RoundReplayed` | main.cpp:113-124 | round `k` of a run: min_distance picks `picks[k]` among the nodes not picked before, from the arrays the previous round left, and the sweep from it leaves `rounds[k]` and `parents[k]` |
| `Routing.Replayed` | main.cpp:113-146 | every recorded round is the round dijkstra plays from the arrays the previous one left |
| `Routing.Replays` | main.cpp:113-146 | some picks and predecessor rows replay the recorded rounds and end in the result's arrays |
| `Routing.Marks` | main.cpp:103-117 | the visited marks hold exactly the nodes picked so far |
| `Routing.ClosestUnique` | main.cpp:167-177 | min_distance has one answer: the closest unvisited node, highest index among ties, is unique |
| `Routing.RoundAgrees` | main.cpp:113-124 | two replays that agree before a round pick the same node in it and leave the same distances and predecessors |
| `Routing.SamePick` | main.cpp:116 | two replays that agree before a round have min_distance pick the same node in it |
| `Routing.ReplaysDetermined` | main.cpp:113-146 | two results with as many rounds, each replaying its rounds, are equal |
| `Routing.ReplaysAgree` | main.cpp:113-146 | two replays of the same number of rounds agree round by round: picks, distances and predecessors |
| `Routing.LinkStateDetermined` | main.cpp:98-158 | a link-state result is determined by the matrix and the source: any two are equal, rounds, distances and predecessors |
| `Routing.KeyStep` | main.cpp:192-198 | the arrays after the key `(a, b)`: relaxed when the list holds it (strictly shorter through a reached `a`), unchanged otherwise |
| `Routing.RowUpTo` | main.cpp:191-199 | the arrays after the keys `(a, 0..b - 1)`, one `KeyStep` after another |
| `Routing.Rows` | main.cpp:191-199 | the arrays after the keys of the rows `0..a - 1`, in lexicographic key order |
| `Routing.PassResult` | main.cpp:191-199 | the arrays one pass over the whole list leaves |
| `Routing.Passes` | main.cpp:190-200 | the arrays `n` passes leave |
| `Routing.Improvable` | main.cpp:195 | whether the list entry `(a, b)` lowers the distance of `b` |
| `Routing.Relaxable` | main.cpp:195 | whether some entry of the list lowers a distance |
| `Routing.RowSettled` | main.cpp:191-199 | keys of a row none of which improves leave the arrays as they are |
| `Routing.RowsSettled` | main.cpp:191-199 | rows of keys none of which improves leave the arrays as they are |
| `Routing.PassesSettled` | main.cpp:190-200 | once no entry of the list improves a distance, a pass and any number of passes change nothing |
| `Routing.SettledAfterFirst` | main.cpp:190-200 | when the first pass leaves distances no entry improves, every later pass keeps what the first one left |
| `Routing.Shown` | main.cpp:135-139 | how the trace prints a distance: INF as `-1`, any other as is |
| `Routing.LinkStateRows` | main.cpp:150-156 | a reached destination's printed path is a path from the source over relaxable links whose cost is the printed cost; an unreached one prints only itself |
| `Routing.Relaxed` | main.cpp:195-198 | one relaxation never raises `dist[b]`, leaves every other entry alone, and brings `dist[b]` down to `dist[a] + cost` when `dist[a]` is finite |
| `Routing.Rerouted` | main.cpp:195-198 | `b` takes `a` as predecessor exactly when its distance drops; every other predecessor is kept |
| `Relaxation.DistanceVectorStart` | main.cpp:183-189 | the start arrays are sound, and no walk of one node undercuts them |
| `Relaxation.RelaxSound` | main.cpp:195-198 | a relaxation that fires keeps every predecessor an edge of the list, every finite distance the cost of a walk from the source, and, with no negative cost, every predecessor ahead of its node |
| `Relaxation.RelaxRanked` | main.cpp:195-198 | with no negative cost, after a relaxation every predecessor still has a smaller distance than its node, or the same distance and a shorter witness walk |
| `Relaxation.BeneathShrinks` | main.cpp:160-165 | a node ahead of another has fewer nodes ahead of it |
| `Relaxation.BeneathBound` | main.cpp:160-165 | at most `count` nodes are ahead of any node |
| `Relaxation.ChainToRoot` | main.cpp:204-208 | with no negative cost, print_parents with `count` steps reaches the source from every reached node, printing a walk that costs at most the node's distance |
| `Relaxation.DescendToRoot` | main.cpp:160-165 | print_parents with at least as many steps as nodes ahead of `v` prints a walk from the source to `v` within `v`'s distance |
| `Relaxation.ChainStep` | main.cpp:160-165 | following a predecessor through its edge extends the printed walk by that edge |
| `Relaxation.Advance` | main.cpp:191-199 | processing the key `(a, b)` extends the no-undercut bound to the walks whose last hop is `(a, b)` |
| `Relaxation.EdgeStep` | main.cpp:191-199 | relaxing a list entry keeps the run sound and advances the bound past that entry |
| `Relaxation.PassDone` | main.cpp:190-200 | after a full pass in key order, no walk one node longer undercuts the distances |
| `Relaxation.DistanceVectorFinished` | main.cpp:179-200 | arrays that are sound, bounded and exactly what `count - 1` passes in key order leave are what a distance-vector run promises, including the printed walks when no cost is negative |
| `Topology.NetworkTopology.constructor` | main.cpp:26-33 | the new object is valid and holds the empty store |
| `Topology.NetworkTopology.AddEdge` | main.cpp:35-47 | the in-place add fails with the same error as `Graph.AddEdge` and leaves the store alone, or leaves exactly the store `Graph.AddEdge` gives |
| `Topology.NetworkTopology.RemoveEdge` | main.cpp:49-57 | the in-place remove reports whether `[s][d]` held an edge, and leaves exactly the store `Graph.RemoveEdge` gives |
| `Topology.NetworkTopology.ModifyEdge` | main.cpp:59-71 | the in-place modify leaves exactly the store `Graph.ModifyEdge` gives |
| `Topology.NetworkTopology.GetCount` | main.cpp:94-96 | the watermark is a matrix index bounding both endpoints of every edge of the list |
| `Topology.NetworkTopology.AdjacencyRows` | main.cpp:73-92 | the printed rows are the matrix entries of rows and columns `1..count` |
| `Topology.NetworkTopology.MatrixRow` | main.cpp:84-90 | one printed row is the matrix row of node `u` over columns `1..count` |
| `Topology.NetworkTopology.MinDistance` | main.cpp:167-177 | the result is an unvisited node of least distance, strictly below every unvisited node of higher index |
| `Topology.NetworkTopology.Improve` | main.cpp:119-123 | one relaxation gives `j` the distance through `m` and `m` as predecessor, keeping the tree invariant |
| `Topology.NetworkTopology.Relax` | main.cpp:118-124 | the sweep from the visited `m` leaves exactly the `Swept` distances and predecessors: every unvisited node behind a link from a reached `m` ends at the shorter of its distance and the one through `m`, taking `m` as predecessor exactly when that is shorter; the tree invariant is kept |
| `Topology.NetworkTopology.Visit` | main.cpp:116-117 | the node marked is the one min_distance picks, the closest unvisited node, and marking it keeps the tree and visit invariants |
| `Topology.NetworkTopology.Round` | main.cpp:113-146 | one round marks the closest unvisited node, sweeps from it exactly as `Swept` says and records the new distances, keeping the loop invariant including minimality of the visited nodes |
| `Topology.NetworkTopology.Dijkstra` | main.cpp:98-158 | an invalid source is rejected; otherwise the recorded rounds, distances and predecessors are exactly those of replaying min_distance's pick and the sweep round by round (so the result is unique, `Routing.LinkStateDetermined`); the run records `count - 1` non-increasing rounds, leaves a tree whose printed paths are link paths from the source costing the reported distances, relaxes every link along the visit order, and with no negative link no walk is cheaper than the reported distance |
| `Topology.NetworkTopology.BellmanFord` | main.cpp:179-211 | an invalid source is rejected; otherwise the arrays are exactly those `count - 1` passes in key order leave (`Routing.Passes`), every finite distance is the cost of a walk from the source, no walk of at most `count` nodes is cheaper, predecessors are edges of the list, and with no negative cost every printed path is a walk from the source |
| `Topology.NetworkTopology.ReplayedRound` | main.cpp:113-146 | a round extends the replay of the rounds so far by the node it visits and the distances and predecessors it leaves |
| `Topology.NetworkTopology.Rounds` | main.cpp:113-146 | the loop plays `count - 1` rounds, skipping the source's index, and leaves the arrays and marks the replay of its rounds gives |
| `Topology.NetworkTopology.SweepCell` | main.cpp:118-123 | the cell `(m, j)` of the sweep extends the handled prefix by `j`, keeping the tree invariant |
| `Topology.Pass` | main.cpp:190-200 | one pass leaves exactly the arrays of `Routing.PassResult`: each key `(a, b)` with `0 <= a, b <= count` in lexicographic order, the list's order, relaxed when the list holds it; it keeps the arrays sound and extends the bound by one node |
| `Topology.PassRows` | main.cpp:190-200 | the outer loop over `a` leaves the arrays of `Routing.Rows` over all rows, keeping soundness and the bound |
| `Topology.PassRow` | main.cpp:191-199 | the inner loop over `b` takes the arrays of `Routing.Rows` up to row `a` to those up to row `a + 1` |
| `Topology.PassKey` | main.cpp:192-198 | the key `(a, b)` leaves `Routing.KeyStep` of the arrays: relaxed when the list holds it, untouched otherwise; the bound advances past the key |
| `Topology.RelaxEdge` | main.cpp:192-198 | the arrays after one relaxation are `Relaxed` and `Rerouted` of the arrays before it |
| `Topology.SweepResult` | main.cpp:118-123 | the sweep never raises a distance; node 0, visited nodes and nodes no link from a reached `m` leads to are untouched; every other node takes the shorter of its distance and the one through `m` |
| `Topology.SweepNext` | main.cpp:118-123 | one step of the sweep loop, relaxing `j` exactly when it improves, extends the handled prefix |
| `Topology.VisitStep` | main.cpp:116-117 | marking the node min_distance picks keeps the tree and visit invariants; in the first round that node is the source |
| `Topology.RelaxStep` | main.cpp:119-123 | improving an unvisited node through the node just visited keeps the tree invariant |
| `Topology.Frontier` | main.cpp:116-123 | with no negative link, the first unvisited node of a link walk is no farther than the walk costs |
| `Topology.RoundKeepsOptimal` | main.cpp:113-124 | a round keeps every link into a later-visited node relaxed and, with no negative link, no link walk to a visited node cheaper than its distance |
| `Topology.OneUnvisited` | main.cpp:113-116 | after `count - 1` rounds exactly one node is unvisited |
| `Topology.RoundEnds` | main.cpp:113-146 | visiting the closest node, sweeping from it and recording the row keeps the rounds non-increasing and the loop invariant |
| `Topology.LinkStateFinished` | main.cpp:98-158 | after the last round, with arrays and rounds that replay the run, the result is what a link-state run promises, minimality of every node included |
| `Topology.MarkPick` | main.cpp:116-117 | marking the picked node visited gives the marks of the picks extended by it |
| `Topology.ReplayStep` | main.cpp:113-124 | a round played from the arrays the replay leaves, picking the closest node and sweeping from it, extends the replay |
| `Scenarios.TriangleBuilt` | main.cpp:35-47 | adding 1-2 at cost 1, 2-3 at cost 1 and 1-3 at cost 5 to a fresh store succeeds each time and ends in the triangle store |
| `Scenarios.TriangleConsistent` | main.cpp:35-47 | the triangle store is well formed and consistent, with watermark 3 |
| `Scenarios.OnlyCheapPath` | main.cpp:179-200 | the only walk from 1 to 3 in the triangle costing at most 2 is 1 -> 2 -> 3 |
| `Scenarios.LinkStateExample` | main.cpp:98-158 | any link-state result from node 1 on the triangle puts node 2 at 1 behind 1 and node 3 at 2 behind 2, printing 1 -> 2 -> 3 |
| `Scenarios.TieKeepsDirectLink` | main.cpp:113-124 | on links 1-2 and 2-3 costing 1 and 1-3 costing 2, Dijkstra from node 1 leaves node 3 at 2 behind node 1: the later equal-cost way through node 2 does not replace it |
| `Scenarios.TieRounds` | main.cpp:113-124 | the two replayed rounds of that run |
| `Scenarios.TieDistanceVector` | main.cpp:179-200 | on the same links, Bellman-Ford from node 1 leaves node 2 at 1 and node 3 at 2, both behind node 1: the key `(2, 3)`, visited after `(1, 3)`, is not strictly shorter |
| `Scenarios.TiePasses` | main.cpp:190-200 | the two passes of that run leave `[INF, 0, 1, 2]` and `[-1, -1, 1, 1]` |
| `Scenarios.TieFirstPass` | main.cpp:191-199 | the first pass relaxes only row 1 |
| `Scenarios.TieRowOne` | main.cpp:191-199 | row 1 of the first pass relaxes `(1, 2)` and then `(1, 3)` |
| `Scenarios.LinkStateOnTriangle` | main.cpp:147-157 | the same from the printed-path and minimality clauses alone |
| `Scenarios.DistanceVectorExample` | main.cpp:179-211 | any arrays meeting the soundness, bound and printed-walk clauses of a distance-vector result from node 1 on the triangle (every such result does) give node 3 distance 2, next hop 2 and path 1 -> 2 -> 3 |
| `Scenarios.DistanceVectorOnTriangle` | main.cpp:201-209 | the same from the walk, bound and printed-walk clauses alone |
| `Scenarios.DistanceVectorReach` | main.cpp:190-200 | on the triangle the distance-vector distances of nodes 2 and 3 are 1 and 2 |

## Left out

- The command loop, `split_string`, parsing and the exact text layout of
  every report are not modelled. Headers, tabs and separators are left out.
  The reports are modelled as rows of values.
- `cout` is not modelled. "No such edge exists" becomes the `false` result
  of `RemoveEdge`.
- The `invalid_argument` exceptions become `Failure` values.
- Node identifiers must be matrix indices (`0..99`). The source does not
  check this: an identifier outside that range is undefined behaviour there.
- C++ `int` is 32 bits, but the model uses unbounded integers. An overflow
  in `distances[m] + cost` or in a user-given cost is not modelled.
- The variable-length arrays of the two engines are modelled as Dafny arrays.
  - Dijkstra leaves entry 0 of its arrays uninitialised; the model fills it
    with INF, `false` and `-1`.
  - `min_distance` never reads entry 0.
- `min_distance` returns an uninitialised index when no unvisited node has a
  distance of at most INF. `MinDistance` requires such a node. Every round of
  `Dijkstra` provides one: distances never exceed INF, and fewer than
  `count` nodes have been visited.
- `bellman_ford` walks the edge list with a range-for over the `std::map`.
  The model walks every key `(a, b)` with `0 <= a, b <= count` in
  lexicographic order, in two nested loops, and relaxes the keys present.
  This visits exactly the keys of the map in the map's own order: a
  `std::map` keyed by `std::pair<int, int>` iterates in ascending
  lexicographic order of its keys, and every endpoint of the list lies in
  `0..count` (`GetCount`). The keys absent from the list leave the arrays
  alone (`Routing.KeyStep`).
- `print_parents` recurses until it finds a node without predecessor.
  `Chain` follows at most `count` links. With no negative cost both engines'
  chains reach the source within that bound, which is proved. After
  Bellman-Ford with negative costs the parent links can form a cycle, and
  the source then does not terminate; the model cuts that case off.
- The consistency lemmas require costs other than `-1`: a cost of `-1`
  written to the matrix reads back as "no edge".
- `Topology.NetworkTopology.Dijkstra`: proves minimality only when no
  relaxable link costs less than 0. With a negative link Dijkstra's greedy
  order gives no such guarantee, and the source does not claim one.
  Zero-cost matrix entries are not links to Dijkstra (the truthiness test),
  so minimality is over walks of nonzero links.
- `Routing.LinkStateComputed`: states minimality under the same condition,
  for the same reason.
- `Topology.NetworkTopology.BellmanFord`: does not prove that the distances
  are minimal over all walks. It proves the bound for walks of at most
  `count` nodes whose every prefix costs less than INF, and the soundness of
  every finite distance. The printed paths are proved to be walks only when
  no cost is negative.
