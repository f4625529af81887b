/** What the two routing engines compute, and the tables they report.

    A link-state run (Dijkstra over the matrix) yields `LinkState`: the
    final `distances` and `parent` arrays and the distances after every
    round, which the per-round trace prints.  A distance-vector run
    (Bellman-Ford over the edge list) yields `DistanceVector`.  Indices run
    over `0..count` like the arrays of the source; node 0 is never a valid
    routing source.
 */
module Routing {
  import opened Graph
  import opened Paths

  datatype LinkState = LinkState(distances: seq<int>, parent: seq<int>, rounds: seq<seq<int>>)

  datatype DistanceVector = DistanceVector(distances: seq<int>, parent: seq<int>)

  /** The distance a node starts a run with. */
  function Initial(src: int, v: int): int {
    if v == src then 0 else INF
  }

  /** What a link-state run from `src` guarantees about its result. */
  ghost predicate LinkStateComputed(cells: map<Key, int>, count: int, src: int, ls: LinkState) {
    && 1 <= src <= count
    && |ls.distances| == count + 1 && |ls.parent| == count + 1
    && ParentArray(ls.parent)
    // count - 1 rounds, each recording every distance, which only decrease
    && |ls.rounds| == count - 1
    && (forall k :: 0 <= k < |ls.rounds| ==> |ls.rounds[k]| == count + 1)
    && (forall k, k', v :: 0 <= k < k' < |ls.rounds| && 0 <= v <= count ==> ls.rounds[k'][v] <= ls.rounds[k][v])
    && (|ls.rounds| > 0 ==> ls.rounds[|ls.rounds| - 1] == ls.distances)
    // the source is at distance 0 and has no predecessor
    && ls.distances[src] == 0 && ls.parent[src] == -1
    && (forall v :: 1 <= v <= count ==> ls.distances[v] <= INF)
    // a node was reached exactly when it got a predecessor
    && (forall v {:trigger ls.parent[v]} :: 1 <= v <= count && v != src ==> (ls.parent[v] == -1 <==> ls.distances[v] == INF))
    // every predecessor is a relaxable link that produced the distance
    && (forall v :: 1 <= v <= count && ls.parent[v] != -1 ==>
          && 1 <= ls.parent[v] <= count
          && IsLink(cells, ls.parent[v], v)
          && ls.distances[v] == ls.distances[ls.parent[v]] + cells[(ls.parent[v], v)])
    && PrintedPaths(cells, count, src, ls)
    // the nodes were visited in some order, the source first, and every
    // relaxable link out of a reached node into a later one was relaxed
    && (exists rank :: VisitOrder(cells, count, src, ls.distances, rank))
    // with no negative link, no walk over links from the source is shorter
    // than the distance it ends at
    && (NoNegativeLinks(cells) ==> NoShorterWalk(cells, count, src, ls.distances))
    // the arrays and rounds are exactly those dijkstra's rounds leave
    && Replays(cells, count, src, ls)
  }

  /** The printed path of every reached node leads from the source over
      relaxable links and costs exactly the reported distance. */
  ghost predicate PrintedPaths(cells: map<Key, int>, count: int, src: int, ls: LinkState)
    requires |ls.distances| == count + 1 && |ls.parent| == count + 1 && ParentArray(ls.parent)
  {
    forall v :: 1 <= v <= count && ls.distances[v] != INF ==>
      var p := Chain(ls.parent, v, count) + [v];
      && p[0] == src && Last(p) == v
      && Links(cells, p)
      && PathCost(cells, p) == ls.distances[v]
  }

  /** No walk over links from the source through `1..count` is cheaper than
      the distance of the node it ends at. */
  ghost predicate NoShorterWalk(cells: map<Key, int>, count: int, src: int, dist: seq<int>)
    requires |dist| == count + 1
  {
    forall w :: LinkWalk(cells, count, src, w) ==> dist[Last(w)] <= PathCost(cells, w)
  }

  /** Every relaxable link `u -> v` out of a reached node, with `v` ranked
      after `u`, has been relaxed: `v` is no farther than through `u`. */
  ghost predicate Ordered(cells: map<Key, int>, count: int, dist: seq<int>, rank: seq<int>)
    requires |dist| == count + 1 && |rank| == count + 1
  {
    forall u, v {:trigger IsLink(cells, u, v)} :: 1 <= u <= count && 1 <= v <= count && rank[u] < rank[v] && IsLink(cells, u, v) && dist[u] != INF ==>
      dist[v] <= dist[u] + cells[(u, v)]
  }

  /** `rank` orders the nodes `1..count` with the source first, and the
      distances are relaxed along that order. */
  ghost predicate VisitOrder(cells: map<Key, int>, count: int, src: int, dist: seq<int>, rank: seq<int>) {
    && |dist| == count + 1 && |rank| == count + 1 && 1 <= src <= count
    && (forall v :: 1 <= v <= count && v != src ==> rank[src] < rank[v])
    && Ordered(cells, count, dist, rank)
  }

  /** `dist` is at most the cost of the walk `w` at the node `w` ends in. */
  ghost predicate Reaches(g: map<Key, int>, dist: seq<int>, w: seq<int>)
    requires |w| > 0
  {
    0 <= Last(w) < |dist| && dist[Last(w)] <= PathCost(g, w)
  }

  /** What a distance-vector run from `src` guarantees about its result. */
  ghost predicate DistanceVectorComputed(edges: map<Key, int>, count: int, src: int, dv: DistanceVector) {
    && DistanceVectorBounded(edges, count, src, dv)
    // the arrays are exactly those `count - 1` passes in key order leave
    && (dv.distances, dv.parent) == Passes(edges, StartDistances(count, src), NoParents(count), count - 1)
  }

  /** What the passes of a distance-vector run guarantee about its distances
      and predecessors, whatever order they visit the edges in. */
  ghost predicate DistanceVectorBounded(edges: map<Key, int>, count: int, src: int, dv: DistanceVector) {
    && DistanceVectorShape(edges, count, src, dv)
    && Witnessed(edges, count, src, dv.distances)
    // count - 1 passes: no walk of at most count - 1 hops is cheaper
    && (forall w {:trigger IsWalk(edges, src, w)} {:trigger Capped(edges, w)} {:trigger Reaches(edges, dv.distances, w)} ::
          IsWalk(edges, src, w) && |w| <= count && Capped(edges, w) ==> Reaches(edges, dv.distances, w))
    && (NoNegativeEdges(edges) ==> PrintedWalks(edges, count, src, dv))
  }

  /** Sound: a finite distance is the cost of some walk from the source. */
  ghost predicate Witnessed(edges: map<Key, int>, count: int, src: int, dist: seq<int>)
    requires |dist| == count + 1
  {
    forall v :: 0 <= v <= count && dist[v] != INF ==>
      exists w :: IsWalk(edges, src, w) && Last(w) == v && PathCost(edges, w) == dist[v]
  }

  /** The predecessors form a tree rooted at the source: the path
      print_parents prints for a reached node is a walk from the source
      costing no more than the node's distance. */
  ghost predicate PrintedWalks(edges: map<Key, int>, count: int, src: int, dv: DistanceVector)
    requires |dv.distances| == count + 1 && |dv.parent| == count + 1 && ParentArray(dv.parent) && count >= 0
  {
    forall v :: 0 <= v <= count && dv.distances[v] != INF ==> PrintsWalk(edges, src, dv.parent, v, count, dv.distances[v])
  }

  /** No edge of the list has a negative cost. */
  ghost predicate NoNegativeEdges(edges: map<Key, int>) {
    forall k :: k in edges ==> edges[k] >= 0
  }

  /** The path print_parents prints for `v` when it follows `parent` at most
      `fuel` times, `v` included, is a walk from `src` costing at most `d`. */
  ghost predicate PrintsWalk(edges: map<Key, int>, src: int, parent: seq<int>, v: int, fuel: nat, d: int)
    requires ParentArray(parent) && 0 <= v < |parent|
  {
    var p := Chain(parent, v, fuel) + [v];
    IsWalk(edges, src, p) && PathCost(edges, p) <= d
  }

  /** The array-level facts of a distance-vector result: start values,
      predecessors and the edges they came through. */
  ghost predicate DistanceVectorShape(edges: map<Key, int>, count: int, src: int, dv: DistanceVector) {
    && 1 <= src <= count
    && |dv.distances| == count + 1 && |dv.parent| == count + 1
    && ParentArray(dv.parent)
    // distances only decrease from their start values
    && (forall v :: 0 <= v <= count ==> dv.distances[v] <= Initial(src, v))
    && (forall v {:trigger dv.parent[v]} :: 0 <= v <= count ==> (dv.parent[v] == -1 <==> dv.distances[v] == Initial(src, v)))
    // every predecessor is an edge that once gave the node its distance
    && (forall v :: 0 <= v <= count && dv.parent[v] != -1 ==>
          && (dv.parent[v], v) in edges
          && dv.distances[dv.parent[v]] != INF
          && dv.distances[v] >= dv.distances[dv.parent[v]] + edges[(dv.parent[v], v)])
  }

  // ---------------------------------------------------------------------
  // The runs, replayed

  /** The distances both engines start from: 0 at the source, INF elsewhere. */
  function StartDistances(count: int, src: int): (r: seq<int>)
    requires count >= 0
    ensures |r| == count + 1 && forall v :: 0 <= v <= count ==> r[v] == Initial(src, v)
  {
    seq(count + 1, v => Initial(src, v))
  }

  /** The predecessors both engines start from: none. */
  function NoParents(count: int): (r: seq<int>)
    requires count >= 0
    ensures |r| == count + 1 && forall v :: 0 <= v <= count ==> r[v] == -1
  {
    seq(count + 1, _ => -1)
  }

  /** The last row of `rows`, or `first` when there is none. */
  function LastOr(rows: seq<seq<int>>, first: seq<int>): seq<int> {
    if |rows| == 0 then first else rows[|rows| - 1]
  }

  /** dijkstra's `test` array once the nodes `picks` have been visited. */
  function Marks(picks: seq<int>, count: int): (r: seq<bool>)
    requires count >= 0
    ensures |r| == count + 1 && forall v :: 0 <= v <= count ==> (r[v] <==> v in picks)
  {
    seq(count + 1, v => v in picks)
  }

  /** What min_distance returns: an unvisited node among `1..count` of
      least distance, the highest index among ties. */
  ghost predicate Closest(dist: seq<int>, test: seq<bool>, count: int, m: int)
    requires |dist| == count + 1 && |test| == count + 1
  {
    && 1 <= m <= count && !test[m] && dist[m] <= INF
    && (forall k :: 1 <= k <= count && !test[k] ==> dist[m] <= dist[k])
    && (forall k :: m < k <= count && !test[k] ==> dist[m] < dist[k])
  }

  /** Whether the sweep from `m` lowers the distance of `j`: `j` is an
      unvisited node behind a relaxable link from the reached `m`, and the
      way through `m` is shorter. */
  ghost predicate Improves(cells: map<Key, int>, dist: seq<int>, test: seq<bool>, m: int, j: int)
    requires |test| == |dist| && 0 <= m < |dist| && 0 <= j < |dist|
  {
    1 <= j && !test[j] && IsLink(cells, m, j) && dist[m] != INF && dist[m] + cells[(m, j)] < dist[j]
  }

  /** The distances the relaxation sweep from the visited node `m` leaves. */
  ghost function Swept(cells: map<Key, int>, dist: seq<int>, test: seq<bool>, m: int): (r: seq<int>)
    requires |test| == |dist| && 0 <= m < |dist| && test[m]
    ensures |r| == |dist|
  {
    seq(|dist|, j requires 0 <= j < |dist| => if Improves(cells, dist, test, m, j) then dist[m] + cells[(m, j)] else dist[j])
  }

  /** The predecessors the sweep from `m` leaves. */
  ghost function SweptParents(cells: map<Key, int>, dist: seq<int>, test: seq<bool>, parent: seq<int>, m: int): (r: seq<int>)
    requires |test| == |dist| && |parent| == |dist| && 0 <= m < |dist| && test[m]
    ensures |r| == |parent|
  {
    seq(|parent|, j requires 0 <= j < |parent| => if Improves(cells, dist, test, m, j) then m else parent[j])
  }

  /** Round `k` of a link-state run: from the distances and predecessors
      the previous round left, min_distance picks `picks[k]` among the
      nodes not picked before, and the sweep from it leaves `rounds[k]` and
      `parents[k]`. */
  ghost predicate RoundReplayed(cells: map<Key, int>, count: int, src: int,
                                rounds: seq<seq<int>>, picks: seq<int>, parents: seq<seq<int>>, k: int)
    requires count >= 0 && |picks| == |rounds| && |parents| == |rounds| && 0 <= k < |rounds|
    requires forall i :: 0 <= i < |rounds| ==> |rounds[i]| == count + 1 && |parents[i]| == count + 1
  {
    var d := if k == 0 then StartDistances(count, src) else rounds[k - 1];
    var p := if k == 0 then NoParents(count) else parents[k - 1];
    && Closest(d, Marks(picks[..k], count), count, picks[k])
    && (assert picks[k] in picks[..k + 1] by { assert picks[..k + 1][k] == picks[k]; }
        && rounds[k] == Swept(cells, d, Marks(picks[..k + 1], count), picks[k])
        && parents[k] == SweptParents(cells, d, Marks(picks[..k + 1], count), p, picks[k]))
  }

  /** Every recorded round of a link-state run is the round dijkstra plays
      from the arrays the previous one left. */
  ghost predicate Replayed(cells: map<Key, int>, count: int, src: int,
                           rounds: seq<seq<int>>, picks: seq<int>, parents: seq<seq<int>>)
    requires count >= 0
  {
    && |picks| == |rounds| && |parents| == |rounds|
    && (forall i :: 0 <= i < |rounds| ==> |rounds[i]| == count + 1 && |parents[i]| == count + 1)
    && forall k :: 0 <= k < |rounds| ==> RoundReplayed(cells, count, src, rounds, picks, parents, k)
  }

  /** The arrays of a link-state result are those its rounds, replayed from
      the start arrays, leave: some sequence of picks and predecessor rows
      replays the recorded rounds and ends in the result. */
  ghost predicate Replays(cells: map<Key, int>, count: int, src: int, ls: LinkState)
    requires count >= 0
  {
    exists picks, parents :: ReplayEnds(cells, count, src, ls, picks, parents)
  }

  /** `picks` and `parents` replay the rounds of `ls` and end in its arrays. */
  ghost predicate ReplayEnds(cells: map<Key, int>, count: int, src: int, ls: LinkState,
                             picks: seq<int>, parents: seq<seq<int>>)
    requires count >= 0
  {
    && Replayed(cells, count, src, ls.rounds, picks, parents)
    && ls.distances == LastOr(ls.rounds, StartDistances(count, src))
    && ls.parent == LastOr(parents, NoParents(count))
  }

  /** min_distance has one answer: no two nodes are both the closest. */
  lemma ClosestUnique(dist: seq<int>, test: seq<bool>, count: int, m: int, m': int)
    requires |dist| == count + 1 && |test| == count + 1
    requires Closest(dist, test, count, m) && Closest(dist, test, count, m')
    ensures m == m'
  {
  }

  /** Two replays that agree before round `j` play the same round `j`:
      the same pick, distances and predecessors. */
  lemma RoundAgrees(cells: map<Key, int>, count: int, src: int,
                    rounds: seq<seq<int>>, picks: seq<int>, parents: seq<seq<int>>,
                    rounds': seq<seq<int>>, picks': seq<int>, parents': seq<seq<int>>, j: nat)
    requires count >= 0 && |picks| == |rounds| && |parents| == |rounds| && j < |rounds|
    requires |picks'| == |rounds'| && |parents'| == |rounds'| && j < |rounds'|
    requires forall i :: 0 <= i < |rounds| ==> |rounds[i]| == count + 1 && |parents[i]| == count + 1
    requires forall i :: 0 <= i < |rounds'| ==> |rounds'[i]| == count + 1 && |parents'[i]| == count + 1
    requires RoundReplayed(cells, count, src, rounds, picks, parents, j)
    requires RoundReplayed(cells, count, src, rounds', picks', parents', j)
    requires picks[..j] == picks'[..j]
    requires j > 0 ==> rounds[j - 1] == rounds'[j - 1] && parents[j - 1] == parents'[j - 1]
    ensures picks[j] == picks'[j] && rounds[j] == rounds'[j] && parents[j] == parents'[j]
  {
    SamePick(cells, count, src, rounds, picks, parents, rounds', picks', parents', j);
    var m := picks[j];
    assert picks[..j + 1] == picks'[..j + 1] by {
      assert picks[..j + 1] == picks[..j] + [m] && picks'[..j + 1] == picks'[..j] + [m];
    }
    var d := if j == 0 then StartDistances(count, src) else rounds[j - 1];
    var p := if j == 0 then NoParents(count) else parents[j - 1];
    var t := Marks(picks[..j + 1], count);
    assert t[m] by { assert picks[..j + 1][j] == m; }
    assert rounds[j] == Swept(cells, d, t, m) && parents[j] == SweptParents(cells, d, t, p, m);
    assert rounds'[j] == Swept(cells, d, t, m) && parents'[j] == SweptParents(cells, d, t, p, m);
  }

  /** Two replays that agree before round `j` pick the same node in it. */
  lemma SamePick(cells: map<Key, int>, count: int, src: int,
                 rounds: seq<seq<int>>, picks: seq<int>, parents: seq<seq<int>>,
                 rounds': seq<seq<int>>, picks': seq<int>, parents': seq<seq<int>>, j: nat)
    requires count >= 0 && |picks| == |rounds| && |parents| == |rounds| && j < |rounds|
    requires |picks'| == |rounds'| && |parents'| == |rounds'| && j < |rounds'|
    requires forall i :: 0 <= i < |rounds| ==> |rounds[i]| == count + 1 && |parents[i]| == count + 1
    requires forall i :: 0 <= i < |rounds'| ==> |rounds'[i]| == count + 1 && |parents'[i]| == count + 1
    requires RoundReplayed(cells, count, src, rounds, picks, parents, j)
    requires RoundReplayed(cells, count, src, rounds', picks', parents', j)
    requires picks[..j] == picks'[..j]
    requires j > 0 ==> rounds[j - 1] == rounds'[j - 1]
    ensures picks[j] == picks'[j]
  {
    var d := if j == 0 then StartDistances(count, src) else rounds[j - 1];
    ClosestUnique(d, Marks(picks[..j], count), count, picks[j], picks'[j]);
  }

  /** Two replays of the same recorded length agree on their first `k`
      rounds, picks and predecessor rows. */
  lemma {:induction false} ReplaysAgree(cells: map<Key, int>, count: int, src: int,
                                        rounds: seq<seq<int>>, picks: seq<int>, parents: seq<seq<int>>,
                                        rounds': seq<seq<int>>, picks': seq<int>, parents': seq<seq<int>>, k: nat)
    requires count >= 0
    requires Replayed(cells, count, src, rounds, picks, parents)
    requires Replayed(cells, count, src, rounds', picks', parents')
    requires |rounds| == |rounds'| && k <= |rounds|
    ensures rounds[..k] == rounds'[..k] && picks[..k] == picks'[..k] && parents[..k] == parents'[..k]
  {
    if k > 0 {
      var j := k - 1;
      ReplaysAgree(cells, count, src, rounds, picks, parents, rounds', picks', parents', j);
      if j > 0 {
        assert rounds[j - 1] == rounds[..j][j - 1] && rounds'[j - 1] == rounds'[..j][j - 1];
        assert parents[j - 1] == parents[..j][j - 1] && parents'[j - 1] == parents'[..j][j - 1];
      }
      RoundAgrees(cells, count, src, rounds, picks, parents, rounds', picks', parents', j);
      assert picks[..k] == picks[..j] + [picks[j]] && picks'[..k] == picks'[..j] + [picks'[j]];
      assert rounds[..k] == rounds[..j] + [rounds[j]] && rounds'[..k] == rounds'[..j] + [rounds'[j]];
      assert parents[..k] == parents[..j] + [parents[j]] && parents'[..k] == parents'[..j] + [parents'[j]];
    }
  }

  /** A link-state result is determined by the links and the source: the
      replay fixes every round, every pick and every predecessor. */
  lemma LinkStateDetermined(cells: map<Key, int>, count: int, src: int, ls: LinkState, ls': LinkState)
    requires LinkStateComputed(cells, count, src, ls) && LinkStateComputed(cells, count, src, ls')
    ensures ls == ls'
  {
    ReplaysDetermined(cells, count, src, ls, ls');
  }

  /** Two results with as many rounds, each replaying its rounds, are equal. */
  lemma ReplaysDetermined(cells: map<Key, int>, count: int, src: int, ls: LinkState, ls': LinkState)
    requires count >= 0 && Replays(cells, count, src, ls) && Replays(cells, count, src, ls')
    requires |ls.rounds| == |ls'.rounds|
    ensures ls == ls'
  {
    var picks, parents :| ReplayEnds(cells, count, src, ls, picks, parents);
    var picks', parents' :| ReplayEnds(cells, count, src, ls', picks', parents');
    var n := |ls.rounds|;
    ReplaysAgree(cells, count, src, ls.rounds, picks, parents, ls'.rounds, picks', parents', n);
    assert ls.rounds == ls.rounds[..n] && ls'.rounds == ls'.rounds[..n];
    assert parents == parents[..n] && parents' == parents'[..n];
  }

  /** The distance `dist[b]` takes when the edge `(a, b)` is relaxed. */
  function Relaxed(dist: seq<int>, a: int, b: int, cost: int): (r: seq<int>)
    requires 0 <= a < |dist| && 0 <= b < |dist|
    ensures |r| == |dist| && r[b] <= dist[b]
    ensures forall v :: 0 <= v < |dist| && v != b ==> r[v] == dist[v]
    ensures dist[a] != INF ==> r[b] <= dist[a] + cost
  {
    if dist[a] != INF && dist[a] + cost < dist[b] then dist[b := dist[a] + cost] else dist
  }

  /** The predecessor array after relaxing `(a, b)`: `b` takes `a` as its
      predecessor exactly when its distance drops. */
  function Rerouted(dist: seq<int>, parent: seq<int>, a: int, b: int, cost: int): (r: seq<int>)
    requires 0 <= a < |dist| && 0 <= b < |dist| && |parent| == |dist|
    ensures |r| == |parent|
    ensures forall v :: 0 <= v < |parent| && v != b ==> r[v] == parent[v]
    ensures r[b] == if Relaxed(dist, a, b, cost)[b] < dist[b] then a else parent[b]
  {
    if dist[a] != INF && dist[a] + cost < dist[b] then parent[b := a] else parent
  }

  /** The arrays after bellman_ford's inner loop body for the key `(a, b)`:
      the entry is relaxed when the list holds it. */
  function KeyStep(edges: map<Key, int>, dist: seq<int>, parent: seq<int>, a: int, b: int): (r: (seq<int>, seq<int>))
    requires |parent| == |dist| && 0 <= a < |dist| && 0 <= b < |dist|
    ensures |r.0| == |dist| && |r.1| == |dist|
  {
    if (a, b) in edges then (Relaxed(dist, a, b, edges[(a, b)]), Rerouted(dist, parent, a, b, edges[(a, b)]))
    else (dist, parent)
  }

  /** The arrays once bellman_ford's inner loop has handled the keys
      `(a, 0..b - 1)` of the row `a`, starting from `dist` and `parent`. */
  function RowUpTo(edges: map<Key, int>, dist: seq<int>, parent: seq<int>, a: int, b: int): (r: (seq<int>, seq<int>))
    requires |parent| == |dist| && 0 <= a < |dist| && 0 <= b <= |dist|
    ensures |r.0| == |dist| && |r.1| == |dist|
  {
    if b == 0 then (dist, parent)
    else
      var q := RowUpTo(edges, dist, parent, a, b - 1);
      KeyStep(edges, q.0, q.1, a, b - 1)
  }

  /** The arrays once a pass has handled the rows `0..a - 1` of keys, in the
      list's key order. */
  function Rows(edges: map<Key, int>, dist: seq<int>, parent: seq<int>, a: int): (r: (seq<int>, seq<int>))
    requires |parent| == |dist| && 0 <= a <= |dist|
    ensures |r.0| == |dist| && |r.1| == |dist|
  {
    if a == 0 then (dist, parent)
    else
      var q := Rows(edges, dist, parent, a - 1);
      RowUpTo(edges, q.0, q.1, a - 1, |dist|)
  }

  /** The arrays one pass of bellman_ford over the whole list leaves. */
  function PassResult(edges: map<Key, int>, dist: seq<int>, parent: seq<int>): (r: (seq<int>, seq<int>))
    requires |parent| == |dist|
    ensures |r.0| == |dist| && |r.1| == |dist|
  {
    Rows(edges, dist, parent, |dist|)
  }

  /** The arrays `n` passes leave. */
  function Passes(edges: map<Key, int>, dist: seq<int>, parent: seq<int>, n: nat): (r: (seq<int>, seq<int>))
    requires |parent| == |dist|
    ensures |r.0| == |dist| && |r.1| == |dist|
  {
    if n == 0 then (dist, parent)
    else
      var q := Passes(edges, dist, parent, n - 1);
      PassResult(edges, q.0, q.1)
  }

  /** Whether the list entry `(a, b)` improves the distance of `b`. */
  ghost predicate Improvable(edges: map<Key, int>, dist: seq<int>, a: int, b: int)
    requires 0 <= a < |dist| && 0 <= b < |dist|
  {
    (a, b) in edges && dist[a] != INF && dist[a] + edges[(a, b)] < dist[b]
  }

  /** Whether some entry of the list improves a distance. */
  ghost predicate Relaxable(edges: map<Key, int>, dist: seq<int>) {
    exists a, b :: 0 <= a < |dist| && 0 <= b < |dist| && Improvable(edges, dist, a, b)
  }

  /** The keys `(a, 0..b - 1)` none of which improves leave the arrays as
      they are. */
  lemma {:induction false} RowSettled(edges: map<Key, int>, dist: seq<int>, parent: seq<int>, a: int, b: int)
    requires |parent| == |dist| && 0 <= a < |dist| && 0 <= b <= |dist|
    requires forall c :: 0 <= c < b ==> !Improvable(edges, dist, a, c)
    ensures RowUpTo(edges, dist, parent, a, b) == (dist, parent)
  {
    if b > 0 {
      RowSettled(edges, dist, parent, a, b - 1);
      assert !Improvable(edges, dist, a, b - 1);
    }
  }

  /** Rows of keys none of which improves leave the arrays as they are. */
  lemma {:induction false} RowsSettled(edges: map<Key, int>, dist: seq<int>, parent: seq<int>, a: int)
    requires |parent| == |dist| && 0 <= a <= |dist| && !Relaxable(edges, dist)
    ensures Rows(edges, dist, parent, a) == (dist, parent)
  {
    if a > 0 {
      RowsSettled(edges, dist, parent, a - 1);
      RowSettled(edges, dist, parent, a - 1, |dist|);
    }
  }

  /** Once no entry of the list improves the distances, a pass of
      bellman_ford changes nothing, and neither do any further passes. */
  lemma {:induction false} PassesSettled(edges: map<Key, int>, dist: seq<int>, parent: seq<int>, n: nat)
    requires |parent| == |dist| && !Relaxable(edges, dist)
    ensures PassResult(edges, dist, parent) == (dist, parent)
    ensures Passes(edges, dist, parent, n) == (dist, parent)
  {
    RowsSettled(edges, dist, parent, |dist|);
    if n > 0 {
      PassesSettled(edges, dist, parent, n - 1);
    }
  }

  /** When the first pass leaves distances no entry improves, every later
      pass keeps what the first one left. */
  lemma {:induction false} SettledAfterFirst(edges: map<Key, int>, dist: seq<int>, parent: seq<int>,
                                             d1: seq<int>, p1: seq<int>, n: nat)
    requires |parent| == |dist| && PassResult(edges, dist, parent) == (d1, p1) && !Relaxable(edges, d1)
    ensures Passes(edges, dist, parent, n + 1) == (d1, p1)
  {
    if n > 0 {
      SettledAfterFirst(edges, dist, parent, d1, p1, n - 1);
      PassesSettled(edges, d1, p1, 0);
    }
  }

  // ---------------------------------------------------------------------
  // Reports

  /** How the per-round trace prints a distance: INF as `-1`. */
  function Shown(d: int): int {
    if d == INF then -1 else d
  }

  /** One row of the per-round trace: the shown cost of destinations
      `1..count`.  An unreached node and a node at distance `-1` print alike. */
  function TraceRow(dist: seq<int>, count: nat): (row: seq<int>)
    requires |dist| == count + 1
    ensures |row| == count
    ensures forall j :: 1 <= j <= count ==> (row[j - 1] == -1 <==> dist[j] == INF || dist[j] == -1)
    ensures forall j :: 1 <= j <= count && dist[j] != INF ==> row[j - 1] == dist[j]
  {
    seq(count, k requires 0 <= k < count => Shown(dist[k + 1]))
  }

  /** The per-round trace of a link-state run. */
  function Trace(ls: LinkState, count: nat): (t: seq<seq<int>>)
    requires forall k :: 0 <= k < |ls.rounds| ==> |ls.rounds[k]| == count + 1
    ensures |t| == |ls.rounds|
    ensures forall k :: 0 <= k < |t| ==> t[k] == TraceRow(ls.rounds[k], count)
  {
    seq(|ls.rounds|, k requires 0 <= k < |ls.rounds| => TraceRow(ls.rounds[k], count))
  }

  datatype PathRow = PathRow(dest: int, cost: int, path: seq<int>)

  /** The final link-state table: one row per destination other than the
      source, in increasing order, with the raw distance (INF unprinted as
      `-1` here) and the path printed by print_parents followed by the
      destination. */
  function LinkStateTable(ls: LinkState, src: int, count: nat): (rows: seq<PathRow>)
    requires 1 <= src <= count && |ls.distances| == count + 1 && |ls.parent| == count + 1
    requires ParentArray(ls.parent)
    ensures |rows| == count - 1
    ensures forall k :: 0 <= k < |rows| ==>
      && 1 <= rows[k].dest <= count && rows[k].dest != src
      && rows[k].cost == ls.distances[rows[k].dest]
      && rows[k].path == Chain(ls.parent, rows[k].dest, count) + [rows[k].dest]
    ensures forall k :: 0 <= k < |rows| - 1 ==> rows[k].dest < rows[k + 1].dest
  {
    seq(count - 1, k requires 0 <= k < count - 1 =>
      var i := if k + 1 < src then k + 1 else k + 2;
      PathRow(i, ls.distances[i], Chain(ls.parent, i, count) + [i]))
  }

  datatype HopRow = HopRow(dest: int, nextHop: int, cost: int, path: seq<int>)

  /** The next hop the distance-vector table prints: the predecessor, or the
      source itself when there is none. */
  function NextHop(parent: seq<int>, src: int, v: int): (r: int)
    requires 0 <= v < |parent|
    ensures parent[v] == -1 ==> r == src
    ensures parent[v] != -1 ==> r == parent[v]
  {
    if parent[v] == -1 then src else parent[v]
  }

  /** The distance-vector table: one row per destination `1..count`. */
  function DistanceVectorTable(dv: DistanceVector, src: int, count: nat): (rows: seq<HopRow>)
    requires |dv.distances| == count + 1 && |dv.parent| == count + 1
    requires ParentArray(dv.parent)
    ensures |rows| == count
    ensures forall k :: 0 <= k < count ==>
      && rows[k].dest == k + 1
      && rows[k].nextHop == (if dv.parent[k + 1] == -1 then src else dv.parent[k + 1])
      && rows[k].cost == dv.distances[k + 1]
      && rows[k].path == Chain(dv.parent, k + 1, count) + [k + 1]
  {
    seq(count, k requires 0 <= k < count =>
      HopRow(k + 1, NextHop(dv.parent, src, k + 1), dv.distances[k + 1], Chain(dv.parent, k + 1, count) + [k + 1]))
  }

  /** The distance-vector table of a finished run.  Every unreached
      destination is reported with the source as next hop, its raw INF
      distance and a one-node path (the quirk); every other row's next hop
      is the node its path passes just before the destination, through an
      edge of the list.  With no negative cost, a reached destination's
      path is a walk from the source that costs no more than the row's
      cost. */
  lemma DistanceVectorRows(edges: map<Key, int>, count: nat, src: int, dv: DistanceVector, k: int)
    requires DistanceVectorComputed(edges, count, src, dv) && 0 <= k < count
    ensures var row := DistanceVectorTable(dv, src, count)[k];
      && (row.cost == INF ==> row.nextHop == src && row.path == [row.dest])
      && (|row.path| >= 2 ==> row.nextHop == row.path[|row.path| - 2] && (row.nextHop, row.dest) in edges)
      && (row.cost != INF && row.dest != src ==> |row.path| >= 2)
      && (NoNegativeEdges(edges) && row.cost != INF ==>
            row.path[0] == src && Hops(edges, row.path) && PathCost(edges, row.path) <= row.cost)
  {
    var v := k + 1;
    var row := DistanceVectorTable(dv, src, count)[k];
    assert row == HopRow(v, NextHop(dv.parent, src, v), dv.distances[v], Chain(dv.parent, v, count) + [v]);
    ChainFollowsParents(dv.parent, v, count);
    if dv.distances[v] == INF {
      assert v != src && dv.distances[v] == Initial(src, v);
      assert dv.parent[v] == -1;
    } else {
      if v != src {
        assert dv.distances[v] != Initial(src, v);
      }
      if NoNegativeEdges(edges) {
        assert PrintsWalk(edges, src, dv.parent, v, count, dv.distances[v]);
      }
    }
  }

  /** In a link-state table every reached destination's row is a path from
      the source over relaxable links whose cost is the row's cost, and every
      unreached one prints only the destination. */
  lemma LinkStateRows(cells: map<Key, int>, count: nat, src: int, ls: LinkState, k: int)
    requires LinkStateComputed(cells, count, src, ls) && 0 <= k < count - 1
    ensures var row := LinkStateTable(ls, src, count)[k];
      && (row.cost != INF ==> row.path[0] == src && Links(cells, row.path) && PathCost(cells, row.path) == row.cost)
      && (row.cost == INF ==> row.path == [row.dest])
  {
    var row := LinkStateTable(ls, src, count)[k];
    if row.cost == INF {
      assert ls.parent[row.dest] == -1;
    }
  }
}
