/** The `NetworkTopology` object: the adjacency matrix, the edge list and the
    watermark, updated in place by the edge commands, and the two routing
    engines that read them.

    The ghost field `cells` mirrors the matrix as a map, so that every
    mutating method can be stated as one transition of module Graph:
    `Store() == Graph.AddEdge(old(Store()), ...)`.
 */
module Topology {
  import opened Graph
  import opened Paths
  import opened Routing
  import opened Relaxation

  /** The node identifiers `1..n`. */
  function Nodes(n: nat): (r: set<int>)
    ensures forall v :: v in r <==> 1 <= v <= n
    ensures |r| == n
  {
    if n == 0 then {} else Nodes(n - 1) + {n}
  }

  /** Fewer than `n` visited nodes among `1..n` leave one unvisited. */
  lemma UnvisitedExists(seen: set<int>, n: nat)
    requires seen <= Nodes(n) && |seen| < n
    ensures exists v :: 1 <= v <= n && v !in seen
  {
    var rest := Nodes(n) - seen;
    assert |rest| > 0;
    var v :| v in rest;
  }

  /** What Dijkstra's arrays satisfy between relaxations: a shortest-path
      tree whose every predecessor has been visited, with the visited nodes
      ranked before the unvisited ones. */
  ghost predicate Visiting(cells: map<Key, int>, count: int, src: int,
                           dist: seq<int>, test: seq<bool>, parent: seq<int>, rank: seq<int>) {
    && ShortestPathTree(cells, count, src, dist, parent, rank)
    && |test| == count + 1
    && (forall v :: 0 <= v <= count ==> dist[v] <= INF)
    && (forall v :: 0 <= v <= count && !test[v] ==> rank[v] == count + 1)
    && (forall v :: 0 <= v <= count && parent[v] != -1 ==> test[parent[v]])
  }

  /** The visited nodes after `k` rounds: the set `seen` of `k` nodes, each
      ranked by the round it was visited in, the source first. */
  ghost predicate Visited(count: int, src: int, test: seq<bool>, rank: seq<int>, seen: set<int>, k: nat)
    requires |test| == count + 1 && |rank| == count + 1
  {
    && 0 <= count
    && seen <= Nodes(count) && |seen| == k
    && (forall v :: 0 <= v <= count ==> (test[v] <==> v in seen))
    && (forall v :: 0 <= v <= count && test[v] ==> rank[v] <= k)
    && (k > 0 ==> 0 <= src <= count && test[src])
  }

  /** Recorded rounds: every row holds all `n + 1` distances, and each
      distance only decreases from round to round. */
  ghost predicate Decreasing(rounds: seq<seq<int>>, n: int) {
    && (forall k :: 0 <= k < |rounds| ==> |rounds[k]| == n + 1)
    && (forall k, k', v :: 0 <= k < k' < |rounds| && 0 <= v <= n ==> rounds[k'][v] <= rounds[k][v])
  }

  /** Everything the rounds loop of dijkstra keeps. */
  ghost predicate Progress(cells: map<Key, int>, n: int, src: int, dist: seq<int>, test: seq<bool>,
                           parent: seq<int>, rank: seq<int>, seen: set<int>, rounds: seq<seq<int>>) {
    && Visiting(cells, n, src, dist, test, parent, rank)
    && Visited(n, src, test, rank, seen, |rounds|)
    && (|rounds| == 0 ==> forall v :: 0 <= v <= n && v != src ==> dist[v] == INF)
    && Decreasing(rounds, n)
    && (|rounds| > 0 ==> rounds[|rounds| - 1] == dist)
    && Optimal(cells, n, src, dist, test, rank, |rounds|)
  }

  /** Why the distances end up minimal: they are relaxed along the visit
      order, the source is visited first, and, with no negative link, every
      visited node holds the cost of its shortest link walk. */
  ghost predicate Optimal(cells: map<Key, int>, n: int, src: int, dist: seq<int>, test: seq<bool>,
                          rank: seq<int>, k: nat)
    requires |dist| == n + 1 && |test| == n + 1 && |rank| == n + 1
  {
    && Ordered(cells, n, dist, rank)
    && (k > 0 ==> 1 <= src <= n && rank[src] == 1 && forall v :: 1 <= v <= n && v != src ==> 2 <= rank[v])
    && (NoNegativeLinks(cells) ==> Settled(cells, n, src, dist, test))
  }

  /** No link walk from the source is shorter than the distance of the
      visited node it ends at. */
  ghost predicate Settled(cells: map<Key, int>, n: int, src: int, dist: seq<int>, test: seq<bool>)
    requires |dist| == n + 1 && |test| == n + 1
  {
    forall w {:trigger LinkWalk(cells, n, src, w)} :: LinkWalk(cells, n, src, w) && test[Last(w)] ==> dist[Last(w)] <= PathCost(cells, w)
  }

  /** What a sweep from `m` does: it never raises a distance; node 0, the
      visited nodes and the nodes no link from a reached `m` leads to keep
      their distance and predecessor; every other node ends at the shorter of
      its own distance and the one through `m`, and takes `m` as predecessor
      exactly when that is shorter. */
  lemma SweepResult(cells: map<Key, int>, dist: seq<int>, test: seq<bool>, parent: seq<int>, m: int)
    requires |test| == |dist| && |parent| == |dist| && 0 <= m < |dist| && test[m]
    ensures var r, p := Swept(cells, dist, test, m), SweptParents(cells, dist, test, parent, m);
      && (forall j :: 0 <= j < |dist| ==> r[j] <= dist[j])
      && (forall j :: 0 <= j < |dist| && (j == 0 || test[j] || !IsLink(cells, m, j) || dist[m] == INF) ==>
            r[j] == dist[j] && p[j] == parent[j])
      && (forall j :: 1 <= j < |dist| && !test[j] && IsLink(cells, m, j) && dist[m] != INF ==>
            && r[j] == (if dist[m] + cells[(m, j)] < dist[j] then dist[m] + cells[(m, j)] else dist[j])
            && p[j] == (if dist[m] + cells[(m, j)] < dist[j] then m else parent[j]))
  {
  }

  /** The sweep from `m` has handled the nodes below `j` and not yet touched
      the others. */
  ghost predicate SweptUpTo(cells: map<Key, int>, start: seq<int>, test: seq<bool>, parent0: seq<int>, m: int, j: int,
                            dist: seq<int>, parent: seq<int>)
    requires |test| == |start| && |parent0| == |start| && 0 <= m < |start| && test[m]
  {
    && |dist| == |start| && |parent| == |start|
    && (forall v :: 0 <= v < |start| && v < j ==>
          dist[v] == Swept(cells, start, test, m)[v] && parent[v] == SweptParents(cells, start, test, parent0, m)[v])
    && (forall v :: 0 <= v < |start| && j <= v ==> dist[v] == start[v] && parent[v] == parent0[v])
  }

  /** One step of the sweep: at `j` the arrays still hold the start values of
      `j` and `m`, and relaxing `j` exactly when it improves extends the
      handled prefix. */
  lemma SweepNext(cells: map<Key, int>, start: seq<int>, test: seq<bool>, parent0: seq<int>, m: int, j: int,
                  dist: seq<int>, parent: seq<int>)
    requires |test| == |start| && |parent0| == |start| && 0 <= m < |start| && test[m]
    requires SweptUpTo(cells, start, test, parent0, m, j, dist, parent) && 1 <= j < |start|
    ensures dist[m] == start[m] && dist[j] == start[j]
    ensures Improves(cells, start, test, m, j) ==>
      SweptUpTo(cells, start, test, parent0, m, j + 1, dist[j := dist[m] + cells[(m, j)]], parent[j := m])
    ensures !Improves(cells, start, test, m, j) ==>
      SweptUpTo(cells, start, test, parent0, m, j + 1, dist, parent)
  {
    if m < j {
      assert dist[m] == Swept(cells, start, test, m)[m];
    }
  }

  /** Visiting the node `m` chosen by min_distance keeps both invariants;
      in the first round it is the source. */
  lemma VisitStep(cells: map<Key, int>, count: int, src: int, dist: seq<int>, test: seq<bool>,
                  parent: seq<int>, rank: seq<int>, seen: set<int>, k: nat, m: int)
    requires Visiting(cells, count, src, dist, test, parent, rank)
    requires Visited(count, src, test, rank, seen, k) && k < count - 1
    requires k == 0 ==> forall v :: 0 <= v <= count && v != src ==> dist[v] == INF
    requires Closest(dist, test, count, m)
    ensures Visiting(cells, count, src, dist, test[m := true], parent, rank[m := k + 1])
    ensures Visited(count, src, test[m := true], rank[m := k + 1], seen + {m}, k + 1)
  {
    if k == 0 {
      assert !test[src];
      assert m == src;
    }
    var test', rank' := test[m := true], rank[m := k + 1];
    forall v | 0 <= v <= count && parent[v] != -1
      ensures TreeEdge(cells, dist, rank', parent[v], v)
    {
      assert TreeEdge(cells, dist, rank, parent[v], v);
    }
  }

  /** Improving the distance of an unvisited `j` through the visited `m`
      keeps the tree: the new hop is a tree edge and no node hangs below `j`. */
  lemma RelaxStep(cells: map<Key, int>, count: int, src: int, dist: seq<int>, test: seq<bool>,
                  parent: seq<int>, rank: seq<int>, m: int, j: int)
    requires Visiting(cells, count, src, dist, test, parent, rank)
    requires 1 <= m <= count && test[m] && rank[m] <= count && test[src]
    requires 1 <= j <= count && !test[j]
    requires IsLink(cells, m, j) && dist[m] != INF && dist[m] + cells[(m, j)] < dist[j]
    ensures Visiting(cells, count, src, dist[j := dist[m] + cells[(m, j)]], test, parent[j := m], rank)
  {
    var dist', parent' := dist[j := dist[m] + cells[(m, j)]], parent[j := m];
    forall v | 0 <= v <= count && parent'[v] != -1
      ensures TreeEdge(cells, dist', rank, parent'[v], v)
    {
      if v != j {
        assert TreeEdge(cells, dist, rank, parent[v], v);
      }
    }
  }

  /** The first node of `w` that is not marked. */
  lemma FirstUnmarked(marked: seq<bool>, w: seq<int>) returns (i: int)
    requires |w| > 0 && (forall j :: 0 <= j < |w| ==> 0 <= w[j] < |marked|) && !marked[Last(w)]
    ensures 0 <= i < |w| && !marked[w[i]]
    ensures forall j :: 0 <= j < i ==> marked[w[j]]
  {
    i := 0;
    while marked[w[i]]
      invariant 0 <= i < |w|
      invariant forall j :: 0 <= j < i ==> marked[w[j]]
      decreases |w| - i
    {
      i := i + 1;
    }
  }

  /** With no negative link, the first unvisited node `w[i]` of a link walk
      is no farther than the walk's cost: the prefix before it runs through
      visited nodes, which are settled, and its last link has been relaxed. */
  lemma Frontier(cells: map<Key, int>, count: int, src: int, dist: seq<int>, test: seq<bool>,
                 parent: seq<int>, rank: seq<int>, seen: set<int>, k: nat, w: seq<int>, i: int)
    requires NoNegativeLinks(cells)
    requires Visiting(cells, count, src, dist, test, parent, rank)
    requires Visited(count, src, test, rank, seen, k) && k <= count
    requires Ordered(cells, count, dist, rank) && Settled(cells, count, src, dist, test)
    requires LinkWalk(cells, count, src, w) && 0 <= i < |w| && !test[w[i]]
    requires forall j :: 0 <= j < i ==> test[w[j]]
    ensures dist[w[i]] <= PathCost(cells, w)
  {
    LinkWalkCost(cells, w, i + 1);
    if i > 0 {
      var u, v := w[i - 1], w[i];
      LinkWalkPrefix(cells, count, src, w, i);
      assert test[u] && IsLink(cells, u, v);
      assert dist[u] <= PathCost(cells, w[..i]);
      if dist[u] != INF {
        assert rank[u] < rank[v];
      }
    }
  }

  /** A round keeps the minimality invariants: `m` is the closest unvisited
      node and the sweep from it relaxed every link out of it. */
  lemma RoundKeepsOptimal(cells: map<Key, int>, count: int, src: int, dist: seq<int>, test: seq<bool>,
                          parent: seq<int>, rank: seq<int>, seen: set<int>, k: nat, m: int, dist': seq<int>)
    requires Visiting(cells, count, src, dist, test, parent, rank)
    requires Visited(count, src, test, rank, seen, k) && k < count - 1
    requires k == 0 ==> forall v :: 0 <= v <= count && v != src ==> dist[v] == INF
    requires Optimal(cells, count, src, dist, test, rank, k)
    requires Closest(dist, test, count, m)
    requires dist' == Swept(cells, dist, test[m := true], m)
    ensures Optimal(cells, count, src, dist', test[m := true], rank[m := k + 1], k + 1)
  {
    var test', rank' := test[m := true], rank[m := k + 1];
    SweepResult(cells, dist, test', parent, m);
    if k == 0 {
      assert !test[src];
      assert m == src;
    } else {
      assert test[src];
    }
    forall u, v | 1 <= u <= count && 1 <= v <= count && rank'[u] < rank'[v] && IsLink(cells, u, v) && dist'[u] != INF
      ensures dist'[v] <= dist'[u] + cells[(u, v)]
    {
      if u == m {
        assert !test'[v];
      } else if v == m {
        assert test[u] && rank[u] < rank[m];
      } else {
        assert test[u] && rank[u] < rank[v];
      }
    }
    if NoNegativeLinks(cells) {
      forall w | LinkWalk(cells, count, src, w) && test'[Last(w)]
        ensures dist'[Last(w)] <= PathCost(cells, w)
      {
        if Last(w) == m {
          var i := FirstUnmarked(test, w);
          Frontier(cells, count, src, dist, test, parent, rank, seen, k, w, i);
        } else {
          assert test[Last(w)];
        }
      }
    }
  }

  /** After `n - 1` rounds exactly one node of `1..n` is unvisited. */
  lemma OneUnvisited(seen: set<int>, n: nat, x: int, y: int)
    requires seen <= Nodes(n) && |seen| == n - 1
    requires 1 <= x <= n && 1 <= y <= n && x !in seen && y !in seen
    ensures x == y
  {
    var rest := Nodes(n) - seen;
    assert Nodes(n) * seen == seen;
    assert |rest| == 1;
    assert rest * {x} == {x};
    assert |rest - {x}| == 0;
    assert y in rest;
  }

  /** The end of a round: `m` was the closest unvisited node and the sweep
      from it only lowered distances, so visiting `m` and recording the new
      distances keeps `Progress`. */
  lemma RoundEnds(cells: map<Key, int>, n: nat, src: int, d0: seq<int>, t0: seq<bool>, p0: seq<int>,
                  rank: seq<int>, seen: set<int>, rounds: seq<seq<int>>, m: int, dist: seq<int>, parent: seq<int>)
    requires Progress(cells, n, src, d0, t0, p0, rank, seen, rounds) && |rounds| < n - 1
    requires Closest(d0, t0, n, m)
    requires Visiting(cells, n, src, dist, t0[m := true], parent, rank[m := |rounds| + 1])
    requires dist == Swept(cells, d0, t0[m := true], m)
    ensures Progress(cells, n, src, dist, t0[m := true], parent, rank[m := |rounds| + 1], seen + {m}, rounds + [dist])
  {
    VisitStep(cells, n, src, d0, t0, p0, rank, seen, |rounds|, m);
    RoundKeepsOptimal(cells, n, src, d0, t0, p0, rank, seen, |rounds|, m, dist);
    SweepResult(cells, d0, t0[m := true], p0, m);
    AppendRound(rounds, d0, dist, n);
    assert |rounds + [dist]| == |rounds| + 1;
  }

  /** Before the first round: only the source has a distance. */
  lemma LinkStateStart(cells: map<Key, int>, n: int, src: int, dist: seq<int>, test: seq<bool>,
              parent: seq<int>, rank: seq<int>)
    requires 1 <= src <= n
    requires |dist| == n + 1 && forall v :: 0 <= v <= n ==> dist[v] == Initial(src, v)
    requires |test| == n + 1 && forall v :: 0 <= v <= n ==> !test[v]
    requires |parent| == n + 1 && forall v :: 0 <= v <= n ==> parent[v] == -1
    requires |rank| == n + 1 && forall v :: 0 <= v <= n ==> rank[v] == n + 1
    ensures Progress(cells, n, src, dist, test, parent, rank, {}, [])
  {
  }

  /** After the last round the arrays and the recorded rounds are what a
      link-state run promises. */
  lemma LinkStateFinished(cells: map<Key, int>, n: int, src: int, ls: LinkState,
                          test: seq<bool>, rank: seq<int>, seen: set<int>)
    requires Progress(cells, n, src, ls.distances, test, ls.parent, rank, seen, ls.rounds)
    requires |ls.rounds| == n - 1 && Replays(cells, n, src, ls)
    ensures LinkStateComputed(cells, n, src, ls)
  {
    forall v | 1 <= v <= n && ls.parent[v] != -1
      ensures 1 <= ls.parent[v] <= n && IsLink(cells, ls.parent[v], v)
      ensures ls.distances[v] == ls.distances[ls.parent[v]] + cells[(ls.parent[v], v)]
    {
      assert TreeEdge(cells, ls.distances, rank, ls.parent[v], v);
    }
    forall v | 1 <= v <= n && ls.distances[v] != INF
      ensures var p := Chain(ls.parent, v, n) + [v];
        p[0] == src && Last(p) == v && Links(cells, p) && PathCost(cells, p) == ls.distances[v]
    {
      TreePath(cells, n, src, ls.distances, ls.parent, rank, v, n);
    }
    assert VisitOrder(cells, n, src, ls.distances, rank);
    if NoNegativeLinks(cells) {
      forall w | LinkWalk(cells, n, src, w)
        ensures ls.distances[Last(w)] <= PathCost(cells, w)
      {
        if !test[Last(w)] {
          var i := FirstUnmarked(test, w);
          OneUnvisited(seen, n, w[i], Last(w));
          Frontier(cells, n, src, ls.distances, test, ls.parent, rank, seen, n - 1, w, i);
        }
      }
    }
  }

  /** The arrays of a dijkstra run are those the replayed rounds leave, and
      the visited marks are those of the nodes picked so far. */
  ghost predicate Replaying(cells: map<Key, int>, count: int, src: int, rounds: seq<seq<int>>,
                            picks: seq<int>, parents: seq<seq<int>>, dist: seq<int>, test: seq<bool>, parent: seq<int>)
  {
    && count >= 0
    && Replayed(cells, count, src, rounds, picks, parents)
    && test == Marks(picks, count)
    && dist == LastOr(rounds, StartDistances(count, src))
    && parent == LastOr(parents, NoParents(count))
  }

  /** Marking the node `m` visited marks exactly the nodes picked so far
      and `m`. */
  lemma MarkPick(picks: seq<int>, m: int, count: int)
    requires 0 <= m <= count
    ensures Marks(picks, count)[m := true] == Marks(picks + [m], count)
  {
    var l, r := Marks(picks, count)[m := true], Marks(picks + [m], count);
    forall v | 0 <= v <= count
      ensures l[v] == r[v]
    {
      assert v in picks + [m] <==> v in picks || v == m;
    }
  }

  /** A round played from the arrays the replayed rounds leave extends the
      replay by that round. */
  lemma ReplayStep(cells: map<Key, int>, count: int, src: int,
                   rounds: seq<seq<int>>, picks: seq<int>, parents: seq<seq<int>>, m: int, dist: seq<int>, parent: seq<int>)
    requires count >= 0 && Replayed(cells, count, src, rounds, picks, parents)
    requires Closest(LastOr(rounds, StartDistances(count, src)), Marks(picks, count), count, m)
    requires dist == Swept(cells, LastOr(rounds, StartDistances(count, src)), Marks(picks + [m], count), m)
    requires parent == SweptParents(cells, LastOr(rounds, StartDistances(count, src)), Marks(picks + [m], count),
                                    LastOr(parents, NoParents(count)), m)
    ensures Replayed(cells, count, src, rounds + [dist], picks + [m], parents + [parent])
  {
    var rounds', picks', parents' := rounds + [dist], picks + [m], parents + [parent];
    var n := |rounds|;
    forall k | 0 <= k < n + 1
      ensures RoundReplayed(cells, count, src, rounds', picks', parents', k)
    {
      assert picks'[..k] == if k < n then picks[..k] else picks;
      assert picks'[..k + 1] == if k < n then picks[..k + 1] else picks';
      if k < n {
        assert RoundReplayed(cells, count, src, rounds, picks, parents, k);
      }
    }
  }

  /** Appending a row no greater than the last keeps the rounds decreasing. */
  lemma AppendRound(rounds: seq<seq<int>>, before: seq<int>, row: seq<int>, n: nat)
    requires Decreasing(rounds, n) && |row| == n + 1 && |before| == |row|
    requires |rounds| > 0 ==> rounds[|rounds| - 1] == before
    requires forall j :: 0 <= j < |before| ==> row[j] <= before[j]
    ensures Decreasing(rounds + [row], n)
  {
    var r := rounds + [row];
    forall k, k', v | 0 <= k < k' < |r| && 0 <= v <= n
      ensures r[k'][v] <= r[k][v]
    {
      if k' == |rounds| {
        assert r[k'][v] <= before[v];
      }
    }
  }

  class NetworkTopology {
    var count: int
    var edges: map<Key, int>
    const matrix: array2<int>
    ghost var cells: map<Key, int>

    /** The store as a value. */
    ghost function Store(): State
      reads this
    {
      State(cells, edges, count)
    }

    /** `cells` is the matrix, entry by entry. */
    ghost predicate Mirrors()
      reads this, matrix
    {
      && matrix.Length0 == MAX_N && matrix.Length1 == MAX_N
      && (forall u, v :: 0 <= u < MAX_N && 0 <= v < MAX_N ==> (u, v) in cells && matrix[u, v] == cells[(u, v)])
    }

    ghost predicate Valid()
      reads this, matrix
    {
      Mirrors() && WellFormed(Store())
    }

    /** One matrix write `adjacencyMatrix[u][v] = x`. */
    method SetCell(u: int, v: int, x: int)
      requires Mirrors() && InRange(u) && InRange(v)
      modifies this`cells, matrix
      ensures Mirrors() && cells == old(cells)[(u, v) := x] && cells.Keys == old(cells).Keys
    {
      matrix[u, v] := x;
      cells := cells[(u, v) := x];
    }

    /** Every matrix entry starts as `-1`, with no edges and count 0. */
    constructor ()
      ensures Valid() && fresh(matrix)
      ensures Store() == Empty()
    {
      count := 0;
      edges := map[];
      matrix := new int[MAX_N, MAX_N]((u, v) => NO_EDGE);
      cells := Empty().cells;
    }

    /** addEdge. */
    method AddEdge(source: int, destination: int, cost: int) returns (r: Result<()>)
      requires Valid() && InRange(source) && InRange(destination)
      modifies this, matrix
      ensures Valid()
      ensures var spec := Graph.AddEdge(old(Store()), source, destination, cost);
        && (r.Failure? <==> spec.Failure?)
        && (spec.Failure? ==> r.error == spec.error && Store() == old(Store()))
        && (spec.Success? ==> Store() == spec.value)
    {
      if source == destination {
        return Failure(SelfLoop);
      }
      if matrix[source, destination] != NO_EDGE || matrix[destination, source] != NO_EDGE {
        return Failure(TopologyAlreadySet);
      }
      SetCell(source, destination, cost);
      SetCell(destination, source, cost);
      SetCell(source, source, 0);
      SetCell(destination, destination, 0);
      edges := Insert(Insert(edges, (source, destination), cost), (destination, source), cost);
      count := Max(count, Max(source, destination));
      assert Store() == Graph.AddEdge(old(Store()), source, destination, cost).value;
      r := Success(());
    }

    /** removeEdge; `removed` is false where the source prints
        "No such edge exists". */
    method RemoveEdge(source: int, dest: int) returns (removed: bool)
      requires Valid() && InRange(source) && InRange(dest)
      modifies this, matrix
      ensures Valid()
      ensures removed <==> old(matrix[source, dest]) != NO_EDGE
      ensures Store() == Graph.RemoveEdge(old(Store()), source, dest)
    {
      if matrix[source, dest] == NO_EDGE {
        return false;
      }
      SetCell(source, dest, NO_EDGE);
      SetCell(dest, source, NO_EDGE);
      edges := edges - {(source, dest), (dest, source)};
      removed := true;
    }

    /** modifyEdge. */
    method ModifyEdge(source: int, dest: int, cost: int)
      requires Valid() && InRange(source) && InRange(dest)
      modifies this, matrix
      ensures Valid()
      ensures Store() == Graph.ModifyEdge(old(Store()), source, dest, cost)
    {
      count := Max(count, Max(source, dest));
      if matrix[source, dest] == NO_EDGE {
        SetCell(source, dest, cost);
        SetCell(dest, source, cost);
        SetCell(source, source, 0);
        SetCell(dest, dest, 0);
        edges := Insert(Insert(edges, (source, dest), cost), (dest, source), cost);
        assert Store() == Graph.ModifyEdge(old(Store()), source, dest, cost);
      } else {
        SetCell(source, dest, cost);
        SetCell(dest, source, cost);
        edges := edges[(source, dest) := cost][(dest, source) := cost];
        assert Store() == Graph.ModifyEdge(old(Store()), source, dest, cost);
      }
    }

    /** getCount: the watermark bounds every node of the edge list. */
    function GetCount(): (c: int)
      reads this, matrix
      requires Valid()
      ensures 0 <= c < MAX_N
      ensures forall k :: k in edges ==> k.0 <= c && k.1 <= c
    {
      count
    }

    /** The cells printAdjacencyMatrix prints, row by row. */
    method AdjacencyRows() returns (rows: seq<seq<int>>)
      requires Valid()
      ensures rows == Submatrix(Store())
    {
      ghost var shown := Submatrix(Store());
      rows := [];
      for i := 0 to count
        invariant rows == shown[..i]
      {
        var row := MatrixRow(i + 1);
        assert shown[..i + 1] == shown[..i] + [row];
        rows := rows + [row];
      }
    }

    /** The printed row of node `u`: its entries in columns `1..count`. */
    method MatrixRow(u: int) returns (row: seq<int>)
      requires Valid() && 1 <= u <= count
      ensures row == PrintedRow(Store(), u)
    {
      ghost var shown := PrintedRow(Store(), u);
      row := [];
      for j := 0 to count
        invariant |row| == j && forall k :: 0 <= k < j ==> row[k] == shown[k]
      {
        assert matrix[u, j + 1] == cells[(u, j + 1)];
        row := row + [matrix[u, j + 1]];
      }
    }

    /** min_distance: the unvisited node of least distance, the highest
        index among ties.  Some unvisited node must have a distance of at
        most INF, or the source returns an uninitialised index. */
    method MinDistance(distances: array<int>, test: array<bool>) returns (m: int)
      requires distances.Length == count + 1 && test.Length == count + 1
      requires exists i :: 1 <= i <= count && !test[i] && distances[i] <= INF
      ensures Closest(distances[..], test[..], count, m)
    {
      var minimum := INF;
      m := 0;
      for i := 1 to count + 1
        invariant minimum <= INF
        invariant m == 0 ==> minimum == INF
        invariant m != 0 ==> 1 <= m < i && !test[m] && distances[m] == minimum
        invariant forall k :: 1 <= k < i && !test[k] ==> minimum <= distances[k]
        invariant forall k :: m < k < i && !test[k] ==> minimum < distances[k]
      {
        if !test[i] && distances[i] <= minimum {
          minimum := distances[i];
          m := i;
        }
      }
    }

    /** The relaxation sweep of one Dijkstra round, from the node `m` just
        visited: every unvisited `j` behind a relaxable link whose distance
        improves through `m` gets that distance and `m` as predecessor. */
    method Relax(src: int, m: int, distances: array<int>, test: array<bool>, parent: array<int>, ghost rank: seq<int>)
      requires Valid() && distances != parent
      requires 1 <= m <= count && 1 <= src <= count && test.Length == count + 1 && test[m] && test[src]
      requires Visiting(cells, count, src, distances[..], test[..], parent[..], rank)
      requires rank[m] <= count
      modifies distances, parent
      ensures test[..] == old(test[..])
      ensures Visiting(cells, count, src, distances[..], test[..], parent[..], rank)
      ensures distances[..] == Swept(cells, old(distances[..]), test[..], m)
      ensures parent[..] == SweptParents(cells, old(distances[..]), test[..], old(parent[..]), m)
    {
      ghost var start, parent0 := distances[..], parent[..];
      for j := 1 to count + 1
        invariant Visiting(cells, count, src, distances[..], test[..], parent[..], rank)
        invariant SweptUpTo(cells, start, test[..], parent0, m, j, distances[..], parent[..])
      {
        SweepCell(src, m, j, distances, test, parent, rank, start, parent0);
      }
      assert distances[..] == Swept(cells, start, test[..], m);
      assert parent[..] == SweptParents(cells, start, test[..], parent0, m);
    }

    /** The cell `(m, j)` of relax: `j` improves through `m` when it is
        unvisited, linked from `m` and cheaper that way. */
    method SweepCell(src: int, m: int, j: int, distances: array<int>, test: array<bool>, parent: array<int>,
                     ghost rank: seq<int>, ghost start: seq<int>, ghost parent0: seq<int>)
      requires Valid() && distances != parent
      requires 1 <= m <= count && 1 <= src <= count && 1 <= j <= count
      requires test.Length == count + 1 && test[m] && test[src]
      requires Visiting(cells, count, src, distances[..], test[..], parent[..], rank) && rank[m] <= count
      requires |start| == count + 1 && |parent0| == count + 1
      requires SweptUpTo(cells, start, test[..], parent0, m, j, distances[..], parent[..])
      modifies distances, parent
      ensures Visiting(cells, count, src, distances[..], test[..], parent[..], rank)
      ensures SweptUpTo(cells, start, test[..], parent0, m, j + 1, distances[..], parent[..])
    {
      SweepNext(cells, start, test[..], parent0, m, j, distances[..], parent[..]);
      assert matrix[m, j] == cells[(m, j)];
      if !test[j] && matrix[m, j] != 0 && matrix[m, j] != NO_EDGE && distances[m] != INF
         && distances[m] + matrix[m, j] < distances[j] {
        assert matrix[m, j] == cells[(m, j)];
        Improve(src, m, j, distances, test, parent, rank);
      }
    }

    /** One relaxation: `j` takes the distance through `m` and `m` as its
        predecessor. */
    method Improve(src: int, m: int, j: int, distances: array<int>, test: array<bool>, parent: array<int>,
                   ghost rank: seq<int>)
      requires distances != parent
      requires 0 <= m < matrix.Length0 && 0 <= j < matrix.Length1 && (m, j) in cells && matrix[m, j] == cells[(m, j)]
      requires 1 <= m <= count && 1 <= src <= count && test.Length == count + 1 && test[m] && test[src]
      requires Visiting(cells, count, src, distances[..], test[..], parent[..], rank)
      requires rank[m] <= count && 1 <= j <= count && !test[j]
      requires matrix[m, j] != 0 && matrix[m, j] != NO_EDGE && distances[m] != INF
      requires distances[m] + matrix[m, j] < distances[j]
      modifies distances, parent
      ensures Visiting(cells, count, src, distances[..], test[..], parent[..], rank)
      ensures distances[..] == old(distances[..])[j := old(distances[m] + cells[(m, j)])]
      ensures parent[..] == old(parent[..])[j := m]
    {
      ghost var d0, p0 := distances[..], parent[..];
      RelaxStep(cells, count, src, d0, test[..], p0, rank, m, j);
      var improved := distances[m] + matrix[m, j];
      assert improved == d0[m] + cells[(m, j)];
      distances[j] := improved;
      assert distances[..] == d0[j := improved];
      parent[j] := m;
      assert parent[..] == p0[j := m];
    }

    /** The selection half of a round: min_distance picks `m`, which is
        marked visited. */
    method Visit(src: int, distances: array<int>, test: array<bool>, parent: array<int>,
                 ghost rank: seq<int>, ghost seen: set<int>, ghost k: nat) returns (m: int)
      requires distances.Length == count + 1 && test.Length == count + 1
      requires Visiting(cells, count, src, distances[..], test[..], parent[..], rank)
      requires Visited(count, src, test[..], rank, seen, k) && k < count - 1
      requires k == 0 ==> forall v :: 0 <= v <= count && v != src ==> distances[v] == INF
      modifies test
      ensures 1 <= m <= count && !old(test[m]) && test[..] == old(test[..])[m := true]
      ensures distances[..] == old(distances[..]) && parent[..] == old(parent[..])
      ensures Closest(old(distances[..]), old(test[..]), count, m)
      ensures Visiting(cells, count, src, distances[..], test[..], parent[..], rank[m := k + 1])
      ensures Visited(count, src, test[..], rank[m := k + 1], seen + {m}, k + 1)
    {
      ghost var visited := test[..];
      UnvisitedExists(seen, count);
      ghost var w :| 1 <= w <= count && w !in seen;
      assert !test[w] && distances[w] <= INF;
      m := MinDistance(distances, test);
      VisitStep(cells, count, src, distances[..], visited, parent[..], rank, seen, k, m);
      test[m] := true;
      assert test[..] == visited[m := true];
    }

    /** One round of dijkstra: visit the node `m` min_distance picks, relax
        from it, and record the distances the round leaves. */
    method Round(src: int, distances: array<int>, test: array<bool>, parent: array<int>,
                 ghost rank: seq<int>, ghost seen: set<int>, ghost rounds: seq<seq<int>>) returns (m: int)
      requires Valid() && distances != parent
      requires distances.Length == count + 1 && test.Length == count + 1
      requires Progress(cells, count, src, distances[..], test[..], parent[..], rank, seen, rounds)
      requires |rounds| < count - 1
      modifies distances, test, parent
      ensures 1 <= m <= count && !old(test[m]) && test[..] == old(test[..])[m := true]
      ensures Closest(old(distances[..]), old(test[..]), count, m)
      ensures distances[..] == Swept(cells, old(distances[..]), test[..], m)
      ensures parent[..] == SweptParents(cells, old(distances[..]), test[..], old(parent[..]), m)
      ensures Progress(cells, count, src, distances[..], test[..], parent[..],
                       rank[m := |rounds| + 1], seen + {m}, rounds + [distances[..]])
    {
      ghost var d0, t0, p0 := distances[..], test[..], parent[..];
      m := Visit(src, distances, test, parent, rank, seen, |rounds|);
      ghost var t1 := test[..];
      Relax(src, m, distances, test, parent, rank[m := |rounds| + 1]);
      ghost var d2, p2 := distances[..], parent[..];
      RoundEnds(cells, count, src, d0, t0, p0, rank, seen, rounds, m, d2, p2);
    }

    /** A round of dijkstra that also extends the replay of the rounds so far
        by the node it visits and the arrays it leaves. */
    method ReplayedRound(src: int, distances: array<int>, test: array<bool>, parent: array<int>,
                         ghost rank: seq<int>, ghost seen: set<int>, ghost rounds: seq<seq<int>>,
                         ghost picks: seq<int>, ghost parents: seq<seq<int>>) returns (m: int)
      requires Valid() && distances != parent
      requires distances.Length == count + 1 && test.Length == count + 1
      requires Progress(cells, count, src, distances[..], test[..], parent[..], rank, seen, rounds)
      requires Replaying(cells, count, src, rounds, picks, parents, distances[..], test[..], parent[..])
      requires |rounds| < count - 1
      modifies distances, test, parent
      ensures 1 <= m <= count
      ensures Progress(cells, count, src, distances[..], test[..], parent[..],
                       rank[m := |rounds| + 1], seen + {m}, rounds + [distances[..]])
      ensures Replaying(cells, count, src, rounds + [distances[..]], picks + [m], parents + [parent[..]],
                        distances[..], test[..], parent[..])
    {
      m := Round(src, distances, test, parent, rank, seen, rounds);
      MarkPick(picks, m, count);
      ReplayStep(cells, count, src, rounds, picks, parents, m, distances[..], parent[..]);
    }

    /** dijkstra: `count - 1` select-and-relax rounds from `src`. */
    method Dijkstra(src: int) returns (r: Result<LinkState>)
      requires Valid()
      ensures r.Failure? <==> src < 1 || src > count
      ensures r.Failure? ==> r.error == InvalidSource
      ensures r.Success? ==> LinkStateComputed(cells, count, src, r.value)
    {
      if src < 1 || src > count {
        return Failure(InvalidSource);
      }
      var n := count;
      var distances := new int[n + 1](_ => INF);
      var test := new bool[n + 1](_ => false);
      var parent := new int[n + 1](_ => -1);
      distances[src] := 0;
      ghost var rank := seq(n + 1, _ => n + 1);
      assert distances[..] == StartDistances(n, src) && parent[..] == NoParents(n) && test[..] == Marks([], n);
      LinkStateStart(cells, count, src, distances[..], test[..], parent[..], rank);
      var rounds, rank', seen, picks, parents := Rounds(src, distances, test, parent, rank);
      var ls := LinkState(distances[..], parent[..], rounds);
      assert ReplayEnds(cells, n, src, ls, picks, parents);
      LinkStateFinished(cells, count, src, ls, test[..], rank', seen);
      r := Success(ls);
    }

    /** The rounds of dijkstra, one for every node but the source, each
        recording the distances it leaves. */
    method Rounds(src: int, distances: array<int>, test: array<bool>, parent: array<int>, ghost rank: seq<int>)
      returns (rounds: seq<seq<int>>, ghost rank': seq<int>, ghost seen: set<int>,
               ghost picks: seq<int>, ghost parents: seq<seq<int>>)
      requires Valid() && distances != parent && 1 <= src <= count
      requires distances.Length == count + 1 && test.Length == count + 1
      requires Progress(cells, count, src, distances[..], test[..], parent[..], rank, {}, [])
      requires Replaying(cells, count, src, [], [], [], distances[..], test[..], parent[..])
      modifies distances, test, parent
      ensures |rounds| == count - 1
      ensures Progress(cells, count, src, distances[..], test[..], parent[..], rank', seen, rounds)
      ensures Replaying(cells, count, src, rounds, picks, parents, distances[..], test[..], parent[..])
    {
      rank', seen, rounds, picks, parents := rank, {}, [], [], [];
      for i := 1 to count + 1
        invariant |rounds| == (i - 1) - (if src < i then 1 else 0)
        invariant Progress(cells, count, src, distances[..], test[..], parent[..], rank', seen, rounds)
        invariant Replaying(cells, count, src, rounds, picks, parents, distances[..], test[..], parent[..])
      {
        if i != src {
          var m := ReplayedRound(src, distances, test, parent, rank', seen, rounds, picks, parents);
          seen := seen + {m};
          rank' := rank'[m := |rounds| + 1];
          rounds := rounds + [distances[..]];
          picks, parents := picks + [m], parents + [parent[..]];
        }
      }
    }

    /** bellman_ford: `count - 1` passes over the edge list from `src`. */
    method BellmanFord(src: int) returns (r: Result<DistanceVector>)
      requires Valid()
      ensures r.Failure? <==> src < 1 || src > count
      ensures r.Failure? ==> r.error == InvalidSource
      ensures r.Success? ==> DistanceVectorComputed(edges, count, src, r.value)
    {
      if src < 1 || src > count {
        return Failure(InvalidSource);
      }
      var n := count;
      var distances := new int[n + 1](_ => INF);
      var parent := new int[n + 1](_ => -1);
      distances[src] := 0;
      ghost var walks := seq(n + 1, v => [v]);
      ghost var start, none := StartDistances(n, src), NoParents(n);
      assert distances[..] == start && parent[..] == none;
      DistanceVectorStart(edges, n, src, distances[..], parent[..], walks);
      for i := 0 to n - 1
        invariant Sound(edges, n, src, distances[..], parent[..], walks)
        invariant Below(edges, src, distances[..], i + 1)
        invariant (distances[..], parent[..]) == Passes(edges, start, none, i)
      {
        walks := Pass(edges, n, src, distances, parent, walks, i + 2);
      }
      r := Success(DistanceVector(distances[..], parent[..]));
      DistanceVectorFinished(edges, n, src, r.value, walks);
    }

  }

  /** One pass of bellman_ford: every edge of the list relaxed once, in
      key order, which the two loops enumerate. */
  method Pass(edges: map<Key, int>, count: int, src: int, distances: array<int>, parent: array<int>, ghost walks: seq<seq<int>>, ghost len: int)
    returns (ghost walks': seq<seq<int>>)
    requires EdgesWithin(edges, count) && distances != parent && len >= 2
    requires Sound(edges, count, src, distances[..], parent[..], walks)
    requires Below(edges, src, distances[..], len - 1)
    modifies distances, parent
    ensures distances[..] == PassResult(edges, old(distances[..]), old(parent[..])).0
    ensures parent[..] == PassResult(edges, old(distances[..]), old(parent[..])).1
    ensures Sound(edges, count, src, distances[..], parent[..], walks')
    ensures Below(edges, src, distances[..], len)
  {
    ghost var d0, p0 := distances[..], parent[..];
    NothingBefore(edges, count, src, distances[..], len);
    assert RowsDone(edges, count, src, distances[..], parent[..], walks, len, 0, d0, p0);
    walks' := PassRows(edges, count, src, distances, parent, walks, len, d0, p0);
    PassDone(edges, count, src, distances[..], len);
  }

  /** The rows `a = 0..count` of one pass from `d0` and `p0`, the outer loop
      of bellman_ford. */
  method PassRows(edges: map<Key, int>, count: int, src: int, distances: array<int>, parent: array<int>,
                  ghost walks: seq<seq<int>>, ghost len: int, ghost d0: seq<int>, ghost p0: seq<int>)
    returns (ghost walks': seq<seq<int>>)
    requires EdgesWithin(edges, count) && distances != parent && len >= 2
    requires distances.Length == count + 1 && parent.Length == count + 1
    requires RowsDone(edges, count, src, distances[..], parent[..], walks, len, 0, d0, p0)
    modifies distances, parent
    ensures RowsDone(edges, count, src, distances[..], parent[..], walks', len, count + 1, d0, p0)
  {
    walks' := walks;
    for a := 0 to count + 1
      invariant RowsDone(edges, count, src, distances[..], parent[..], walks', len, a, d0, p0)
    {
      walks' := PassRow(edges, count, src, distances, parent, walks', len, a, d0, p0);
    }
  }

  /** The rows `0..a - 1` of a pass from `d0` and `p0` are done. */
  ghost predicate RowsDone(edges: map<Key, int>, count: int, src: int, dist: seq<int>, parent: seq<int>,
                           walks: seq<seq<int>>, len: int, a: int, d0: seq<int>, p0: seq<int>) {
    && PassInvariant(edges, count, src, dist, parent, walks, len, a, 0)
    && |d0| == count + 1 && |p0| == count + 1 && 0 <= a <= count + 1
    && (dist, parent) == Rows(edges, d0, p0, a)
  }

  /** What a pass keeps before the key `(a, b)`: the arrays are sound, the
      bound of the passes before holds, and the keys before `(a, b)` extend
      it by one node. */
  ghost predicate PassInvariant(edges: map<Key, int>, count: int, src: int, dist: seq<int>, parent: seq<int>,
                                walks: seq<seq<int>>, len: int, a: int, b: int) {
    && Sound(edges, count, src, dist, parent, walks)
    && Below(edges, src, dist, len - 1) && BelowUpTo(edges, src, dist, len, a, b)
  }

  /** The keys `(a, 0..count)` of one pass, the inner loop of bellman_ford. */
  method PassRow(edges: map<Key, int>, count: int, src: int, distances: array<int>, parent: array<int>,
                 ghost walks: seq<seq<int>>, ghost len: int, a: int, ghost d0: seq<int>, ghost p0: seq<int>)
    returns (ghost walks': seq<seq<int>>)
    requires EdgesWithin(edges, count) && distances != parent && len >= 2 && 0 <= a <= count
    requires distances.Length == count + 1 && parent.Length == count + 1
    requires RowsDone(edges, count, src, distances[..], parent[..], walks, len, a, d0, p0)
    modifies distances, parent
    ensures RowsDone(edges, count, src, distances[..], parent[..], walks', len, a + 1, d0, p0)
  {
    ghost var r0, q0 := distances[..], parent[..];
    walks' := walks;
    for b := 0 to count + 1
      invariant PassInvariant(edges, count, src, distances[..], parent[..], walks', len, a, b)
      invariant (distances[..], parent[..]) == RowUpTo(edges, r0, q0, a, b)
    {
      walks' := PassKey(edges, count, src, distances, parent, walks', len, a, b);
    }
    NextRow(edges, count, src, distances[..], len, a);
  }

  /** The body of bellman_ford's inner loop for the key `(a, b)`: relax the
      entry when the list holds it. */
  method PassKey(edges: map<Key, int>, count: int, src: int, distances: array<int>, parent: array<int>,
                 ghost walks: seq<seq<int>>, ghost len: int, a: int, b: int)
    returns (ghost walks': seq<seq<int>>)
    requires EdgesWithin(edges, count) && distances != parent && len >= 2 && 0 <= a <= count && 0 <= b <= count
    requires PassInvariant(edges, count, src, distances[..], parent[..], walks, len, a, b)
    modifies distances, parent
    ensures (distances[..], parent[..]) == KeyStep(edges, old(distances[..]), old(parent[..]), a, b)
    ensures PassInvariant(edges, count, src, distances[..], parent[..], walks', len, a, b + 1)
  {
    if (a, b) in edges {
      EdgeStep(edges, count, src, distances[..], parent[..], walks, len, a, b);
      walks' := Rewalked(distances[..], walks, a, b, edges[(a, b)]);
      RelaxEdge(distances, parent, a, b, edges[(a, b)]);
    } else {
      walks' := walks;
      Advance(edges, src, distances[..], len, a, b, distances[..]);
    }
  }

  /** One relaxation of the list entry `(a, b)` of cost `cost`. */
  method RelaxEdge(distances: array<int>, parent: array<int>, a: int, b: int, cost: int)
    requires distances != parent && distances.Length == parent.Length
    requires 0 <= a < distances.Length && 0 <= b < distances.Length
    modifies distances, parent
    ensures distances[..] == Relaxed(old(distances[..]), a, b, cost)
    ensures parent[..] == Rerouted(old(distances[..]), old(parent[..]), a, b, cost)
  {
    if distances[a] != INF && distances[a] + cost < distances[b] {
      distances[b] := distances[a] + cost;
      parent[b] := a;
    }
  }
}
