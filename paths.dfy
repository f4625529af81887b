/** Paths through the topology and the predecessor chains the two routing
    engines leave behind.

    A path is the sequence of nodes it visits; its cost is the sum of the hop
    costs read from a map keyed by `(from, to)`: the matrix (`cells`) for the
    link-state engine, the edge list (`edges`) for the distance-vector one.
 */
module Paths {
  import opened Graph

  function Last(w: seq<int>): int
    requires |w| > 0
  {
    w[|w| - 1]
  }

  /** Cost of the hop `u -> v`; 0 when `g` has no entry for it. */
  function Weight(g: map<Key, int>, u: int, v: int): int {
    if (u, v) in g then g[(u, v)] else 0
  }

  /** Sum of the hop costs along `w`. */
  function PathCost(g: map<Key, int>, w: seq<int>): int
    decreases |w|
  {
    if |w| <= 1 then 0 else PathCost(g, w[..|w| - 1]) + Weight(g, w[|w| - 2], w[|w| - 1])
  }

  /** Every hop of `w` is a key of `g`. */
  ghost predicate Hops(g: map<Key, int>, w: seq<int>) {
    forall i :: 0 <= i < |w| - 1 ==> (w[i], w[i + 1]) in g
  }

  /** A walk through the edge list that starts at `src`. */
  ghost predicate IsWalk(g: map<Key, int>, src: int, w: seq<int>) {
    |w| >= 1 && w[0] == src && Hops(g, w)
  }

  /** Every prefix of `w` costs less than INF, so no relaxation along it is
      ever blocked by the `distances[src] != INF` test. */
  ghost predicate Capped(g: map<Key, int>, w: seq<int>) {
    forall i :: 1 <= i <= |w| ==> PathCost(g, w[..i]) < INF
  }

  /** A hop Dijkstra relaxes: the matrix entry is neither `-1` (no edge)
      nor `0` (the truthiness test of the source skips it). */
  ghost predicate IsLink(cells: map<Key, int>, u: int, v: int) {
    (u, v) in cells && cells[(u, v)] != 0 && cells[(u, v)] != NO_EDGE
  }

  ghost predicate Links(cells: map<Key, int>, w: seq<int>) {
    forall i :: 0 <= i < |w| - 1 ==> IsLink(cells, w[i], w[i + 1])
  }

  /** No relaxable link has a negative cost.  A link's cost is never 0, so
      under this each link costs at least 1. */
  ghost predicate NoNegativeLinks(cells: map<Key, int>) {
    forall u, v :: IsLink(cells, u, v) ==> cells[(u, v)] >= 0
  }

  /** A walk over relaxable links from `src` through the nodes `1..count`,
      the nodes Dijkstra selects and relaxes. */
  ghost predicate LinkWalk(cells: map<Key, int>, count: int, src: int, w: seq<int>) {
    && |w| >= 1 && w[0] == src && Links(cells, w)
    && forall i :: 0 <= i < |w| ==> 1 <= w[i] <= count
  }

  /** The first `k` nodes of a link walk form one, and the next hop adds its
      link's cost. */
  lemma LinkWalkPrefix(cells: map<Key, int>, count: int, src: int, w: seq<int>, k: int)
    requires LinkWalk(cells, count, src, w) && 1 <= k < |w|
    ensures LinkWalk(cells, count, src, w[..k]) && Last(w[..k]) == w[k - 1]
    ensures PathCost(cells, w[..k + 1]) == PathCost(cells, w[..k]) + cells[(w[k - 1], w[k])]
  {
    assert w[..k + 1][..k] == w[..k];
    assert IsLink(cells, w[k - 1], w[k]);
  }

  /** With no negative link, a walk over links costs at least its number of
      hops, and none of its prefixes costs more than the whole walk. */
  lemma {:induction false} LinkWalkCost(cells: map<Key, int>, w: seq<int>, k: int)
    requires NoNegativeLinks(cells) && Links(cells, w) && 1 <= k <= |w|
    ensures PathCost(cells, w[..k]) <= PathCost(cells, w)
    ensures PathCost(cells, w) >= |w| - 1
    decreases |w|
  {
    if k == |w| {
      assert w[..k] == w;
    }
    if |w| > 1 {
      var w' := w[..|w| - 1];
      assert Links(cells, w') by {
        forall i | 0 <= i < |w'| - 1
          ensures IsLink(cells, w'[i], w'[i + 1])
        {
          assert IsLink(cells, w[i], w[i + 1]);
        }
      }
      assert IsLink(cells, w[|w| - 2], w[|w| - 1]);
      if k < |w| {
        LinkWalkCost(cells, w', k);
        assert w'[..k] == w[..k];
      } else {
        LinkWalkCost(cells, w', 1);
      }
    }
  }

  /** A walk over the edge list whose every edge costs at least 1 costs at
      least its number of hops. */
  lemma {:induction false} HopsCost(g: map<Key, int>, w: seq<int>)
    requires Hops(g, w) && forall k :: k in g ==> g[k] >= 1
    ensures PathCost(g, w) >= |w| - 1
    decreases |w|
  {
    if |w| > 1 {
      var w' := w[..|w| - 1];
      assert Hops(g, w') by {
        forall i | 0 <= i < |w'| - 1
          ensures (w'[i], w'[i + 1]) in g
        {
          assert (w[i], w[i + 1]) in g;
        }
      }
      assert (w[|w| - 2], w[|w| - 1]) in g;
      HopsCost(g, w');
    }
  }

  lemma {:induction false} PrefixWalk(g: map<Key, int>, src: int, w: seq<int>)
    requires IsWalk(g, src, w) && |w| >= 2 && Capped(g, w)
    ensures var w' := w[..|w| - 1];
      && IsWalk(g, src, w') && Capped(g, w') && PathCost(g, w') < INF
      && Last(w') == w[|w| - 2]
      && PathCost(g, w) == PathCost(g, w') + g[(w[|w| - 2], w[|w| - 1])]
  {
    var w' := w[..|w| - 1];
    forall i | 1 <= i <= |w'|
      ensures PathCost(g, w'[..i]) < INF
    {
      assert w'[..i] == w[..i];
    }
    assert PathCost(g, w'[..|w'|]) < INF;
    assert w'[..|w'|] == w';
  }

  lemma {:induction false} ExtendWalk(g: map<Key, int>, src: int, w: seq<int>, b: int)
    requires IsWalk(g, src, w) && (Last(w), b) in g
    ensures IsWalk(g, src, w + [b]) && Last(w + [b]) == b
    ensures PathCost(g, w + [b]) == PathCost(g, w) + g[(Last(w), b)]
  {
    assert (w + [b])[..|w|] == w;
  }

  // ---------------------------------------------------------------------
  // Predecessor chains (print_parents)

  /** `parent[j]` is `-1` (none) or an index of the array. */
  ghost predicate ParentArray(parent: seq<int>) {
    forall j :: 0 <= j < |parent| ==> -1 <= parent[j] < |parent|
  }

  /** The hops print_parents emits before `j`: the predecessors of `j`,
      oldest first, following `parent` at most `fuel` times. */
  function Chain(parent: seq<int>, j: int, fuel: nat): (r: seq<int>)
    requires ParentArray(parent) && 0 <= j < |parent|
    ensures |r| <= fuel
    ensures forall i :: 0 <= i < |r| ==> 0 <= r[i] < |parent|
    decreases fuel
  {
    if fuel == 0 || parent[j] == -1 then [] else Chain(parent, parent[j], fuel - 1) + [parent[j]]
  }

  /** The chain followed by `j` walks the predecessor links forwards, ends at
      `j`, and, unless the fuel ran out, starts at a node without predecessor. */
  lemma {:induction false} ChainFollowsParents(parent: seq<int>, j: int, fuel: nat)
    requires ParentArray(parent) && 0 <= j < |parent|
    ensures var p := Chain(parent, j, fuel) + [j];
      && Last(p) == j
      && (forall i :: 0 <= i < |p| - 1 ==> parent[p[i + 1]] == p[i])
      && (|p| - 1 < fuel ==> parent[p[0]] == -1)
    decreases fuel
  {
    if fuel != 0 && parent[j] != -1 {
      var u := parent[j];
      ChainFollowsParents(parent, u, fuel - 1);
      var q := Chain(parent, u, fuel - 1) + [u];
      assert Chain(parent, j, fuel) + [j] == q + [j];
    }
  }

  // ---------------------------------------------------------------------
  // The shortest-path tree of the link-state engine

  /** The hop `p -> v` of the tree: `p` was reached, the hop is a relaxable
      matrix entry, `v`'s distance came from it, and `p` was visited before
      `v` (lower `rank`). */
  ghost predicate TreeEdge(cells: map<Key, int>, dist: seq<int>, rank: seq<int>, p: int, v: int) {
    && 1 <= p < |dist| && 0 <= v < |dist| && |rank| == |dist|
    && dist[p] != INF
    && IsLink(cells, p, v)
    && dist[v] == dist[p] + cells[(p, v)]
    && rank[p] < rank[v]
  }

  /** What Dijkstra's `distances` and `parent` arrays satisfy after any
      number of rounds; `rank[v]` is the round `v` was visited in, or
      `count + 1` while it is unvisited. */
  ghost predicate ShortestPathTree(cells: map<Key, int>, count: int, src: int,
                                   dist: seq<int>, parent: seq<int>, rank: seq<int>) {
    && 1 <= src <= count
    && |dist| == count + 1 && |parent| == count + 1 && |rank| == count + 1
    && ParentArray(parent)
    && dist[src] == 0 && parent[src] == -1
    && (forall v {:trigger parent[v]} :: 1 <= v <= count && v != src ==> (parent[v] == -1 <==> dist[v] == INF))
    && (forall v :: 0 <= v <= count ==> 1 <= rank[v] <= count + 1)
    && (forall v :: 0 <= v <= count && parent[v] != -1 ==> TreeEdge(cells, dist, rank, parent[v], v))
  }

  /** In such a tree, every reached node's printed path starts at the source,
      follows relaxable links and costs exactly the node's distance. */
  lemma {:induction false} TreePath(cells: map<Key, int>, count: int, src: int,
                                    dist: seq<int>, parent: seq<int>, rank: seq<int>, v: int, fuel: nat)
    requires ShortestPathTree(cells, count, src, dist, parent, rank)
    requires 1 <= v <= count && dist[v] != INF && rank[v] - 1 <= fuel
    ensures var p := Chain(parent, v, fuel) + [v];
      && p[0] == src && Last(p) == v
      && Links(cells, p)
      && PathCost(cells, p) == dist[v]
    decreases rank[v]
  {
    if parent[v] == -1 {
      assert v == src;
      assert Chain(parent, v, fuel) + [v] == [v];
    } else {
      var u := parent[v];
      assert TreeEdge(cells, dist, rank, u, v);
      assert 1 <= rank[u] < rank[v];
      TreePath(cells, count, src, dist, parent, rank, u, fuel - 1);
      ChainHop(cells, parent, u, v, fuel);
    }
  }

  /** Following the predecessor `u` of `v` extends the printed path of `u`
      by the link `u -> v`. */
  lemma ChainHop(cells: map<Key, int>, parent: seq<int>, u: int, v: int, fuel: nat)
    requires ParentArray(parent) && 0 <= v < |parent| && parent[v] == u && 0 <= u && fuel >= 1
    requires IsLink(cells, u, v)
    requires Links(cells, Chain(parent, u, fuel - 1) + [u])
    ensures var p, q := Chain(parent, v, fuel) + [v], Chain(parent, u, fuel - 1) + [u];
      && p[0] == q[0] && Last(p) == v
      && Links(cells, p)
      && PathCost(cells, p) == PathCost(cells, q) + cells[(u, v)]
  {
    var q := Chain(parent, u, fuel - 1) + [u];
    assert Chain(parent, v, fuel) == q;
    ExtendLinks(cells, q, v);
  }

  /** Appending a relaxable link to a path of them keeps it one. */
  lemma ExtendLinks(cells: map<Key, int>, q: seq<int>, v: int)
    requires |q| > 0 && Links(cells, q) && IsLink(cells, Last(q), v)
    ensures var p := q + [v];
      && p[0] == q[0] && Last(p) == v
      && Links(cells, p)
      && PathCost(cells, p) == PathCost(cells, q) + cells[(Last(q), v)]
  {
    var p := q + [v];
    assert p[..|p| - 1] == q;
  }
}
