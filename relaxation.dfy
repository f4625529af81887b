/** The edge-list relaxation of the distance-vector engine (bellman_ford).

    One relaxation of the edge `(a, b)` lowers `dist[b]` to `dist[a] + cost`
    when `dist[a]` is finite and that is smaller.  A pass relaxes every edge
    of the list once, in the list's key order.  `Sound` is what every
    relaxation keeps; `Below` is what a full pass adds: after `p` passes no
    walk of at most `p + 1` nodes from the source is cheaper than the
    distance of its last node.
 */
module Relaxation {
  import opened Graph
  import opened Paths
  import opened Routing

  /** Every key of the edge list names nodes `0..count`. */
  ghost predicate EdgesWithin(edges: map<Key, int>, count: int) {
    forall k :: k in edges ==> 0 <= k.0 <= count && 0 <= k.1 <= count
  }

  /** The witness walks after relaxing `(a, b)`: `b`'s becomes `a`'s
      extended by the hop when `b`'s distance drops. */
  ghost function Rewalked(dist: seq<int>, walks: seq<seq<int>>, a: int, b: int, cost: int): seq<seq<int>>
    requires 0 <= a < |dist| && 0 <= b < |dist| && |walks| == |dist|
  {
    if dist[a] != INF && dist[a] + cost < dist[b] then walks[b := walks[a] + [b]] else walks
  }

  /** What the arrays of a distance-vector run keep after any number of
      relaxations; `walks[v]` is a walk from the source that costs `dist[v]`. */
  ghost predicate Sound(edges: map<Key, int>, count: int, src: int,
                        dist: seq<int>, parent: seq<int>, walks: seq<seq<int>>) {
    && DistanceVectorShape(edges, count, src, DistanceVector(dist, parent))
    && |walks| == count + 1
    && (forall v :: 0 <= v <= count && dist[v] != INF ==>
          IsWalk(edges, src, walks[v]) && Last(walks[v]) == v && PathCost(edges, walks[v]) == dist[v])
    && (NoNegativeEdges(edges) ==> Ranked(count, dist, parent, walks))
  }

  /** `u` comes before `v` in the order the run reached them: a smaller
      distance, or the same distance through a shorter witness walk. */
  ghost predicate Earlier(dist: seq<int>, walks: seq<seq<int>>, u: int, v: int)
    requires 0 <= u < |dist| && 0 <= v < |dist| && |walks| == |dist|
  {
    dist[u] < dist[v] || (dist[u] == dist[v] && |walks[u]| < |walks[v]|)
  }

  /** Every predecessor comes before its node, so following predecessors
      never returns to a node already passed. */
  ghost predicate Ranked(count: int, dist: seq<int>, parent: seq<int>, walks: seq<seq<int>>)
    requires |dist| == count + 1 && |parent| == count + 1 && |walks| == count + 1
  {
    forall v :: 0 <= v <= count && 0 <= parent[v] <= count ==> Earlier(dist, walks, parent[v], v)
  }

  /** The nodes that come before `v`. */
  ghost function Beneath(count: int, dist: seq<int>, walks: seq<seq<int>>, v: int): set<int>
    requires |dist| == count + 1 && |walks| == count + 1 && 0 <= v <= count
  {
    set u | 0 <= u <= count && Earlier(dist, walks, u, v)
  }

  /** No walk from the source of at most `len` nodes undercuts `dist`. */
  ghost predicate Below(edges: map<Key, int>, src: int, dist: seq<int>, len: int) {
    forall w {:trigger IsWalk(edges, src, w)} {:trigger Capped(edges, w)} {:trigger Reaches(edges, dist, w)} ::
      IsWalk(edges, src, w) && |w| <= len && Capped(edges, w) ==> Reaches(edges, dist, w)
  }

  /** The hop `(x, y)` comes before `(a, b)` in the key order of the list. */
  predicate Precedes(x: int, y: int, a: int, b: int) {
    x < a || (x == a && y < b)
  }

  /** Part of a pass: walks of at most `len` nodes whose last hop comes
      before `(a, b)` do not undercut `dist`. */
  ghost predicate BelowUpTo(edges: map<Key, int>, src: int, dist: seq<int>, len: int, a: int, b: int) {
    forall w {:trigger IsWalk(edges, src, w)} {:trigger Capped(edges, w)} {:trigger Reaches(edges, dist, w)} ::
      IsWalk(edges, src, w) && 2 <= |w| <= len && Capped(edges, w) && Precedes(w[|w| - 2], w[|w| - 1], a, b)
      ==> Reaches(edges, dist, w)
  }

  /** The start of a run: only the source has a distance, reached by the
      one-node walk. */
  lemma DistanceVectorStart(edges: map<Key, int>, count: int, src: int, dist: seq<int>, parent: seq<int>, walks: seq<seq<int>>)
    requires 1 <= src <= count
    requires |dist| == count + 1 && forall v :: 0 <= v <= count ==> dist[v] == Initial(src, v)
    requires |parent| == count + 1 && forall v :: 0 <= v <= count ==> parent[v] == -1
    requires |walks| == count + 1 && walks[src] == [src]
    ensures Sound(edges, count, src, dist, parent, walks)
    ensures Below(edges, src, dist, 1)
  {
    forall w | IsWalk(edges, src, w) && |w| <= 1 && Capped(edges, w)
      ensures Reaches(edges, dist, w)
    {
      assert w == [src];
    }
  }

  /** Before the first key of a pass nothing is covered yet. */
  lemma NothingBefore(edges: map<Key, int>, count: int, src: int, dist: seq<int>, len: int)
    requires EdgesWithin(edges, count)
    ensures BelowUpTo(edges, src, dist, len, 0, 0)
  {
    forall w | IsWalk(edges, src, w) && 2 <= |w|
      ensures 0 <= w[|w| - 2]
    {
      assert (w[|w| - 2], w[|w| - 1]) in edges;
    }
  }

  /** Relaxing `(a, b)` keeps the run sound: the new predecessor is an edge
      into `b`, and `b`'s new witness walk is `a`'s walk extended by it. */
  lemma RelaxSound(edges: map<Key, int>, count: int, src: int,
                   dist: seq<int>, parent: seq<int>, walks: seq<seq<int>>, a: int, b: int,
                   dist': seq<int>, parent': seq<int>, walks': seq<seq<int>>)
    requires EdgesWithin(edges, count) && Sound(edges, count, src, dist, parent, walks)
    requires (a, b) in edges && dist[a] != INF && dist[a] + edges[(a, b)] < dist[b]
    requires dist' == dist[b := dist[a] + edges[(a, b)]] && parent' == parent[b := a]
    requires walks' == walks[b := walks[a] + [b]]
    ensures Sound(edges, count, src, dist', parent', walks')
  {
    var cost := edges[(a, b)];
    ExtendWalk(edges, src, walks[a], b);
    forall v | 0 <= v <= count && parent'[v] != -1
      ensures (parent'[v], v) in edges && dist'[parent'[v]] != INF
      ensures dist'[v] >= dist'[parent'[v]] + edges[(parent'[v], v)]
    {
      if v != b {
        var p := parent[v];
        assert dist'[p] <= dist[p];
      }
    }
    forall v | 0 <= v <= count && dist'[v] != INF
      ensures IsWalk(edges, src, walks'[v]) && Last(walks'[v]) == v && PathCost(edges, walks'[v]) == dist'[v]
    {
    }
    if NoNegativeEdges(edges) {
      RelaxRanked(edges, count, dist, parent, walks, a, b, dist', parent', walks');
    }
  }

  /** With no negative cost, relaxing `(a, b)` keeps predecessors before
      their nodes: `b`'s distance does not drop below `a`'s, and when it
      equals it `b`'s witness walk is one node longer; `b`'s own successors
      now lie strictly above it. */
  lemma RelaxRanked(edges: map<Key, int>, count: int,
                    dist: seq<int>, parent: seq<int>, walks: seq<seq<int>>, a: int, b: int,
                    dist': seq<int>, parent': seq<int>, walks': seq<seq<int>>)
    requires NoNegativeEdges(edges) && 0 <= a <= count && 0 <= b <= count
    requires |dist| == count + 1 && |parent| == count + 1 && |walks| == count + 1
    requires Ranked(count, dist, parent, walks)
    requires (a, b) in edges && dist[a] + edges[(a, b)] < dist[b]
    requires dist' == dist[b := dist[a] + edges[(a, b)]] && parent' == parent[b := a]
    requires walks' == walks[b := walks[a] + [b]]
    ensures Ranked(count, dist', parent', walks')
  {
    assert a != b;
    forall v | 0 <= v <= count && 0 <= parent'[v] <= count
      ensures Earlier(dist', walks', parent'[v], v)
    {
      if v != b {
        assert Earlier(dist, walks, parent[v], v);
      }
    }
  }

  /** A node that comes before `v` has fewer nodes before it. */
  lemma BeneathShrinks(count: int, dist: seq<int>, walks: seq<seq<int>>, u: int, v: int)
    requires |dist| == count + 1 && |walks| == count + 1 && 0 <= u <= count && 0 <= v <= count
    requires Earlier(dist, walks, u, v)
    ensures |Beneath(count, dist, walks, u)| < |Beneath(count, dist, walks, v)|
  {
    var below, above := Beneath(count, dist, walks, u), Beneath(count, dist, walks, v);
    assert below <= above;
    assert u in above - below;
    assert above == below + (above - below);
  }

  /** At most `count` of the nodes `0..count` come before any one of them. */
  lemma BeneathBound(count: int, dist: seq<int>, walks: seq<seq<int>>, v: int)
    requires |dist| == count + 1 && |walks| == count + 1 && 0 <= v <= count
    ensures |Beneath(count, dist, walks, v)| <= count
  {
    var all := Upto(count);
    var rest := all - {v};
    var below := Beneath(count, dist, walks, v);
    assert all == rest + {v};
    assert below <= rest;
    assert rest == below + (rest - below);
  }

  /** The nodes `0..n`. */
  function Upto(n: int): (r: set<int>)
    ensures forall u :: u in r <==> 0 <= u <= n
    ensures |r| == if n < 0 then 0 else n + 1
    decreases n + 1
  {
    if n < 0 then {} else Upto(n - 1) + {n}
  }

  /** With no negative cost, print_parents run for a reached node with
      `count` steps of fuel prints a walk from the source. */
  lemma ChainToRoot(edges: map<Key, int>, count: int, src: int,
                    dist: seq<int>, parent: seq<int>, walks: seq<seq<int>>, v: int)
    requires DistanceVectorShape(edges, count, src, DistanceVector(dist, parent))
    requires |walks| == count + 1 && Ranked(count, dist, parent, walks)
    requires 0 <= v <= count && dist[v] != INF
    ensures PrintsWalk(edges, src, parent, v, count, dist[v])
  {
    forall x | 0 <= x <= count && dist[x] != INF
      ensures Descends(edges, count, src, dist, parent, walks, x)
    {
      if parent[x] == -1 {
        assert dist[x] == Initial(src, x);
      }
    }
    BeneathBound(count, dist, walks, v);
    DescendToRoot(edges, count, src, dist, parent, walks, v, count);
  }

  /** The facts about one reached node `v` that following its predecessor
      needs: a node without predecessor is the source at a distance of at
      least 0; a predecessor is reached, comes before `v`, and `v`'s
      distance covers it plus the edge into `v`. */
  ghost predicate Descends(edges: map<Key, int>, count: int, src: int,
                           dist: seq<int>, parent: seq<int>, walks: seq<seq<int>>, v: int)
    requires |dist| == count + 1 && |parent| == count + 1 && |walks| == count + 1 && 0 <= v <= count
  {
    if parent[v] == -1 then v == src && dist[v] >= 0
    else
      && 0 <= parent[v] <= count && (parent[v], v) in edges
      && dist[parent[v]] != INF && dist[parent[v]] + edges[(parent[v], v)] <= dist[v]
      && Earlier(dist, walks, parent[v], v)
  }

  /** print_parents run for `v` with at least as much fuel as there are
      nodes before `v` prints a walk from the source: each predecessor has
      fewer nodes before it, and the chain stops only at the source. */
  lemma {:induction false} DescendToRoot(edges: map<Key, int>, count: int, src: int,
                                         dist: seq<int>, parent: seq<int>, walks: seq<seq<int>>, v: int, fuel: nat)
    requires |dist| == count + 1 && |parent| == count + 1 && |walks| == count + 1 && ParentArray(parent)
    requires forall x :: 0 <= x <= count && dist[x] != INF ==> Descends(edges, count, src, dist, parent, walks, x)
    requires 0 <= v <= count && dist[v] != INF && |Beneath(count, dist, walks, v)| <= fuel
    ensures PrintsWalk(edges, src, parent, v, fuel, dist[v])
    decreases fuel
  {
    assert Descends(edges, count, src, dist, parent, walks, v);
    if parent[v] == -1 {
      assert Chain(parent, v, fuel) + [v] == [src];
    } else {
      var u := parent[v];
      BeneathShrinks(count, dist, walks, u, v);
      DescendToRoot(edges, count, src, dist, parent, walks, u, fuel - 1);
      ChainStep(edges, src, parent, u, v, fuel, dist[u], dist[v]);
    }
  }

  /** Following the predecessor `u` of `v` through the edge `(u, v)`
      extends the walk printed for `u` by that edge. */
  lemma ChainStep(edges: map<Key, int>, src: int, parent: seq<int>, u: int, v: int, fuel: nat, du: int, dv: int)
    requires ParentArray(parent) && 0 <= v < |parent| && parent[v] == u && 0 <= u && fuel >= 1
    requires (u, v) in edges && du + edges[(u, v)] <= dv
    requires PrintsWalk(edges, src, parent, u, fuel - 1, du)
    ensures PrintsWalk(edges, src, parent, v, fuel, dv)
  {
    var q := Chain(parent, u, fuel - 1) + [u];
    assert Chain(parent, v, fuel) + [v] == q + [v];
    ExtendWalk(edges, src, q, v);
  }

  /** Lowering distances keeps every bound already established. */
  lemma Lower(edges: map<Key, int>, src: int, dist: seq<int>, dist': seq<int>, len: int, a: int, b: int)
    requires |dist'| == |dist| && forall v :: 0 <= v < |dist| ==> dist'[v] <= dist[v]
    requires Below(edges, src, dist, len - 1) && BelowUpTo(edges, src, dist, len, a, b)
    ensures Below(edges, src, dist', len - 1) && BelowUpTo(edges, src, dist', len, a, b)
  {
    forall w | IsWalk(edges, src, w) && |w| <= len - 1 && Capped(edges, w)
      ensures Reaches(edges, dist', w)
    {
      assert Reaches(edges, dist, w);
    }
    forall w | IsWalk(edges, src, w) && 2 <= |w| <= len && Capped(edges, w) && Precedes(w[|w| - 2], w[|w| - 1], a, b)
      ensures Reaches(edges, dist', w)
    {
      assert Reaches(edges, dist, w);
    }
  }

  /** Processing the key `(a, b)` of the order extends the bound to walks
      whose last hop is `(a, b)`: the prefix reaches `a` with a finite
      distance, so the relaxation brings `b` down to the walk's cost. */
  lemma Advance(edges: map<Key, int>, src: int, dist: seq<int>, len: int, a: int, b: int, dist': seq<int>)
    requires 0 <= a < |dist| && 0 <= b < |dist|
    requires Below(edges, src, dist, len - 1) && BelowUpTo(edges, src, dist, len, a, b)
    requires dist' == if (a, b) in edges then Relaxed(dist, a, b, edges[(a, b)]) else dist
    ensures Below(edges, src, dist', len - 1) && BelowUpTo(edges, src, dist', len, a, b + 1)
  {
    Lower(edges, src, dist, dist', len, a, b);
    forall w | IsWalk(edges, src, w) && 2 <= |w| <= len && Capped(edges, w) && Precedes(w[|w| - 2], w[|w| - 1], a, b + 1)
      ensures Reaches(edges, dist', w)
    {
      if !Precedes(w[|w| - 2], w[|w| - 1], a, b) {
        assert w[|w| - 2] == a && w[|w| - 1] == b;
        assert (a, b) in edges;
        PrefixWalk(edges, src, w);
        var w' := w[..|w| - 1];
        assert Reaches(edges, dist, w');
      }
    }
  }

  /** One step of a pass: relaxing the list entry `(a, b)` keeps the run
      sound and extends the bound to the walks whose last hop is `(a, b)`. */
  lemma EdgeStep(edges: map<Key, int>, count: int, src: int,
                  dist: seq<int>, parent: seq<int>, walks: seq<seq<int>>, len: int, a: int, b: int)
    requires EdgesWithin(edges, count) && (a, b) in edges
    requires Sound(edges, count, src, dist, parent, walks)
    requires Below(edges, src, dist, len - 1) && BelowUpTo(edges, src, dist, len, a, b)
    ensures var cost := edges[(a, b)];
      var dist' := Relaxed(dist, a, b, cost);
      && Sound(edges, count, src, dist', Rerouted(dist, parent, a, b, cost), Rewalked(dist, walks, a, b, cost))
      && Below(edges, src, dist', len - 1) && BelowUpTo(edges, src, dist', len, a, b + 1)
  {
    var cost := edges[(a, b)];
    RelaxOutcome(dist, parent, walks, a, b, cost);
    if dist[a] != INF && dist[a] + cost < dist[b] {
      EdgeImproves(edges, count, src, dist, parent, walks, len, a, b);
    } else {
      Advance(edges, src, dist, len, a, b, dist);
    }
  }

  /** The case of `EdgeStep` where the edge lowers `dist[b]`. */
  lemma EdgeImproves(edges: map<Key, int>, count: int, src: int,
                     dist: seq<int>, parent: seq<int>, walks: seq<seq<int>>, len: int, a: int, b: int)
    requires EdgesWithin(edges, count) && (a, b) in edges
    requires Sound(edges, count, src, dist, parent, walks)
    requires Below(edges, src, dist, len - 1) && BelowUpTo(edges, src, dist, len, a, b)
    requires dist[a] != INF && dist[a] + edges[(a, b)] < dist[b]
    ensures var dist' := dist[b := dist[a] + edges[(a, b)]];
      && Sound(edges, count, src, dist', parent[b := a], walks[b := walks[a] + [b]])
      && Below(edges, src, dist', len - 1) && BelowUpTo(edges, src, dist', len, a, b + 1)
  {
    var dist' := dist[b := dist[a] + edges[(a, b)]];
    RelaxSound(edges, count, src, dist, parent, walks, a, b, dist', parent[b := a], walks[b := walks[a] + [b]]);
    RelaxOutcome(dist, parent, walks, a, b, edges[(a, b)]);
    Advance(edges, src, dist, len, a, b, dist');
  }

  /** The three arrays after relaxing `(a, b)`, case by case. */
  lemma RelaxOutcome(dist: seq<int>, parent: seq<int>, walks: seq<seq<int>>, a: int, b: int, cost: int)
    requires 0 <= a < |dist| && 0 <= b < |dist| && |parent| == |dist| && |walks| == |dist|
    ensures if dist[a] != INF && dist[a] + cost < dist[b] then
        && Relaxed(dist, a, b, cost) == dist[b := dist[a] + cost]
        && Rerouted(dist, parent, a, b, cost) == parent[b := a]
        && Rewalked(dist, walks, a, b, cost) == walks[b := walks[a] + [b]]
      else
        && Relaxed(dist, a, b, cost) == dist
        && Rerouted(dist, parent, a, b, cost) == parent
        && Rewalked(dist, walks, a, b, cost) == walks
  {
  }

  /** Past the last column of row `a` the next row starts. */
  lemma NextRow(edges: map<Key, int>, count: int, src: int, dist: seq<int>, len: int, a: int)
    requires EdgesWithin(edges, count) && BelowUpTo(edges, src, dist, len, a, count + 1)
    ensures BelowUpTo(edges, src, dist, len, a + 1, 0)
  {
    forall w | IsWalk(edges, src, w) && 2 <= |w| <= len && Capped(edges, w) && Precedes(w[|w| - 2], w[|w| - 1], a + 1, 0)
      ensures Reaches(edges, dist, w)
    {
      assert (w[|w| - 2], w[|w| - 1]) in edges;
    }
  }

  /** A whole pass over the list covers every walk one node longer. */
  lemma PassDone(edges: map<Key, int>, count: int, src: int, dist: seq<int>, len: int)
    requires EdgesWithin(edges, count) && len >= 2
    requires Below(edges, src, dist, len - 1) && BelowUpTo(edges, src, dist, len, count + 1, 0)
    ensures Below(edges, src, dist, len)
  {
    forall w | IsWalk(edges, src, w) && |w| <= len && Capped(edges, w)
      ensures Reaches(edges, dist, w)
    {
      if |w| == len {
        assert (w[|w| - 2], w[|w| - 1]) in edges;
        assert Precedes(w[|w| - 2], w[|w| - 1], count + 1, 0);
      }
    }
  }

  /** After the last pass the arrays are what a distance-vector run
      promises. */
  lemma DistanceVectorFinished(edges: map<Key, int>, count: int, src: int, dv: DistanceVector, walks: seq<seq<int>>)
    requires Sound(edges, count, src, dv.distances, dv.parent, walks)
    requires Below(edges, src, dv.distances, count)
    requires (dv.distances, dv.parent) == Passes(edges, StartDistances(count, src), NoParents(count), count - 1)
    ensures DistanceVectorComputed(edges, count, src, dv)
  {
    forall v | 0 <= v <= count && dv.distances[v] != INF
      ensures exists w :: IsWalk(edges, src, w) && Last(w) == v && PathCost(edges, w) == dv.distances[v]
    {
      var w := walks[v];
    }
    if NoNegativeEdges(edges) {
      forall v | 0 <= v <= count && dv.distances[v] != INF
        ensures PrintsWalk(edges, src, dv.parent, v, count, dv.distances[v])
      {
        ChainToRoot(edges, count, src, dv.distances, dv.parent, walks, v);
      }
    }
  }
}
