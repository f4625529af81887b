/** A worked example: three links built by addEdge, 1-2
    and 2-3 costing 1 and 1-3 costing 5.  From node 1 both engines reach
    node 3 through node 2 at distance 2, and both tables print the path
    1 -> 2 -> 3 for it.
 */
module Scenarios {
  import opened Graph
  import opened Paths
  import opened Routing

  /** The edge list of the example, both directions of every link. */
  function TriangleEdges(): map<Key, int> {
    map[(1, 2) := 1, (2, 1) := 1, (2, 3) := 1, (3, 2) := 1, (1, 3) := 5, (3, 1) := 5]
  }

  /** The matrix entry at `k` after the first `i` commands of the example:
      each writes its cost both ways and marks both diagonals. */
  function EntryAfter(i: int, u: int, v: int): int {
    if i >= 3 && ((u == 1 && v == 3) || (u == 3 && v == 1)) then 5
    else if i >= 2 && ((u == 2 && v == 3) || (u == 3 && v == 2)) then 1
    else if i >= 1 && ((u == 1 && v == 2) || (u == 2 && v == 1)) then 1
    else if u == v && ((i >= 1 && (u == 1 || u == 2)) || (i >= 2 && u == 3)) then 0
    else NO_EDGE
  }

  /** The matrix after the first `i` commands of the example. */
  function Stage(i: int): map<Key, int> {
    map k | k in Square() :: EntryAfter(i, k.0, k.1)
  }

  /** The store of the example. */
  function Triangle(): State {
    State(Stage(3), TriangleEdges(), 3)
  }

  /** The example's store satisfies the shape and consistency every
      store reachable by edge commands has. */
  lemma TriangleConsistent()
    ensures WellFormed(Triangle()) && Consistent(Triangle()) && Triangle().count == 3
  {
    var g := Triangle();
    TriangleEntries();
    forall k | k in g.edges
      ensures 0 <= k.0 <= 3 && 0 <= k.1 <= 3
    {
      TriangleKeys(k);
    }
    forall u, v | InRange(u) && InRange(v)
      ensures PairConsistent(g, u, v)
    {
      TriangleKeys((u, v));
      TriangleKeys((v, u));
    }
  }

  /** The matrix entries Dijkstra relaxes in the example are exactly the six
      of the edge list, at the same costs. */
  lemma TriangleLinks()
    ensures var g := Triangle();
      && (forall u, v :: IsLink(g.cells, u, v) <==> (u, v) in g.edges)
      && (forall u, v :: IsLink(g.cells, u, v) ==> g.cells[(u, v)] == g.edges[(u, v)])
  {
    var g := Triangle();
    TriangleEntries();
    forall u, v
      ensures IsLink(g.cells, u, v) <==> (u, v) in g.edges
      ensures IsLink(g.cells, u, v) ==> g.cells[(u, v)] == g.edges[(u, v)]
    {
      TriangleKeys((u, v));
    }
  }

  /** The matrix of the example holds `EntryAfter(3, _, _)` on the whole capacity square
      and nothing outside it. */
  lemma TriangleEntries()
    ensures forall k :: k in Triangle().cells <==> InRange(k.0) && InRange(k.1)
    ensures forall k :: k in Triangle().cells ==> Triangle().cells[k] == EntryAfter(3, k.0, k.1)
  {
  }

  /** The keys of the example's edge list, and their costs. */
  lemma TriangleKeys(k: Key)
    ensures k in TriangleEdges() <==> k in {(1, 2), (2, 1), (2, 3), (3, 2), (1, 3), (3, 1)}
    ensures k in TriangleEdges() ==> TriangleEdges()[k] == (if k == (1, 3) || k == (3, 1) then 5 else 1)
  {
  }

  /** addEdge on a pair with no entry in either view succeeds and writes
      both directions and both diagonals. */
  lemma AddFresh(g: State, s: int, d: int, cost: int)
    requires WellFormed(g) && InRange(s) && InRange(d) && s != d
    requires g.cells[(s, d)] == NO_EDGE && g.cells[(d, s)] == NO_EDGE && (s, d) !in g.edges && (d, s) !in g.edges
    ensures AddEdge(g, s, d, cost) == Success(State(
      g.cells[(s, d) := cost][(d, s) := cost][(s, s) := 0][(d, d) := 0],
      g.edges[(s, d) := cost][(d, s) := cost],
      Max(g.count, Max(s, d))))
  {
    InsertBoth(g.edges, s, d, cost);
  }

  /** The three addEdge commands of the example, applied to the empty
      topology, all succeed and build `Triangle()`. */
  lemma TriangleBuilt()
    ensures var g1 := AddEdge(Empty(), 1, 2, 1);
      && g1.Success?
      && var g2 := AddEdge(g1.value, 2, 3, 1);
      && g2.Success?
      && AddEdge(g2.value, 1, 3, 5) == Success(Triangle())
  {
    FirstAdd();
    SecondAdd();
    ThirdAdd();
  }

  /** The store after the first `i` commands of the example. */
  function Built(i: int): State {
    if i <= 1 then State(Stage(1), map[(1, 2) := 1, (2, 1) := 1], 2)
    else State(Stage(2), map[(1, 2) := 1, (2, 1) := 1, (2, 3) := 1, (3, 2) := 1], 3)
  }

  lemma FirstAdd()
    ensures AddEdge(Empty(), 1, 2, 1) == Success(Built(1))
  {
    StageZero();
    var e := Empty();
    assert e.cells[(1, 2)] == NO_EDGE && e.cells[(2, 1)] == NO_EDGE;
    AddFresh(e, 1, 2, 1);
    StageStep(1, 1, 2, 1);
    assert e.edges[(1, 2) := 1][(2, 1) := 1] == Built(1).edges;
  }

  lemma SecondAdd()
    ensures WellFormed(Built(1)) && AddEdge(Built(1), 2, 3, 1) == Success(Built(2))
  {
    FirstAdd();
    var g1 := Built(1);
    assert WellFormed(g1);
    assert g1.cells[(2, 3)] == NO_EDGE && g1.cells[(3, 2)] == NO_EDGE by {
      StageAt(1, 2, 3);
      StageAt(1, 3, 2);
    }
    AddFresh(g1, 2, 3, 1);
    var c2 := g1.cells[(2, 3) := 1][(3, 2) := 1][(2, 2) := 0][(3, 3) := 0];
    assert c2 == Built(2).cells by {
      StageStep(2, 2, 3, 1);
    }
    assert g1.edges[(2, 3) := 1][(3, 2) := 1] == Built(2).edges;
  }

  lemma ThirdAdd()
    ensures WellFormed(Built(2)) && AddEdge(Built(2), 1, 3, 5) == Success(Triangle())
  {
    SecondAdd();
    var g2 := Built(2);
    assert WellFormed(g2);
    assert g2.cells[(1, 3)] == NO_EDGE && g2.cells[(3, 1)] == NO_EDGE by {
      StageAt(2, 1, 3);
      StageAt(2, 3, 1);
    }
    AddFresh(g2, 1, 3, 5);
    var c3 := g2.cells[(1, 3) := 5][(3, 1) := 5][(1, 1) := 0][(3, 3) := 0];
    assert c3 == Triangle().cells by {
      StageStep(3, 1, 3, 5);
    }
    assert g2.edges[(1, 3) := 5][(3, 1) := 5] == TriangleEdges();
  }

  /** Stage `i` holds `EntryAfter(i, ·)` on the whole capacity square. */
  lemma StageAt(i: int, u: int, v: int)
    requires InRange(u) && InRange(v)
    ensures (u, v) in Stage(i) && Stage(i)[(u, v)] == EntryAfter(i, u, v)
  {
  }

  /** Command `i` of the example, `add s d cost`, turns stage `i - 1` of the
      matrix into stage `i`. */
  lemma StageStep(i: int, s: int, d: int, cost: int)
    requires (i, s, d, cost) in {(1, 1, 2, 1), (2, 2, 3, 1), (3, 1, 3, 5)}
    ensures Stage(i - 1)[(s, d) := cost][(d, s) := cost][(s, s) := 0][(d, d) := 0] == Stage(i)
  {
    var m, m' := Stage(i - 1), Stage(i);
    forall k | k in m'
      ensures m'[k] == if k == (s, d) || k == (d, s) then cost else if k == (s, s) || k == (d, d) then 0 else m[k]
    {
    }
    WriteBoth(m, m', s, d, cost);
  }

  /** Writing a cost both ways and marking both diagonals yields the map
      that differs from the old one exactly there. */
  lemma WriteBoth(m: map<Key, int>, m': map<Key, int>, s: int, d: int, cost: int)
    requires s != d && m.Keys == m'.Keys && (s, d) in m && (d, s) in m && (s, s) in m && (d, d) in m
    requires forall k :: k in m' ==>
      m'[k] == if k == (s, d) || k == (d, s) then cost else if k == (s, s) || k == (d, d) then 0 else m[k]
    ensures m[(s, d) := cost][(d, s) := cost][(s, s) := 0][(d, d) := 0] == m'
  {
    var r := m[(s, d) := cost][(d, s) := cost][(s, s) := 0][(d, d) := 0];
    assert r.Keys == m'.Keys;
    forall k | k in r
      ensures r[k] == m'[k]
    {
    }
  }

  /** The empty topology's matrix is stage 0 of the example. */
  lemma StageZero()
    ensures Empty().cells == Stage(0)
  {
    var e, z := Empty().cells, Stage(0);
    forall k | k in e
      ensures k in z && e[k] == z[k]
    {
      assert e[(k.0, k.1)] == NO_EDGE;
    }
    assert e.Keys == z.Keys;
  }

  /** The cost of a path of two and of three nodes. */
  lemma ShortCosts(g: map<Key, int>, a: int, b: int, c: int)
    ensures PathCost(g, [a]) == 0
    ensures PathCost(g, [a, b]) == Weight(g, a, b)
    ensures PathCost(g, [a, b, c]) == Weight(g, a, b) + Weight(g, b, c)
  {
    assert [a, b][..1] == [a];
    assert [a, b, c][..2] == [a, b];
  }

  /** Every edge of the example costs at least 1, in both views. */
  lemma TrianglePositive()
    ensures forall k :: k in TriangleEdges() ==> TriangleEdges()[k] >= 1
    ensures NoNegativeEdges(TriangleEdges()) && NoNegativeLinks(Triangle().cells)
  {
    TriangleLinks();
    forall k | k in TriangleEdges()
      ensures TriangleEdges()[k] >= 1
    {
      TriangleKeys(k);
    }
  }

  /** A path from 1 to 3 over the example's edges that costs at most 2 is
      1 -> 2 -> 3: the direct edge costs 5 and every edge costs at least 1. */
  lemma OnlyCheapPath(p: seq<int>)
    requires Hops(TriangleEdges(), p) && |p| >= 1 && p[0] == 1 && Last(p) == 3
    requires PathCost(TriangleEdges(), p) <= 2
    ensures p == [1, 2, 3]
  {
    var e := TriangleEdges();
    TrianglePositive();
    HopsCost(e, p);
    ShortCosts(e, 1, 3, 3);
    assert |p| == 2 ==> p == [1, 3];
    if |p| == 3 {
      var x := p[1];
      assert p == [1, x, 3];
      ShortCosts(e, 1, x, 3);
      assert (1, x) in e && (x, 3) in e;
      TriangleKeys((1, x));
      TriangleKeys((x, 3));
    }
  }

  /** What the example's matrix offers Dijkstra: the relaxable entries are
      the six of the edge list, at the same costs. */
  ghost predicate TriangleMatrix(cells: map<Key, int>) {
    && (forall u, v :: IsLink(cells, u, v) <==> (u, v) in TriangleEdges())
    && (forall u, v :: IsLink(cells, u, v) ==> cells[(u, v)] == TriangleEdges()[(u, v)])
  }

  /** Dijkstra from node 1: node 2 is at distance 1 behind node 1, node 3 at
      distance 2 behind node 2, and the table's row for node 3 prints the
      path 1 -> 2 -> 3. */
  lemma LinkStateExample(ls: LinkState)
    requires LinkStateComputed(Triangle().cells, 3, 1, ls)
    ensures ls.distances[2] == 1 && ls.parent[2] == 1
    ensures ls.distances[3] == 2 && ls.parent[3] == 2
    ensures LinkStateTable(ls, 1, 3)[1] == PathRow(3, 2, [1, 2, 3])
  {
    TriangleLinks();
    TrianglePositive();
    LinkStateOnTriangle(Triangle().cells, ls);
  }

  /** The example for any matrix whose links are the example's, from the
      printed-path and minimality clauses of a link-state result. */
  lemma LinkStateOnTriangle(cells: map<Key, int>, ls: LinkState)
    requires TriangleMatrix(cells)
    requires |ls.distances| == 4 && |ls.parent| == 4 && ParentArray(ls.parent)
    requires PrintedPaths(cells, 3, 1, ls) && NoShorterWalk(cells, 3, 1, ls.distances)
    ensures ls.distances[2] == 1 && ls.parent[2] == 1
    ensures ls.distances[3] == 2 && ls.parent[3] == 2
    ensures Chain(ls.parent, 3, 3) + [3] == [1, 2, 3]
  {
    LinkReachAbove(cells, ls.distances, [1, 2]);
    LinkReachAbove(cells, ls.distances, [1, 2, 3]);
    LinkReachBelow(cells, ls, 2);
    LinkReachBelow(cells, ls, 3);
    var p := Chain(ls.parent, 3, 3) + [3];
    assert Links(cells, p) && PathCost(cells, p) <= 2;
    LinksAreHops(cells, TriangleEdges(), p);
    OnlyCheapPath(p);
    ChainFollowsParents(ls.parent, 3, 3);
  }

  /** The link walks 1 -> 2 and 1 -> 2 -> 3 bound Dijkstra's distances from
      above. */
  lemma LinkReachAbove(cells: map<Key, int>, dist: seq<int>, w: seq<int>)
    requires TriangleMatrix(cells) && |dist| == 4 && NoShorterWalk(cells, 3, 1, dist)
    requires w == [1, 2] || w == [1, 2, 3]
    ensures dist[Last(w)] <= |w| - 1
  {
    TriangleKeys((1, 2));
    TriangleKeys((2, 3));
    assert IsLink(cells, 1, 2) && IsLink(cells, 2, 3);
    ShortCosts(cells, 1, 2, 3);
    assert LinkWalk(cells, 3, 1, w);
  }

  /** The printed path to node 2 or 3 is a walk over the example's edges,
      so it costs at least 1 or 2. */
  lemma LinkReachBelow(cells: map<Key, int>, ls: LinkState, v: int)
    requires TriangleMatrix(cells)
    requires |ls.distances| == 4 && |ls.parent| == 4 && ParentArray(ls.parent)
    requires PrintedPaths(cells, 3, 1, ls)
    requires (v == 2 || v == 3) && ls.distances[v] != INF
    ensures ls.distances[v] >= v - 1
  {
    var e := TriangleEdges();
    var p := Chain(ls.parent, v, 3) + [v];
    assert Links(cells, p) && p[0] == 1 && Last(p) == v && PathCost(cells, p) == ls.distances[v];
    LinksAreHops(cells, e, p);
    TrianglePositive();
    HopsReachBelow(e, p, v);
  }

  /** A walk from node 1 over the example's edges costs at least 1 to node 2
      and at least 2 to node 3. */
  lemma HopsReachBelow(e: map<Key, int>, p: seq<int>, v: int)
    requires TriangleWeights(e) && Hops(e, p) && |p| >= 1 && p[0] == 1 && Last(p) == v
    requires v == 2 || v == 3
    ensures PathCost(e, p) >= v - 1
  {
    HopsCost(e, p);
    if v == 3 && |p| == 2 {
      assert p == [1, 3];
      ShortCosts(e, 1, 3, 3);
    }
  }

  /** Along a path over the example's links, the matrix and the edge list
      agree hop by hop, so the path costs the same in both. */
  lemma {:induction false} LinksAreHops(cells: map<Key, int>, e: map<Key, int>, p: seq<int>)
    requires forall u, v :: IsLink(cells, u, v) ==> (u, v) in e && cells[(u, v)] == e[(u, v)]
    requires Links(cells, p)
    ensures Hops(e, p) && PathCost(e, p) == PathCost(cells, p)
    decreases |p|
  {
    if |p| > 1 {
      var q := p[..|p| - 1];
      assert Links(cells, q) by {
        forall i | 0 <= i < |q| - 1
          ensures IsLink(cells, q[i], q[i + 1])
        {
          assert IsLink(cells, p[i], p[i + 1]);
        }
      }
      LinksAreHops(cells, e, q);
      assert IsLink(cells, p[|p| - 2], p[|p| - 1]);
      assert forall i :: 0 <= i < |p| - 1 ==> IsLink(cells, p[i], p[i + 1]);
    }
  }

  /** A tie: links 1-2 and 2-3 costing 1 and 1-3 costing 2, both ways. */
  function TieEdges(): map<Key, int> {
    map[(1, 2) := 1, (2, 1) := 1, (2, 3) := 1, (3, 2) := 1, (1, 3) := 2, (3, 1) := 2]
  }

  /** A matrix whose relaxable entries are those of the tie, at its costs. */
  ghost predicate TieMatrix(cells: map<Key, int>) {
    && (forall u, v :: IsLink(cells, u, v) <==> (u, v) in TieEdges())
    && (forall u, v :: IsLink(cells, u, v) ==> cells[(u, v)] == TieEdges()[(u, v)])
  }

  /** Dijkstra from node 1 on the tie: the first round reaches node 3
      directly at 2, and the second, through node 2, is no shorter, so node 3
      keeps node 1 as predecessor although 1 -> 2 -> 3 costs the same. */
  lemma TieKeepsDirectLink(cells: map<Key, int>, ls: LinkState)
    requires TieMatrix(cells) && LinkStateComputed(cells, 3, 1, ls)
    ensures ls.distances[2] == 1 && ls.parent[2] == 1
    ensures ls.distances[3] == 2 && ls.parent[3] == 1
  {
    var picks, parents :| ReplayEnds(cells, 3, 1, ls, picks, parents);
    TieRounds(cells, ls.rounds, picks, parents);
  }

  /** The two rounds of that run, replayed. */
  lemma TieRounds(cells: map<Key, int>, rounds: seq<seq<int>>, picks: seq<int>, parents: seq<seq<int>>)
    requires TieMatrix(cells) && Replayed(cells, 3, 1, rounds, picks, parents) && |rounds| == 2
    ensures rounds[1][2] == 1 && parents[1][2] == 1
    ensures rounds[1][3] == 2 && parents[1][3] == 1
  {
    assert IsLink(cells, 1, 2) && IsLink(cells, 1, 3) && IsLink(cells, 2, 3);
    var d0 := StartDistances(3, 1);
    // round 0: only the source is reached, so it is picked
    assert RoundReplayed(cells, 3, 1, rounds, picks, parents, 0);
    assert picks[0] == 1 by {
      assert !Marks(picks[..0], 3)[1];
    }
    var t0 := Marks(picks[..1], 3);
    assert t0[1] && !t0[2] && !t0[3] by { assert picks[..1] == [1]; }
    assert Improves(cells, d0, t0, 1, 2) && Improves(cells, d0, t0, 1, 3);
    var d1, p1 := rounds[0], parents[0];
    assert d1[1] == 0 && d1[2] == 1 && d1[3] == 2;
    assert p1[2] == 1 && p1[3] == 1;
    // round 1: node 2 is the closest unvisited node
    assert RoundReplayed(cells, 3, 1, rounds, picks, parents, 1);
    assert picks[1] == 2;
    var t1 := Marks(picks[..2], 3);
    assert t1[1] && t1[2] && !t1[3] by { assert picks[..2] == [1, 2]; }
    assert !Improves(cells, d1, t1, 2, 3);
  }

  /** Bellman-Ford from node 1 on the tie: the first pass reaches node 3
      over the key `(1, 3)` at 2, and no later key, `(2, 3)` included, is
      shorter, so node 3 keeps node 1 as predecessor. */
  lemma TieDistanceVector(e: map<Key, int>, dv: DistanceVector)
    requires e == TieEdges() && DistanceVectorComputed(e, 3, 1, dv)
    ensures dv.distances[2] == 1 && dv.parent[2] == 1
    ensures dv.distances[3] == 2 && dv.parent[3] == 1
  {
    TiePasses(e, dv.distances, dv.parent);
  }

  /** The two passes of that run, from the start arrays. */
  lemma TiePasses(e: map<Key, int>, dist: seq<int>, parent: seq<int>)
    requires e == TieEdges()
    requires (dist, parent) == Passes(e, StartDistances(3, 1), NoParents(3), 2)
    ensures dist == [INF, 0, 1, 2] && parent == [-1, -1, 1, 1]
  {
    var d0, p0 := TieStart();
    var d1, p1 := [INF, 0, 1, 2], [-1, -1, 1, 1];
    TieFirstPass(e, d0, p0, d1, p1);
    TieSettled(e, d1);
    SettledAfterFirst(e, d0, p0, d1, p1, 1);
  }

  /** The arrays bellman_ford starts from on the tie, from node 1. */
  lemma TieStart() returns (d0: seq<int>, p0: seq<int>)
    ensures d0 == StartDistances(3, 1) && p0 == NoParents(3)
    ensures d0 == [INF, 0, INF, INF] && p0 == [-1, -1, -1, -1]
  {
    d0, p0 := StartDistances(3, 1), NoParents(3);
  }

  /** The first pass on the tie: row 1 relaxes `(1, 2)` and `(1, 3)`; rows
      0, 2 and 3 improve nothing. */
  lemma TieFirstPass(e: map<Key, int>, d0: seq<int>, p0: seq<int>, d1: seq<int>, p1: seq<int>)
    requires e == TieEdges()
    requires d0 == [INF, 0, INF, INF] && p0 == [-1, -1, -1, -1]
    requires d1 == [INF, 0, 1, 2] && p1 == [-1, -1, 1, 1]
    ensures PassResult(e, d0, p0) == (d1, p1)
  {
    assert forall c :: 0 <= c < 4 ==> !Improvable(e, d0, 0, c) by { TieKeys(e); }
    RowSettled(e, d0, p0, 0, 4);
    assert Rows(e, d0, p0, 1) == (d0, p0);
    TieRowOne(e, d0, p0, d1, p1);
    assert Rows(e, d0, p0, 2) == (d1, p1);
    TieSettled(e, d1);
    RowSettled(e, d1, p1, 2, 4);
    assert Rows(e, d0, p0, 3) == (d1, p1);
    RowSettled(e, d1, p1, 3, 4);
  }

  /** Row 1 of the first pass: `(1, 2)` brings node 2 to 1 and `(1, 3)`
      brings node 3 to 2, both behind node 1. */
  lemma TieRowOne(e: map<Key, int>, d0: seq<int>, p0: seq<int>, d1: seq<int>, p1: seq<int>)
    requires e == TieEdges()
    requires d0 == [INF, 0, INF, INF] && p0 == [-1, -1, -1, -1]
    requires d1 == [INF, 0, 1, 2] && p1 == [-1, -1, 1, 1]
    ensures RowUpTo(e, d0, p0, 1, 4) == (d1, p1)
  {
    TieKeys(e);
    assert RowUpTo(e, d0, p0, 1, 1) == (d0, p0);
    assert RowUpTo(e, d0, p0, 1, 2) == (d0, p0);
    var d, p := d0[2 := 1], p0[2 := 1];
    assert KeyStep(e, d0, p0, 1, 2) == (d, p);
    assert RowUpTo(e, d0, p0, 1, 3) == (d, p);
    assert d[3 := 2] == d1 && p[3 := 1] == p1;
    assert KeyStep(e, d, p, 1, 3) == (d1, p1);
  }

  /** From `[INF, 0, 1, 2]` no entry of the tie improves a distance. */
  lemma TieSettled(e: map<Key, int>, d1: seq<int>)
    requires e == TieEdges() && d1 == [INF, 0, 1, 2]
    ensures !Relaxable(e, d1)
  {
    TieKeys(e);
  }

  /** The keys of the tie. */
  lemma TieKeys(e: map<Key, int>)
    requires e == TieEdges()
    ensures forall k :: k in e <==> k in {(1, 2), (2, 1), (2, 3), (3, 2), (1, 3), (3, 1)}
  {
  }

  /** Bellman-Ford from node 1: the same distances and predecessors, and the
      table's row for node 3 names node 2 as next hop and prints the path
      1 -> 2 -> 3. */
  lemma DistanceVectorExample(dv: DistanceVector)
    requires DistanceVectorBounded(Triangle().edges, 3, 1, dv)
    ensures dv.distances[2] == 1 && dv.parent[2] == 1
    ensures dv.distances[3] == 2 && dv.parent[3] == 2
    ensures DistanceVectorTable(dv, 1, 3)[2] == HopRow(3, 2, 2, [1, 2, 3])
  {
    TrianglePositive();
    DistanceVectorOnTriangle(TriangleEdges(), dv);
  }

  /** The distance-vector example from the clauses of its guarantee that
      the argument uses. */
  lemma DistanceVectorOnTriangle(e: map<Key, int>, dv: DistanceVector)
    requires e == TriangleEdges() && TriangleWeights(e)
    requires |dv.distances| == 4 && |dv.parent| == 4 && ParentArray(dv.parent)
    requires Witnessed(e, 3, 1, dv.distances)
    requires forall w {:trigger IsWalk(e, 1, w)} {:trigger Capped(e, w)} {:trigger Reaches(e, dv.distances, w)} ::
      IsWalk(e, 1, w) && |w| <= 3 && Capped(e, w) ==> Reaches(e, dv.distances, w)
    requires PrintedWalks(e, 3, 1, dv)
    ensures dv.distances[2] == 1 && dv.parent[2] == 1
    ensures dv.distances[3] == 2 && dv.parent[3] == 2
    ensures DistanceVectorTable(dv, 1, 3)[2] == HopRow(3, 2, 2, [1, 2, 3])
  {
    DistanceVectorReach(e, dv.distances, 2);
    DistanceVectorReach(e, dv.distances, 3);
    var p := Chain(dv.parent, 3, 3) + [3];
    assert PrintsWalk(e, 1, dv.parent, 3, 3, dv.distances[3]);
    OnlyCheapPath(p);
    ChainFollowsParents(dv.parent, 3, 3);
  }

  /** The weights of the example's edge list that the distance-vector
      argument needs. */
  ghost predicate TriangleWeights(e: map<Key, int>) {
    && (1, 2) in e && e[(1, 2)] == 1
    && (2, 3) in e && e[(2, 3)] == 1
    && (1, 3) in e && e[(1, 3)] == 5
    && forall k :: k in e ==> e[k] >= 1
  }

  /** In the example the distance-vector distance of node 2 is 1 and that
      of node 3 is 2: the walks 1 -> 2 and 1 -> 2 -> 3 bound them from
      above, and every walk to them costs at least that much. */
  lemma DistanceVectorReach(e: map<Key, int>, dist: seq<int>, v: int)
    requires TriangleWeights(e) && |dist| == 4 && Witnessed(e, 3, 1, dist)
    requires forall w {:trigger IsWalk(e, 1, w)} {:trigger Capped(e, w)} {:trigger Reaches(e, dist, w)} ::
      IsWalk(e, 1, w) && |w| <= 3 && Capped(e, w) ==> Reaches(e, dist, w)
    requires v == 2 || v == 3
    ensures dist[v] == v - 1
  {
    var w := if v == 2 then [1, 2] else [1, 2, 3];
    ReachAbove(e, dist, w);
    ReachBelow(e, dist, v);
  }

  /** The walks 1 -> 2 and 1 -> 2 -> 3 bound the distances from above. */
  lemma ReachAbove(e: map<Key, int>, dist: seq<int>, w: seq<int>)
    requires TriangleWeights(e) && |dist| == 4
    requires forall w {:trigger IsWalk(e, 1, w)} {:trigger Capped(e, w)} {:trigger Reaches(e, dist, w)} ::
      IsWalk(e, 1, w) && |w| <= 3 && Capped(e, w) ==> Reaches(e, dist, w)
    requires w == [1, 2] || w == [1, 2, 3]
    ensures dist[Last(w)] <= |w| - 1
  {
    ShortCosts(e, 1, 2, 3);
    assert w[..1] == [1] && w[..2] == [1, 2] && w[..|w|] == w;
    assert IsWalk(e, 1, w) && Capped(e, w);
    assert Reaches(e, dist, w);
  }

  /** Every walk from 1 to node 2 or 3 costs at least 1 or 2. */
  lemma ReachBelow(e: map<Key, int>, dist: seq<int>, v: int)
    requires TriangleWeights(e) && |dist| == 4 && Witnessed(e, 3, 1, dist)
    requires (v == 2 || v == 3) && dist[v] != INF
    ensures dist[v] >= v - 1
  {
    var w :| IsWalk(e, 1, w) && Last(w) == v && PathCost(e, w) == dist[v];
    HopsCost(e, w);
    if v == 3 && |w| == 2 {
      assert w == [1, 3];
      ShortCosts(e, 1, 3, 3);
    }
  }
}
