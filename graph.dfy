/** The topology store of the routing simulator, as a value.

    `State` is what a `NetworkTopology` object holds: the dense adjacency
    matrix (`cells`, keyed by `(row, column)`), the sparse edge list
    (`edges`, a `std::map` keyed by `(src, dest)`) and the `count`
    watermark.  The three edge operations are the transition functions
    `AddEdge`, `RemoveEdge` and `ModifyEdge`; the class in module Topology
    is proved to perform exactly these transitions in place.
 */
module Graph {

  /** Capacity of the adjacency matrix (MAX_N). */
  const MAX_N := 100
  /** Matrix entry meaning "no edge". */
  const NO_EDGE := -1
  /** The distance used for "not reached yet" (1e9). */
  const INF := 1000000000

  type Key = (int, int)

  /** Node identifiers that index the matrix without leaving it. */
  predicate InRange(x: int) {
    0 <= x < MAX_N
  }

  /** Every `(row, column)` index of the matrix. */
  function Square(): (sq: set<Key>)
    ensures forall u, v :: (u, v) in sq <==> InRange(u) && InRange(v)
  {
    set u, v | 0 <= u < MAX_N && 0 <= v < MAX_N :: (u, v)
  }

  function Max(a: int, b: int): int {
    if a < b then b else a
  }

  /** The three `invalid_argument` messages of the source. */
  datatype Error = SelfLoop | TopologyAlreadySet | InvalidSource

  datatype Result<T> = Success(value: T) | Failure(error: Error)

  datatype State = State(cells: map<Key, int>, edges: map<Key, int>, count: int)

  /** Shape facts every reachable state has: the matrix is total on the
      capacity square, the watermark is a valid index and every key of the
      edge list has both endpoints at most `count`. */
  ghost predicate WellFormed(g: State) {
    && 0 <= g.count < MAX_N
    && (forall u, v :: InRange(u) && InRange(v) ==> (u, v) in g.cells)
    && (forall k :: k in g.edges ==> 0 <= k.0 <= g.count && 0 <= k.1 <= g.count)
  }

  /** The consistency the source keeps between its two views, for one pair
      of distinct nodes: the matrix is symmetric (the graph is undirected),
      and `(u, v)` is a key of the edge list exactly when the matrix holds an
      edge there, with the same cost. */
  ghost predicate PairConsistent(g: State, u: int, v: int)
    requires WellFormed(g) && InRange(u) && InRange(v)
  {
    u != v ==>
      && g.cells[(u, v)] == g.cells[(v, u)]
      && ((u, v) in g.edges <==> g.cells[(u, v)] != NO_EDGE)
      && ((u, v) in g.edges ==> g.edges[(u, v)] == g.cells[(u, v)])
  }

  ghost predicate Consistent(g: State)
    requires WellFormed(g)
  {
    forall u, v :: InRange(u) && InRange(v) ==> PairConsistent(g, u, v)
  }

  /** `std::map::insert`: a key already present keeps its old value. */
  function Insert(m: map<Key, int>, k: Key, v: int): (r: map<Key, int>)
    ensures r.Keys == m.Keys + {k}
    ensures forall k' :: k' in m ==> r[k'] == m[k']
    ensures k !in m ==> r[k] == v
  {
    if k in m then m else m[k := v]
  }

  /** The store right after construction: every matrix entry is `-1`. */
  function Empty(): (g: State)
    ensures WellFormed(g) && Consistent(g)
    ensures g.edges == map[] && g.count == 0
    ensures forall u, v :: InRange(u) && InRange(v) ==> g.cells[(u, v)] == NO_EDGE
    ensures forall k :: k in g.cells <==> InRange(k.0) && InRange(k.1)
  {
    State(map k | k in Square() :: NO_EDGE, map[], 0)
  }

  /** addEdge: rejects a self-loop and an edge already present in either
      direction of the matrix; otherwise writes the cost both ways, marks both
      diagonals and raises the watermark. */
  function AddEdge(g: State, s: int, d: int, cost: int): (r: Result<State>)
    requires WellFormed(g) && InRange(s) && InRange(d)
    ensures r.Success? ==> WellFormed(r.value) && r.value.count >= g.count
  {
    if s == d then Failure(SelfLoop)
    else if g.cells[(s, d)] != NO_EDGE || g.cells[(d, s)] != NO_EDGE then Failure(TopologyAlreadySet)
    else Success(State(
      g.cells[(s, d) := cost][(d, s) := cost][(s, s) := 0][(d, d) := 0],
      Insert(Insert(g.edges, (s, d), cost), (d, s), cost),
      Max(g.count, Max(s, d))))
  }

  /** removeEdge: only `cells[(s, d)]` is tested and the watermark is left
      as it is; `remove(s, s)` on a marked node clears its diagonal. */
  function RemoveEdge(g: State, s: int, d: int): (r: State)
    requires WellFormed(g) && InRange(s) && InRange(d)
    ensures WellFormed(r) && r.count == g.count
  {
    if g.cells[(s, d)] == NO_EDGE then g
    else State(g.cells[(s, d) := NO_EDGE][(d, s) := NO_EDGE], g.edges - {(s, d), (d, s)}, g.count)
  }

  /** modifyEdge: no self-loop or duplicate check; inserts when
      `cells[(s, d)]` is `-1`, overwrites otherwise. */
  function ModifyEdge(g: State, s: int, d: int, cost: int): (r: State)
    requires WellFormed(g) && InRange(s) && InRange(d)
    ensures WellFormed(r) && r.count >= g.count
  {
    var count := Max(g.count, Max(s, d));
    if g.cells[(s, d)] == NO_EDGE then
      State(g.cells[(s, d) := cost][(d, s) := cost][(s, s) := 0][(d, d) := 0],
            Insert(Insert(g.edges, (s, d), cost), (d, s), cost),
            count)
    else
      State(g.cells[(s, d) := cost][(d, s) := cost],
            g.edges[(s, d) := cost][(d, s) := cost],
            count)
  }

  /** What printAdjacencyMatrix shows: the entries of rows and columns
      `1..count`, row `i` of the result being node `i + 1`. */
  ghost function Submatrix(g: State): seq<seq<int>>
    requires WellFormed(g)
  {
    seq(g.count, i requires 0 <= i < g.count => PrintedRow(g, i + 1))
  }

  /** Row `u` of the printed matrix: its entries in columns `1..count`. */
  ghost function PrintedRow(g: State, u: int): seq<int>
    requires WellFormed(g) && InRange(u)
  {
    seq(g.count, j requires 0 <= j < g.count => g.cells[(u, j + 1)])
  }

  /** In a consistent store the printed matrix is symmetric. */
  lemma SubmatrixSymmetric(g: State)
    requires WellFormed(g) && Consistent(g)
    ensures var m := Submatrix(g);
      forall i, j :: 0 <= i < g.count && 0 <= j < g.count ==> m[i][j] == m[j][i]
  {
    forall i, j | 0 <= i < g.count && 0 <= j < g.count
      ensures Submatrix(g)[i][j] == Submatrix(g)[j][i]
    {
      assert PairConsistent(g, i + 1, j + 1);
    }
  }

  // ---------------------------------------------------------------------
  // Properties of single operations

  /** Under consistency, an edge absent from the matrix is absent from the
      edge list in both directions. */
  lemma AbsentBothWays(g: State, s: int, d: int)
    requires WellFormed(g) && Consistent(g) && InRange(s) && InRange(d) && s != d
    requires g.cells[(s, d)] == NO_EDGE
    ensures g.cells[(d, s)] == NO_EDGE && (s, d) !in g.edges && (d, s) !in g.edges
  {
    assert PairConsistent(g, s, d) && PairConsistent(g, d, s);
  }

  /** Inserting two absent keys is writing them. */
  lemma InsertBoth(m: map<Key, int>, s: int, d: int, cost: int)
    requires s != d && (s, d) !in m && (d, s) !in m
    ensures Insert(Insert(m, (s, d), cost), (d, s), cost) == m[(s, d) := cost][(d, s) := cost]
  {
  }

  /** addEdge fails exactly on a self-loop or an existing matrix entry, and
      on success writes the edge in both views and touches nothing else. */
  lemma AddEdgeEffect(g: State, s: int, d: int, cost: int)
    requires WellFormed(g) && Consistent(g) && InRange(s) && InRange(d)
    ensures var r := AddEdge(g, s, d, cost);
      && (r == Failure(SelfLoop) <==> s == d)
      && (r.Failure? <==> s == d || g.cells[(s, d)] != NO_EDGE)
      && (r.Success? ==>
            && r.value.cells[(s, d)] == cost && r.value.cells[(d, s)] == cost
            && r.value.cells[(s, s)] == 0 && r.value.cells[(d, d)] == 0
            && r.value.edges == g.edges[(s, d) := cost][(d, s) := cost]
            && r.value.count == Max(g.count, Max(s, d))
            && (forall u, v :: InRange(u) && InRange(v) && u != s && u != d ==> r.value.cells[(u, v)] == g.cells[(u, v)]))
  {
    if s != d {
      assert PairConsistent(g, s, d);
      if g.cells[(s, d)] == NO_EDGE {
        AbsentBothWays(g, s, d);
        InsertBoth(g.edges, s, d, cost);
      }
    }
  }

  /** A strict add after a successful one on the same pair, in either
      direction, is rejected. */
  lemma DuplicateAddRejected(g: State, s: int, d: int, cost: int, cost': int)
    requires WellFormed(g) && InRange(s) && InRange(d)
    requires AddEdge(g, s, d, cost).Success? && cost != NO_EDGE
    ensures AddEdge(AddEdge(g, s, d, cost).value, s, d, cost') == Failure(TopologyAlreadySet)
    ensures AddEdge(AddEdge(g, s, d, cost).value, d, s, cost') == Failure(TopologyAlreadySet)
  {
  }

  lemma AddEdgePreservesConsistent(g: State, s: int, d: int, cost: int)
    requires WellFormed(g) && Consistent(g) && InRange(s) && InRange(d)
    requires cost != NO_EDGE
    ensures AddEdge(g, s, d, cost).Success? ==> Consistent(AddEdge(g, s, d, cost).value)
  {
    if AddEdge(g, s, d, cost).Success? {
      var r := AddEdge(g, s, d, cost).value;
      AbsentBothWays(g, s, d);
      InsertBoth(g.edges, s, d, cost);
      assert r.edges == g.edges[(s, d) := cost][(d, s) := cost];
      assert r.cells == g.cells[(s, d) := cost][(d, s) := cost][(s, s) := 0][(d, d) := 0];
      forall u, v | InRange(u) && InRange(v)
        ensures PairConsistent(r, u, v)
      {
        assert PairConsistent(g, u, v);
        if u != v {
          if (u == s && v == d) || (u == d && v == s) {
            assert r.cells[(u, v)] == cost && r.cells[(v, u)] == cost && r.edges[(u, v)] == cost;
          } else {
            assert r.cells[(u, v)] == g.cells[(u, v)] && r.cells[(v, u)] == g.cells[(v, u)];
            assert (u, v) in r.edges <==> (u, v) in g.edges;
          }
        }
      }
    }
  }

  /** removeEdge on a present entry erases both directions from both views
      (for `s == d`, the diagonal and the key `(s, s)`), keeps every other
      edge with its cost and keeps the watermark; on a missing one it is a
      no-op. */
  lemma RemoveEdgeEffect(g: State, s: int, d: int)
    requires WellFormed(g) && Consistent(g) && InRange(s) && InRange(d)
    ensures var r := RemoveEdge(g, s, d);
      && (g.cells[(s, d)] == NO_EDGE ==> r == g)
      && (g.cells[(s, d)] != NO_EDGE ==>
            && r.cells == g.cells[(s, d) := NO_EDGE][(d, s) := NO_EDGE]
            && (s, d) !in r.edges && (d, s) !in r.edges
            && r.edges.Keys == g.edges.Keys - {(s, d), (d, s)}
            && (forall k :: k in r.edges ==> r.edges[k] == g.edges[k])
            && r.count == g.count)
  {
  }

  lemma RemoveEdgePreservesConsistent(g: State, s: int, d: int)
    requires WellFormed(g) && Consistent(g) && InRange(s) && InRange(d)
    ensures Consistent(RemoveEdge(g, s, d))
  {
    var r := RemoveEdge(g, s, d);
    forall u, v | InRange(u) && InRange(v)
      ensures PairConsistent(r, u, v)
    {
      assert PairConsistent(g, u, v);
    }
  }

  /** modifyEdge with distinct endpoints is an upsert: afterwards both
      views hold `cost` in both directions, whether or not the edge was there. */
  lemma ModifyEdgeUpserts(g: State, s: int, d: int, cost: int)
    requires WellFormed(g) && Consistent(g) && InRange(s) && InRange(d) && s != d
    requires cost != NO_EDGE
    ensures var r := ModifyEdge(g, s, d, cost);
      && Consistent(r)
      && r.cells[(s, d)] == cost && r.cells[(d, s)] == cost
      && r.edges == g.edges[(s, d) := cost][(d, s) := cost]
      && r.count == Max(g.count, Max(s, d))
    // a fresh pair marks both diagonals; an existing one leaves them
    ensures var r := ModifyEdge(g, s, d, cost);
      && r.cells[(s, s)] == (if g.cells[(s, d)] == NO_EDGE then 0 else g.cells[(s, s)])
      && r.cells[(d, d)] == (if g.cells[(s, d)] == NO_EDGE then 0 else g.cells[(d, d)])
      && forall u :: InRange(u) && u != s && u != d ==> r.cells[(u, u)] == g.cells[(u, u)]
  {
    var r := ModifyEdge(g, s, d, cost);
    if g.cells[(s, d)] == NO_EDGE {
      AbsentBothWays(g, s, d);
      InsertBoth(g.edges, s, d, cost);
      AddEdgePreservesConsistent(g, s, d, cost);
      assert r == AddEdge(g, s, d, cost).value;
      assert r.edges == g.edges[(s, d) := cost][(d, s) := cost];
    } else {
      OverwritePreservesConsistent(g, s, d, cost);
    }
  }

  /** Overwriting the cost of an existing edge keeps the views consistent. */
  lemma OverwritePreservesConsistent(g: State, s: int, d: int, cost: int)
    requires WellFormed(g) && Consistent(g) && InRange(s) && InRange(d) && s != d
    requires cost != NO_EDGE && g.cells[(s, d)] != NO_EDGE
    ensures Consistent(ModifyEdge(g, s, d, cost))
  {
    var r := ModifyEdge(g, s, d, cost);
    forall u, v | InRange(u) && InRange(v)
      ensures PairConsistent(r, u, v)
    {
      assert PairConsistent(g, u, v);
    }
  }

  /** With distinct endpoints, repeating a modify changes nothing more. */
  lemma ModifyEdgeIdempotent(g: State, s: int, d: int, cost: int)
    requires WellFormed(g) && Consistent(g) && InRange(s) && InRange(d) && s != d
    requires cost != NO_EDGE
    ensures ModifyEdge(ModifyEdge(g, s, d, cost), s, d, cost) == ModifyEdge(g, s, d, cost)
  {
    var once := ModifyEdge(g, s, d, cost);
    ModifyEdgeUpserts(g, s, d, cost);
    var twice := ModifyEdge(once, s, d, cost);
    assert twice.cells == once.cells[(s, d) := cost][(d, s) := cost];
    assert twice.edges == once.edges[(s, d) := cost][(d, s) := cost];
    UpdateSame(once.cells, (s, d));
    UpdateSame(once.cells, (d, s));
    UpdateSame(once.edges, (s, d));
    UpdateSame(once.edges, (d, s));
  }

  /** modifyEdge on a self-loop touches only the diagonal and the key
      `(s, s)`, which the consistency of distinct pairs does not constrain. */
  lemma ModifySelfLoopPreservesConsistent(g: State, s: int, cost: int)
    requires WellFormed(g) && Consistent(g) && InRange(s)
    ensures var r := ModifyEdge(g, s, s, cost);
      && Consistent(r)
      && (s, s) in r.edges
      && r.count == Max(g.count, s)
      && forall u, v :: InRange(u) && InRange(v) && (u, v) != (s, s) ==> r.cells[(u, v)] == g.cells[(u, v)]
  {
    var r := ModifyEdge(g, s, s, cost);
    forall u, v | InRange(u) && InRange(v)
      ensures PairConsistent(r, u, v)
    {
      assert PairConsistent(g, u, v);
    }
  }

  lemma UpdateSame(m: map<Key, int>, k: Key)
    requires k in m
    ensures m[k := m[k]] == m
  {
  }

  /** The self-loop quirk: modifying `(s, s)` on an unmarked node leaves its
      diagonal at 0, but a second modify finds it marked and overwrites it
      with the cost. */
  lemma ModifySelfLoopOverwritesDiagonal(g: State, s: int, cost: int)
    requires WellFormed(g) && InRange(s) && g.cells[(s, s)] == NO_EDGE
    ensures ModifyEdge(g, s, s, cost).cells[(s, s)] == 0
    ensures (s, s) in ModifyEdge(g, s, s, cost).edges
    ensures ModifyEdge(ModifyEdge(g, s, s, cost), s, s, cost).cells[(s, s)] == cost
  {
  }

  // ---------------------------------------------------------------------
  // Round trips

  /** Removing a freshly added edge gives back the old edge list and the old
      matrix, except that both diagonals stay marked. */
  lemma {:induction false} AddThenRemove(g: State, s: int, d: int, cost: int)
    requires WellFormed(g) && Consistent(g) && InRange(s) && InRange(d)
    requires AddEdge(g, s, d, cost).Success? && cost != NO_EDGE
    ensures var r := RemoveEdge(AddEdge(g, s, d, cost).value, s, d);
      && r.edges == g.edges
      && r.cells == g.cells[(s, s) := 0][(d, d) := 0]
      && r.count == Max(g.count, Max(s, d))
  {
    var a := AddEdge(g, s, d, cost).value;
    AbsentBothWays(g, s, d);
    InsertBoth(g.edges, s, d, cost);
    assert a.edges == g.edges[(s, d) := cost][(d, s) := cost];
    EraseUndoesUpdate(g.edges, (s, d), (d, s), cost);
    ClearUndoesWrite(g.cells, (s, d), (d, s), (s, s), (d, d), cost);
  }

  lemma EraseUndoesUpdate(m: map<Key, int>, k1: Key, k2: Key, c: int)
    requires k1 !in m && k2 !in m
    ensures m[k1 := c][k2 := c] - {k1, k2} == m
  {
    var r := m[k1 := c][k2 := c] - {k1, k2};
    assert r.Keys == m.Keys;
  }

  lemma ClearUndoesWrite(m: map<Key, int>, k1: Key, k2: Key, k3: Key, k4: Key, c: int)
    requires k1 in m && k2 in m && m[k1] == NO_EDGE && m[k2] == NO_EDGE
    requires k1 != k3 && k1 != k4 && k2 != k3 && k2 != k4
    ensures m[k1 := c][k2 := c][k3 := 0][k4 := 0][k1 := NO_EDGE][k2 := NO_EDGE] == m[k3 := 0][k4 := 0]
  {
    var l := m[k1 := c][k2 := c][k3 := 0][k4 := 0][k1 := NO_EDGE][k2 := NO_EDGE];
    var r := m[k3 := 0][k4 := 0];
    assert l.Keys == r.Keys;
  }

  /** Clearing two entries and writing back the values they held, together
      with two entries that already hold 0, restores the map. */
  lemma RewriteRestores(m: map<Key, int>, k1: Key, k2: Key, k3: Key, k4: Key, c: int)
    requires k1 in m && k2 in m && k3 in m && k4 in m
    requires m[k1] == c && m[k2] == c && m[k3] == 0 && m[k4] == 0
    ensures m[k1 := NO_EDGE][k2 := NO_EDGE][k1 := c][k2 := c][k3 := 0][k4 := 0] == m
  {
    var l := m[k1 := NO_EDGE][k2 := NO_EDGE][k1 := c][k2 := c][k3 := 0][k4 := 0];
    assert l.Keys == m.Keys;
  }

  /** add, remove, add of the same edge succeeds the second time and ends in
      exactly the state the first add produced. */
  lemma {:induction false} AddRemoveAdd(g: State, s: int, d: int, cost: int)
    requires WellFormed(g) && Consistent(g) && InRange(s) && InRange(d)
    requires AddEdge(g, s, d, cost).Success? && cost != NO_EDGE
    ensures var a := AddEdge(g, s, d, cost).value;
      && AddEdge(RemoveEdge(a, s, d), s, d, cost).Success?
      && AddEdge(RemoveEdge(a, s, d), s, d, cost).value == a
  {
    var a := AddEdge(g, s, d, cost).value;
    AddThenRemove(g, s, d, cost);
    var r := RemoveEdge(a, s, d);
    assert r.cells[(s, d)] == NO_EDGE && r.cells[(d, s)] == NO_EDGE;
    var b := AddEdge(r, s, d, cost).value;
    RewriteRestores(a.cells, (s, d), (d, s), (s, s), (d, d), cost);
    assert b.cells == a.cells;
    assert b.edges == a.edges;
  }

  // ---------------------------------------------------------------------
  // Sequences of edge commands

  datatype Command = Add(s: int, d: int, cost: int) | Remove(s: int, d: int) | Modify(s: int, d: int, cost: int)

  /** Commands whose endpoints are matrix indices and whose costs are not
      the `-1` sentinel. */
  predicate Admissible(c: Command) {
    match c
    case Add(s, d, cost) => InRange(s) && InRange(d) && cost != NO_EDGE
    case Remove(s, d) => InRange(s) && InRange(d)
    case Modify(s, d, cost) => InRange(s) && InRange(d) && cost != NO_EDGE
  }

  /** One command; a rejected add leaves the store as it was. */
  function Step(g: State, c: Command): (r: State)
    requires WellFormed(g) && Admissible(c)
    ensures WellFormed(r) && r.count >= g.count
  {
    match c
    case Add(s, d, cost) => (var a := AddEdge(g, s, d, cost); if a.Success? then a.value else g)
    case Remove(s, d) => RemoveEdge(g, s, d)
    case Modify(s, d, cost) => ModifyEdge(g, s, d, cost)
  }

  function Run(g: State, cs: seq<Command>): State
    requires WellFormed(g) && forall i :: 0 <= i < |cs| ==> Admissible(cs[i])
    decreases |cs|
  {
    if cs == [] then g else Run(Step(g, cs[0]), cs[1..])
  }

  /** Any sequence of admissible commands keeps the two views consistent and
      the graph symmetric, and never lowers the watermark. */
  lemma {:induction false} RunPreservesInvariants(g: State, cs: seq<Command>)
    requires WellFormed(g) && Consistent(g)
    requires forall i :: 0 <= i < |cs| ==> Admissible(cs[i])
    ensures WellFormed(Run(g, cs)) && Consistent(Run(g, cs))
    ensures Run(g, cs).count >= g.count
    decreases |cs|
  {
    if cs != [] {
      var next := Step(g, cs[0]);
      match cs[0] {
        case Add(s, d, cost) => AddEdgePreservesConsistent(g, s, d, cost);
        case Remove(s, d) => RemoveEdgePreservesConsistent(g, s, d);
        case Modify(s, d, cost) =>
          if s == d {
            ModifySelfLoopPreservesConsistent(g, s, cost);
          } else {
            ModifyEdgeUpserts(g, s, d, cost);
          }
      }
      RunPreservesInvariants(next, cs[1..]);
    }
  }
}
