/** The grid a search runs on, and the neighbour and heuristic helpers of
    lib/algorithms.ts (getNeighbors, manhattanDistance). */
module Grid {
  import opened Types

  function Abs(x: int): nat
  {
    if x < 0 then -x else x
  }

  /** manhattanDistance: |row difference| + |column difference|. */
  function ManhattanDistance(a: Pos, b: Pos): (r: nat)
    ensures r == 0 <==> a == b
  {
    Abs(a.row - b.row) + Abs(a.col - b.col)
  }

  /** The heuristic is a metric: symmetric, and it obeys the triangle
      inequality; one grid step changes it by at most one. */
  lemma ManhattanIsMetric(a: Pos, b: Pos, c: Pos)
    ensures ManhattanDistance(a, b) == ManhattanDistance(b, a)
    ensures ManhattanDistance(a, c) <= ManhattanDistance(a, b) + ManhattanDistance(b, c)
    ensures ManhattanDistance(a, b) == 1 ==>
              ManhattanDistance(b, c) <= ManhattanDistance(a, c) + 1 &&
              ManhattanDistance(a, c) <= ManhattanDistance(b, c) + 1
  {
  }

  /** Two cells are orthogonal neighbours. */
  predicate Adjacent(p: Pos, q: Pos)
  {
    ManhattanDistance(p, q) == 1
  }

  predicate InGrid(rows: int, cols: int, p: Pos)
  {
    0 <= p.row < rows && 0 <= p.col < cols
  }

  /** Every cell of a rows x cols grid. */
  ghost function AllCells(rows: nat, cols: nat): set<Pos>
  {
    set r, c | 0 <= r < rows && 0 <= c < cols :: Pos(r, c)
  }

  lemma AllCellsMembership(rows: nat, cols: nat, p: Pos)
    ensures p in AllCells(rows, cols) <==> InGrid(rows, cols, p)
  {
    if InGrid(rows, cols, p) {
      assert p == Pos(p.row, p.col);
    }
  }

  /** Up, right, down, left, as row and column offsets. */
  const Directions: seq<(int, int)> := [(-1, 0), (0, 1), (1, 0), (0, -1)]

  /** The cell one step from `p` in direction `k`. */
  function Step(p: Pos, k: nat): Pos
    requires k < |Directions|
  {
    Pos(p.row + Directions[k].0, p.col + Directions[k].1)
  }

  /** The position of the direction from `p` to `q` in the order up, right,
      down, left (4 when `q` is not a neighbour of `p`). */
  function Rank(p: Pos, q: Pos): nat
  {
    if q == Step(p, 0) then 0
    else if q == Step(p, 1) then 1
    else if q == Step(p, 2) then 2
    else if q == Step(p, 3) then 3
    else 4
  }

  lemma StepRank(p: Pos, k: nat)
    requires k < |Directions|
    ensures Rank(p, Step(p, k)) == k
    ensures Adjacent(p, Step(p, k))
  {
  }

  /** The four directions are exactly the cells at Manhattan distance 1. */
  lemma AdjacentIsStep(p: Pos, q: Pos)
    ensures Adjacent(p, q) <==> Rank(p, q) < 4
    ensures Rank(p, q) < 4 ==> q == Step(p, Rank(p, q))
  {
  }

  /** getNeighbors: the in-bounds orthogonal neighbours of `p` in the order
      up, right, down, left. */
  method GetNeighbors(rows: int, cols: int, p: Pos) returns (ns: seq<Pos>)
    ensures |ns| <= 4
    ensures forall q :: q in ns <==> InGrid(rows, cols, q) && Adjacent(p, q)
    ensures forall i, j :: 0 <= i < j < |ns| ==> Rank(p, ns[i]) < Rank(p, ns[j])
    ensures NoDup(ns)
  {
    ns := [];
    for k := 0 to |Directions|
      invariant |ns| <= k
      invariant forall q :: q in ns ==> InGrid(rows, cols, q) && Adjacent(p, q) && Rank(p, q) < k
      invariant forall k' :: 0 <= k' < k && InGrid(rows, cols, Step(p, k')) ==> Step(p, k') in ns
      invariant forall i, j :: 0 <= i < j < |ns| ==> Rank(p, ns[i]) < Rank(p, ns[j])
    {
      var (dr, dc) := Directions[k];
      var newRow, newCol := p.row + dr, p.col + dc;
      StepRank(p, k);
      assert Pos(newRow, newCol) == Step(p, k);
      if 0 <= newRow < rows && 0 <= newCol < cols {
        ns := ns + [Pos(newRow, newCol)];
      }
    }
    forall q | InGrid(rows, cols, q) && Adjacent(p, q)
      ensures q in ns
    {
      AdjacentIsStep(p, q);
    }
  }

  /** `p` is a cell of the wall grid `walls` and not a wall. */
  predicate Passable(walls: seq<seq<bool>>, p: Pos)
  {
    0 <= p.row < |walls| && 0 <= p.col < |walls[p.row]| && !walls[p.row][p.col]
  }

  /** A walk of orthogonal steps that enters only passable cells (its first
      cell may be anything). */
  ghost predicate IsRoute(walls: seq<seq<bool>>, route: seq<Pos>)
  {
    && route != []
    && forall i :: 0 < i < |route| ==> Adjacent(route[i - 1], route[i]) && Passable(walls, route[i])
  }

  /** Some route leads from `start` to `end`. */
  ghost predicate Connected(walls: seq<seq<bool>>, start: Pos, end: Pos)
  {
    exists route :: IsRoute(walls, route) && route[0] == start && route[|route| - 1] == end
  }

  /** From every cell of `s`, each passable neighbour is in `s` too. */
  ghost predicate StepClosed(walls: seq<seq<bool>>, s: set<Pos>)
  {
    forall p, q :: p in s && Adjacent(p, q) && Passable(walls, q) ==> q in s
  }

  lemma ConnectedSelf(walls: seq<seq<bool>>, p: Pos)
    ensures Connected(walls, p, p)
  {
    assert IsRoute(walls, [p]);
  }

  /** One more step into a passable neighbour keeps a connection. */
  lemma ConnectedStep(walls: seq<seq<bool>>, start: Pos, p: Pos, q: Pos)
    requires Connected(walls, start, p) && Adjacent(p, q) && Passable(walls, q)
    ensures Connected(walls, start, q)
  {
    var route :| IsRoute(walls, route) && route[0] == start && route[|route| - 1] == p;
    var longer := route + [q];
    forall i | 0 < i < |longer|
      ensures Adjacent(longer[i - 1], longer[i]) && Passable(walls, longer[i])
    {
      if i < |route| {
        assert longer[i - 1] == route[i - 1] && longer[i] == route[i];
      }
    }
    assert IsRoute(walls, longer) && longer[0] == start && longer[|longer| - 1] == q;
  }

  lemma {:induction false} RouteInside(walls: seq<seq<bool>>, s: set<Pos>, route: seq<Pos>, k: nat)
    requires StepClosed(walls, s) && IsRoute(walls, route) && route[0] in s && k < |route|
    ensures route[k] in s
  {
    if k > 0 {
      RouteInside(walls, s, route, k - 1);
    }
  }

  /** A set closed under steps holds every cell connected to one of its
      cells. */
  lemma ClosedHoldsConnected(walls: seq<seq<bool>>, s: set<Pos>, start: Pos, end: Pos)
    requires StepClosed(walls, s) && start in s && Connected(walls, start, end)
    ensures end in s
  {
    var route :| IsRoute(walls, route) && route[0] == start && route[|route| - 1] == end;
    RouteInside(walls, s, route, |route| - 1);
  }

  /** The grid a search works on. The wall and start flags are only read
      during a search, so they are values; the `distance` and `previousCell`
      fields it writes are one 2-D array each. `prev` holds the
      predecessor's coordinates instead of a reference. */
  class Board {
    const rows: nat
    const cols: nat
    const walls: seq<seq<bool>>
    const starts: seq<seq<bool>>
    const distance: array2<Dist>
    const prev: array2<Option<Pos>>

    ghost predicate Valid()
    {
      && |walls| == rows && (forall r :: 0 <= r < rows ==> |walls[r]| == cols)
      && |starts| == rows && (forall r :: 0 <= r < rows ==> |starts[r]| == cols)
      && distance.Length0 == rows && distance.Length1 == cols
      && prev.Length0 == rows && prev.Length1 == cols
    }

    predicate InBounds(p: Pos)
    {
      InGrid(rows, cols, p)
    }

    function Wall(p: Pos): bool
      requires Valid() && InBounds(p)
    {
      walls[p.row][p.col]
    }

    function StartFlag(p: Pos): bool
      requires Valid() && InBounds(p)
    {
      starts[p.row][p.col]
    }

    function D(p: Pos): Dist
      requires Valid() && InBounds(p)
      reads distance
    {
      distance[p.row, p.col]
    }

    function Prev(p: Pos): Option<Pos>
      requires Valid() && InBounds(p)
      reads prev
    {
      prev[p.row, p.col]
    }

    /** No cell has a predecessor yet: the state of a freshly copied grid. */
    ghost predicate NoPredecessors()
      requires Valid()
      reads prev
    {
      forall p :: InBounds(p) ==> Prev(p) == None
    }

    /** The copy of the visualizer's grid that a search receives: wall and
        start flags and distances from the cells, and no predecessors. */
    constructor FromCells(g: seq<seq<Cell>>, rows: nat, cols: nat)
      requires |g| == rows && forall r :: 0 <= r < rows ==> |g[r]| == cols
      ensures this.rows == rows && this.cols == cols && Valid()
      ensures fresh(distance) && fresh(prev)
      ensures forall p :: InBounds(p) ==>
                && Wall(p) == g[p.row][p.col].isWall
                && StartFlag(p) == g[p.row][p.col].isStart
                && D(p) == g[p.row][p.col].distance
      ensures NoPredecessors()
    {
      this.rows, this.cols := rows, cols;
      walls := seq(rows, r requires 0 <= r < rows => seq(cols, c requires 0 <= c < cols => g[r][c].isWall));
      starts := seq(rows, r requires 0 <= r < rows => seq(cols, c requires 0 <= c < cols => g[r][c].isStart));
      distance := new Dist[rows, cols]((r, c) requires 0 <= r < rows && 0 <= c < cols => g[r][c].distance);
      prev := new Option<Pos>[rows, cols]((r, c) => None);
    }
  }
}
