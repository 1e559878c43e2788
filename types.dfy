/** Shapes shared by the search engine and the grid editor (lib/types.ts). */
module Types {

  datatype Option<+T> = None | Some(value: T)

  /** A grid coordinate; stands in for the `{ row, col }` objects and for the
      `"${row},${col}"` string keys of the source. */
  datatype Pos = Pos(row: int, col: int)

  /** A search distance: a finite count of steps, or the positive-infinity
      sentinel that means "not reached". */
  datatype Dist = Fin(n: nat) | Inf

  /** `d + 1` on numbers: infinity absorbs the increment. */
  function Plus1(d: Dist): (r: Dist)
    ensures r.Fin? <==> d.Fin?
    ensures r.Fin? ==> r.n == d.n + 1
  {
    match d
    case Fin(n) => Fin(n + 1)
    case Inf => Inf
  }

  /** The strict comparison `a < b` on numbers, where infinity is above every
      finite value and not below itself. */
  predicate Less(a: Dist, b: Dist)
  {
    match (a, b)
    case (Fin(x), Fin(y)) => x < y
    case (Fin(_), Inf) => true
    case (Inf, _) => false
  }

  /** `a <= b` on the same numbers. */
  predicate AtMost(a: Dist, b: Dist)
  {
    !Less(b, a)
  }

  /** A step further keeps the order of distances. */
  lemma Plus1Monotone(a: Dist, b: Dist)
    requires AtMost(a, b)
    ensures AtMost(Plus1(a), Plus1(b))
  {
  }

  /** One step further is the nearest distance beyond a finite `d`: it is
      above `d`, and at most any distance above `d`. */
  lemma Plus1Least(d: Dist, e: Dist)
    requires d.Fin?
    ensures Less(d, Plus1(d))
    ensures Less(d, e) ==> AtMost(Plus1(d), e)
  {
  }

  /** The sign that a sort comparator `a - b` hands to the sort: a NaN
      (infinity minus infinity) is read as 0, infinity minus a finite value
      as positive and a finite value minus infinity as negative. */
  function Compare(a: Dist, b: Dist): (r: int)
    ensures r == 0 <==> a == b
    ensures r < 0 <==> Less(a, b)
    ensures r > 0 <==> Less(b, a)
  {
    match (a, b)
    case (Fin(x), Fin(y)) => if x < y then -1 else if x == y then 0 else 1
    case (Fin(_), Inf) => -1
    case (Inf, Fin(_)) => 1
    case (Inf, Inf) => 0
  }

  /** One entry of `visitedInOrder`. */
  datatype Visit = Visit(row: int, col: int, distance: Dist)

  function VisitPos(v: Visit): Pos
  {
    Pos(v.row, v.col)
  }

  /** The value every search returns. */
  datatype AlgorithmResult = AlgorithmResult(visitedInOrder: seq<Visit>, path: seq<Pos>)

  /** A cell of the grid held by the visualizer. The `previousCell` field of
      the source is absent: cells held in the visualizer's state never carry
      one, and searches keep predecessors on their own board. */
  datatype Cell = Cell(
    row: int,
    col: int,
    isWall: bool,
    isStart: bool,
    isEnd: bool,
    isVisited: bool,
    isPath: bool,
    distance: Dist)

  datatype Algorithm = Bfs | Dfs | Dijkstra | AStar | Greedy

  /** `null` is `NoMode`. */
  datatype DrawMode = WallMode | StartMode | EndMode | NoMode

  /** No position occurs twice. */
  predicate NoDup<T(==)>(s: seq<T>)
  {
    forall i, j :: 0 <= i < j < |s| ==> s[i] != s[j]
  }
}
