/** Dijkstra's search (lib/algorithms.ts:165-218): every cell starts unvisited
    at infinite distance; the unvisited list is sorted by distance before
    every pop; a popped wall is skipped, a popped cell at infinity ends the
    search, and any other popped cell relaxes its neighbours that are not
    walls. */
module Dijkstra {
  import opened Types
  import opened Grid
  import opened Paths
  import opened SearchCommon
  import StableSort

  /** `p` comes before `q` in row-major order. */
  predicate RowMajorBefore(p: Pos, q: Pos)
  {
    p.row < q.row || (p.row == q.row && p.col < q.col)
  }

  /** The initialization loop: every cell gets infinite distance and no
      predecessor, and the unvisited list holds every cell of the grid once,
      in row-major order. */
  method ResetAll(b: Board) returns (unvisited: seq<Pos>)
    requires b.Valid()
    modifies b.distance, b.prev
    ensures forall p :: b.InBounds(p) ==> b.D(p) == Inf && b.Prev(p) == None
    ensures forall q :: q in unvisited <==> b.InBounds(q)
    ensures forall i, j :: 0 <= i < j < |unvisited| ==> RowMajorBefore(unvisited[i], unvisited[j])
    ensures NoDup(unvisited)
  {
    unvisited := [];
    for r := 0 to b.rows
      invariant forall p :: b.InBounds(p) && p.row < r ==> b.D(p) == Inf && b.Prev(p) == None
      invariant forall q :: q in unvisited <==> b.InBounds(q) && q.row < r
      invariant forall i, j :: 0 <= i < j < |unvisited| ==> RowMajorBefore(unvisited[i], unvisited[j])
    {
      for c := 0 to b.cols
        invariant forall p :: b.InBounds(p) && (p.row < r || (p.row == r && p.col < c)) ==>
                    b.D(p) == Inf && b.Prev(p) == None
        invariant forall q :: q in unvisited <==> b.InBounds(q) && (q.row < r || (q.row == r && q.col < c))
        invariant forall i, j :: 0 <= i < j < |unvisited| ==> RowMajorBefore(unvisited[i], unvisited[j])
      {
        b.distance[r, c] := Inf;
        b.prev[r, c] := None;
        unvisited := unvisited + [Pos(r, c)];
      }
    }
  }

  /** The distances of the board as a value, and the sort key they give:
      the comparator `a.distance - b.distance` reads the distances as they
      stand when `sort` is called. */
  function Snapshot(b: Board): (s: seq<seq<Dist>>)
    requires b.Valid()
    reads b.distance
    ensures |s| == b.rows && forall r :: 0 <= r < b.rows ==> |s[r]| == b.cols
    ensures forall p :: b.InBounds(p) ==> s[p.row][p.col] == b.D(p)
  {
    seq(b.rows, r reads b.distance requires 0 <= r < b.rows =>
      seq(b.cols, c reads b.distance requires 0 <= c < b.cols => b.distance[r, c]))
  }

  function DistanceKey(s: seq<seq<Dist>>): Pos -> Dist
  {
    (p: Pos) => if 0 <= p.row < |s| && 0 <= p.col < |s[p.row]| then s[p.row][p.col] else Inf
  }

  /** The distances and predecessors after the initialization loop and
      `start.distance = 0`. */
  ghost function InitialView(start: Pos): (v: View)
    ensures Total(v)
    ensures forall p :: v.dist[p] == (if p == start then Fin(0) else Inf) && v.prev[p] == None
  {
    View(imap p | AnyPos(p) :: if p == start then Fin(0) else Inf, imap p | AnyPos(p) :: None)
  }

  /** Popped cells that are not walls are settled at a finite distance no
      greater than `floor`. */
  ghost predicate Settled(b: Board, v: View, unvisited: seq<Pos>, floor: nat)
    requires b.Valid() && Total(v)
  {
    forall p :: b.InBounds(p) && p !in unvisited && !b.Wall(p) ==> v.dist[p].Fin? && v.dist[p].n <= floor
  }

  /** No unvisited cell is below `floor`. */
  ghost predicate AboveFloor(v: View, unvisited: seq<Pos>, floor: nat)
    requires Total(v)
  {
    forall q :: q in unvisited ==> AtMost(Fin(floor), v.dist[q])
  }

  /** The predecessor links form a search forest rooted at `start`, whose
      inner nodes are popped cells that are not walls; a cell at finite
      distance is `start` or has a predecessor; walls other than `start` are
      never reached. */
  ghost predicate Tree(b: Board, v: View, start: Pos, unvisited: seq<Pos>)
    requires b.Valid() && Total(v)
  {
    && b.InBounds(start) && v.prev[start] == None && v.dist[start] == Fin(0)
    && (forall p :: b.InBounds(p) && v.prev[p].Some? ==>
          && b.InBounds(v.prev[p].value)
          && Adjacent(v.prev[p].value, p)
          && v.dist[p].Fin? && v.dist[v.prev[p].value].Fin?
          && v.dist[p].n == v.dist[v.prev[p].value].n + 1
          && (v.prev[p].value == start || v.prev[v.prev[p].value].Some?)
          && v.prev[p].value !in unvisited && !b.Wall(v.prev[p].value))
    && (forall p :: b.InBounds(p) && v.dist[p].Fin? ==> p == start || v.prev[p].Some?)
    && (forall p :: b.InBounds(p) && b.Wall(p) && p != start ==> v.dist[p] == Inf)
  }

  /** The records name distinct popped cells that are not walls, flagged as
      the start or the end coordinate, with their current distances, in
      non-decreasing order. */
  ghost predicate Records(b: Board, v: View, end: Pos, unvisited: seq<Pos>, vs: seq<Visit>)
    requires b.Valid() && Total(v)
  {
    && VisitsDistinct(vs) && NonDecreasing(vs)
    && forall r :: r in vs ==>
         && b.InBounds(VisitPos(r)) && !b.StartFlag(VisitPos(r)) && VisitPos(r) != end
         && r.distance.Fin? && r.distance == v.dist[VisitPos(r)]
         && VisitPos(r) !in unvisited && !b.Wall(VisitPos(r))
  }

  /** The bookkeeping of the main loop; `floor` is the distance of the last
      settled cell. */
  ghost predicate InvV(b: Board, v: View, start: Pos, end: Pos, unvisited: seq<Pos>, vs: seq<Visit>, floor: nat)
    requires b.Valid()
  {
    && Total(v)
    && NoDup(unvisited) && (forall q :: q in unvisited ==> b.InBounds(q))
    && Settled(b, v, unvisited, floor) && AboveFloor(v, unvisited, floor)
    && Tree(b, v, start, unvisited) && Records(b, v, end, unvisited, vs)
  }

  /** The neighbour step at lib/algorithms.ts:209-214: a neighbour that is
      not a wall and whose distance is above `d + 1` gets distance `d + 1`
      and `current` as predecessor. */
  ghost function RelaxNeighbor(b: Board, v: View, current: Pos, n: Pos, d: nat): (v': View)
    requires b.Valid() && Total(v)
    ensures Total(v')
  {
    if b.InBounds(n) && !b.Wall(n) && Less(Fin(d + 1), v.dist[n])
    then View(v.dist[n := Fin(d + 1)], v.prev[n := Some(current)])
    else v
  }

  /** The neighbour loop: RelaxNeighbor on each neighbour in turn. */
  ghost function RelaxAll(b: Board, v: View, current: Pos, ns: seq<Pos>, d: nat): (v': View)
    requires b.Valid() && Total(v)
    ensures Total(v')
  {
    if ns == [] then v
    else RelaxNeighbor(b, RelaxAll(b, v, current, ns[..|ns| - 1], d), current, ns[|ns| - 1], d)
  }

  /** Relaxation never raises a distance, and a cell whose distance changes
      gets `current` as predecessor at distance `d + 1`. */
  lemma {:induction false} RelaxAllOnlyLowers(b: Board, v: View, current: Pos, ns: seq<Pos>, d: nat)
    requires b.Valid() && Total(v)
    ensures forall p :: AtMost(RelaxAll(b, v, current, ns, d).dist[p], v.dist[p])
    ensures forall p :: RelaxAll(b, v, current, ns, d).dist[p] != v.dist[p] ==>
              && b.InBounds(p) && p in ns && !b.Wall(p)
              && RelaxAll(b, v, current, ns, d).dist[p] == Fin(d + 1)
              && RelaxAll(b, v, current, ns, d).prev[p] == Some(current)
  {
    if ns != [] {
      var init := ns[..|ns| - 1];
      RelaxAllOnlyLowers(b, v, current, init, d);
      assert forall p :: p in init ==> p in ns;
    }
  }

  /** One relaxation keeps the bookkeeping for a settled cell `current` at
      distance `d`. */
  lemma RelaxNeighborKeepsInv(b: Board, v: View, start: Pos, end: Pos, current: Pos, n: Pos, d: nat,
                              unvisited: seq<Pos>, vs: seq<Visit>)
    requires b.Valid() && InvV(b, v, start, end, unvisited, vs, d)
    requires b.InBounds(current) && current !in unvisited && !b.Wall(current) && v.dist[current] == Fin(d)
    requires b.InBounds(n) ==> Adjacent(current, n)
    ensures InvV(b, RelaxNeighbor(b, v, current, n, d), start, end, unvisited, vs, d)
    ensures RelaxNeighbor(b, v, current, n, d).dist[current] == Fin(d)
  {
    var v' := RelaxNeighbor(b, v, current, n, d);
    if v' != v {
      LowerKeepsInv(b, v, start, end, current, n, d, unvisited, vs);
    }
  }

  /** The relaxation that lowers the distance of `n`. */
  lemma LowerKeepsInv(b: Board, v: View, start: Pos, end: Pos, current: Pos, n: Pos, d: nat,
                      unvisited: seq<Pos>, vs: seq<Visit>)
    requires b.Valid() && InvV(b, v, start, end, unvisited, vs, d)
    requires b.InBounds(current) && current !in unvisited && !b.Wall(current) && v.dist[current] == Fin(d)
    requires b.InBounds(n) ==> Adjacent(current, n)
    requires RelaxNeighbor(b, v, current, n, d) != v
    ensures InvV(b, RelaxNeighbor(b, v, current, n, d), start, end, unvisited, vs, d)
  {
    var v' := RelaxNeighbor(b, v, current, n, d);
    assert n in unvisited && n != start;
    LowerKeepsTree(b, v, start, current, n, d, unvisited);
    assert forall r :: r in vs ==> VisitPos(r) != n;
    assert Settled(b, v', unvisited, d);
    assert Records(b, v', end, unvisited, vs);
  }

  /** Lowering the distance of the unvisited cell `n` keeps the search
      forest. */
  lemma LowerKeepsTree(b: Board, v: View, start: Pos, current: Pos, n: Pos, d: nat, unvisited: seq<Pos>)
    requires b.Valid() && Total(v) && Tree(b, v, start, unvisited)
    requires b.InBounds(current) && current !in unvisited && !b.Wall(current) && v.dist[current] == Fin(d)
    requires b.InBounds(n) ==> Adjacent(current, n)
    requires RelaxNeighbor(b, v, current, n, d) != v
    requires n in unvisited && n != start
    ensures Tree(b, RelaxNeighbor(b, v, current, n, d), start, unvisited)
  {
    var v' := RelaxNeighbor(b, v, current, n, d);
    forall p | b.InBounds(p) && v'.prev[p].Some?
      ensures && b.InBounds(v'.prev[p].value)
              && Adjacent(v'.prev[p].value, p)
              && v'.dist[p].Fin? && v'.dist[v'.prev[p].value].Fin?
              && v'.dist[p].n == v'.dist[v'.prev[p].value].n + 1
              && (v'.prev[p].value == start || v'.prev[v'.prev[p].value].Some?)
              && v'.prev[p].value !in unvisited && !b.Wall(v'.prev[p].value)
    {
      if p != n {
        assert v.prev[p].value != n;
      }
    }
  }

  lemma {:induction false} RelaxAllKeepsInv(b: Board, v: View, start: Pos, end: Pos, current: Pos, ns: seq<Pos>, d: nat,
                                            unvisited: seq<Pos>, vs: seq<Visit>)
    requires b.Valid() && InvV(b, v, start, end, unvisited, vs, d)
    requires b.InBounds(current) && current !in unvisited && !b.Wall(current) && v.dist[current] == Fin(d)
    requires forall q :: q in ns ==> b.InBounds(q) && Adjacent(current, q)
    ensures InvV(b, RelaxAll(b, v, current, ns, d), start, end, unvisited, vs, d)
    ensures RelaxAll(b, v, current, ns, d).dist[current] == Fin(d)
  {
    if ns != [] {
      var init := ns[..|ns| - 1];
      assert forall q :: q in init ==> q in ns;
      RelaxAllKeepsInv(b, v, start, end, current, init, d, unvisited, vs);
      RelaxNeighborKeepsInv(b, RelaxAll(b, v, current, init, d), start, end, current, ns[|ns| - 1], d, unvisited, vs);
    }
  }

  /** The neighbour loop of lib/algorithms.ts:207-216, run on the board: the
      new distances and predecessors are RelaxAll of the old ones. */
  method Relax(b: Board, current: Pos, ns: seq<Pos>, ghost d: nat, ghost v: View)
    requires b.Valid() && b.InBounds(current) && b.D(current) == Fin(d) && Mirrors(b, v)
    requires forall q :: q in ns ==> b.InBounds(q) && q != current
    modifies b.distance, b.prev
    ensures Mirrors(b, RelaxAll(b, v, current, ns, d))
  {
    ghost var w := v;
    for i := 0 to |ns|
      invariant w == RelaxAll(b, v, current, ns[..i], d)
      invariant Mirrors(b, w) && b.D(current) == Fin(d)
    {
      var neighbor := ns[i];
      assert ns[..i + 1][..i] == ns[..i];
      ghost var next := RelaxNeighbor(b, w, current, neighbor, d);
      if !b.Wall(neighbor) {
        var newDistance := Plus1(b.D(current));
        if Less(newDistance, b.D(neighbor)) {
          SetCell(b, neighbor, newDistance, Some(current), w);
        }
      }
      w := next;
    }
    assert ns[..|ns|] == ns;
  }

  /** Every neighbour in `ns` that is in bounds and not a wall ends up at
      distance `d + 1` or less once `current` has been relaxed. */
  lemma {:induction false} RelaxAllReaches(b: Board, v: View, current: Pos, ns: seq<Pos>, d: nat)
    requires b.Valid() && Total(v)
    ensures forall n :: n in ns && b.InBounds(n) && !b.Wall(n) ==> AtMost(RelaxAll(b, v, current, ns, d).dist[n], Fin(d + 1))
  {
    if ns != [] {
      var init := ns[..|ns| - 1];
      RelaxAllReaches(b, v, current, init, d);
      var w := RelaxAll(b, v, current, init, d);
      forall n | n in ns && b.InBounds(n) && !b.Wall(n)
        ensures AtMost(RelaxNeighbor(b, w, current, ns[|ns| - 1], d).dist[n], Fin(d + 1))
      {
        if n != ns[|ns| - 1] {
          assert n in init;
        }
      }
    }
  }

  /** What the pops so far have done: the end, unless it is a wall, has
      not been popped; every passable neighbour of a popped cell that is not
      a wall is at most one step further than it; and when `start` is a wall
      nothing else has been reached (a popped wall is skipped, so nothing is
      relaxed from it). */
  ghost predicate Progress(b: Board, v: View, start: Pos, end: Pos, unvisited: seq<Pos>)
    requires b.Valid() && Total(v)
  {
    && (b.InBounds(end) && !b.Wall(end) ==> end in unvisited)
    && (forall p, q :: b.InBounds(p) && p !in unvisited && !b.Wall(p) && Adjacent(p, q) && Passable(b.walls, q) ==>
          AtMost(v.dist[q], Plus1(v.dist[p])))
    && (b.InBounds(start) && b.Wall(start) ==> forall p :: b.InBounds(p) && p != start ==> v.dist[p] == Inf)
  }

  /** Every popped cell that is neither a wall nor flagged as the start has
      been recorded. */
  ghost predicate Covered(b: Board, unvisited: seq<Pos>, vs: seq<Visit>)
    requires b.Valid()
  {
    forall p :: b.InBounds(p) && p !in unvisited && !b.Wall(p) && !b.StartFlag(p) ==> p in RecordedCells(vs)
  }

  /** Dropping a popped wall keeps Progress. */
  lemma DropProgress(b: Board, v: View, start: Pos, end: Pos, unvisited: seq<Pos>, current: Pos, rest: seq<Pos>)
    requires b.Valid() && Total(v) && Progress(b, v, start, end, unvisited)
    requires b.InBounds(current) && b.Wall(current)
    requires forall q :: q in rest <==> q in unvisited && q != current
    ensures Progress(b, v, start, end, rest)
  {
  }

  /** Settling `current` (not a wall, not the end) and relaxing its
      neighbours keeps Progress. */
  lemma RelaxProgress(b: Board, v: View, start: Pos, end: Pos, unvisited: seq<Pos>, current: Pos, rest: seq<Pos>,
                      ns: seq<Pos>, d: nat)
    requires b.Valid() && Total(v) && Progress(b, v, start, end, unvisited)
    requires Settled(b, v, unvisited, d)
    requires b.InBounds(current) && !b.Wall(current) && current != end && v.dist[current] == Fin(d)
    requires forall q :: q in rest <==> q in unvisited && q != current
    requires forall q :: q in ns <==> b.InBounds(q) && Adjacent(current, q)
    ensures Progress(b, RelaxAll(b, v, current, ns, d), start, end, rest)
  {
    var v' := RelaxAll(b, v, current, ns, d);
    RelaxAllOnlyLowers(b, v, current, ns, d);
    RelaxAllReaches(b, v, current, ns, d);
    forall p, q | b.InBounds(p) && p !in rest && !b.Wall(p) && Adjacent(p, q) && Passable(b.walls, q)
      ensures AtMost(v'.dist[q], Plus1(v'.dist[p]))
    {
      assert v'.dist[p] == v.dist[p];
      if p != current {
        assert AtMost(v.dist[q], Plus1(v.dist[p]));
      }
    }
  }

  /** Everything a finished search promises, read off the bookkeeping. */
  lemma InvOutcome(b: Board, v: View, start: Pos, end: Pos, unvisited: seq<Pos>, vs: seq<Visit>, floor: nat)
    requires b.Valid() && Mirrors(b, v) && InvV(b, v, start, end, unvisited, vs, floor)
    ensures Rooted(b, start) && PredecessorsDescend(b)
    ensures VisitsWellFormed(b, end, vs) && VisitsDistinct(vs) && NonDecreasing(vs)
    ensures forall r :: r in vs ==> !b.Wall(VisitPos(r))
    ensures forall p :: b.InBounds(p) && b.D(p).Fin? ==> p == start || b.Prev(p).Some?
  {
    assert Tree(b, v, start, unvisited);
    RootedDescends(b, start);
  }

  /** The state after the initialization loop and `start.distance = 0`
      starts the bookkeeping. */
  lemma InitKeepsInv(b: Board, v: View, start: Pos, end: Pos, unvisited: seq<Pos>)
    requires b.Valid() && Total(v) && b.InBounds(start)
    requires forall p :: b.InBounds(p) ==> v.dist[p] == (if p == start then Fin(0) else Inf) && v.prev[p] == None
    requires forall q :: q in unvisited <==> b.InBounds(q)
    requires NoDup(unvisited)
    ensures InvV(b, v, start, end, unvisited, [], 0)
  {
  }

  /** A popped wall is dropped from the unvisited list and nothing else
      changes. */
  lemma DropKeepsInv(b: Board, v: View, start: Pos, end: Pos, unvisited: seq<Pos>, vs: seq<Visit>, floor: nat,
                     current: Pos, rest: seq<Pos>)
    requires b.Valid() && InvV(b, v, start, end, unvisited, vs, floor)
    requires current in unvisited && b.Wall(current)
    requires NoDup(rest) && forall q :: q in rest <==> q in unvisited && q != current
    ensures InvV(b, v, start, end, rest, vs, floor)
  {
  }

  /** A popped cell that is not a wall and holds the least finite distance
      is settled at that distance, and recorded unless it carries the start
      flag. */
  lemma SettleKeepsInv(b: Board, v: View, start: Pos, end: Pos, unvisited: seq<Pos>, vs: seq<Visit>, floor: nat,
                       current: Pos, rest: seq<Pos>, vs': seq<Visit>)
    requires b.Valid() && InvV(b, v, start, end, unvisited, vs, floor)
    requires current in unvisited && !b.Wall(current) && v.dist[current].Fin? && current != end
    requires NoDup(rest) && forall q :: q in rest <==> q in unvisited && q != current
    requires forall q :: q in unvisited ==> AtMost(v.dist[current], v.dist[q])
    requires vs' == vs + if b.StartFlag(current) then [] else [Visit(current.row, current.col, v.dist[current])]
    ensures InvV(b, v, start, end, rest, vs', v.dist[current].n)
  {
    var d := v.dist[current].n;
    assert AtMost(Fin(floor), v.dist[current]);
    assert forall r :: r in vs ==> VisitPos(r) != current;
    if !b.StartFlag(current) {
      var rec := Visit(current.row, current.col, v.dist[current]);
      forall i, j | 0 <= i < j < |vs'| ensures VisitPos(vs'[i]) != VisitPos(vs'[j]) {
        if j == |vs| {
          assert vs'[i] in vs;
        }
      }
      forall i, j | 0 <= i < j < |vs'| ensures AtMost(vs'[i].distance, vs'[j].distance) {
        if j == |vs| {
          assert vs'[i] in vs;
        }
      }
    }
    assert Settled(b, v, rest, d);
    assert Records(b, v, end, rest, vs');
  }

  /** `unvisited.sort((a, b) => a.distance - b.distance)` followed by
      `shift()` (lib/algorithms.ts:186-187): the head taken is the first
      unvisited cell with the least distance, the rest is the sorted
      remainder and holds every other cell once. */
  method SortAndShift(b: Board, unvisited: seq<Pos>) returns (current: Pos, rest: seq<Pos>)
    requires b.Valid() && unvisited != [] && NoDup(unvisited)
    requires forall q :: q in unvisited ==> b.InBounds(q)
    ensures current in unvisited && b.InBounds(current)
    ensures forall q :: q in unvisited ==> AtMost(b.D(current), b.D(q))
    ensures forall j :: 0 <= j < |unvisited| && unvisited[j] == current ==>
              forall i :: 0 <= i < j ==> Less(b.D(current), b.D(unvisited[i]))
    ensures rest == StableSort.SortBy(unvisited, DistanceKey(Snapshot(b)))[1..]
    ensures NoDup(rest) && forall q :: q in rest <==> q in unvisited && q != current
    ensures |rest| == |unvisited| - 1
  {
    var key := DistanceKey(Snapshot(b));
    ghost var i;
    current, rest, i := StableSort.SortAndShift(unvisited, key);
    TakeMembers(unvisited, current, rest);
    forall j | 0 <= j < |unvisited| && unvisited[j] == current
      ensures forall i :: 0 <= i < j ==> Less(b.D(current), b.D(unvisited[i]))
    {
      assert j == i;
    }
  }

  /** One turn for a popped cell that is neither a wall, nor at infinity,
      nor the end (lib/algorithms.ts:196-216): record it unless it carries
      the start flag, then relax its neighbours, listed up, right, down,
      left; the board then mirrors RelaxAll of the snapshot. */
  method Settle(b: Board, start: Pos, end: Pos, current: Pos, ghost unvisited: seq<Pos>, ghost rest: seq<Pos>,
                vs: seq<Visit>, ghost floor: nat, ghost view: View)
    returns (vs': seq<Visit>, ns: seq<Pos>, ghost view': View)
    requires b.Valid() && Mirrors(b, view) && InvV(b, view, start, end, unvisited, vs, floor)
    requires Progress(b, view, start, end, unvisited) && Covered(b, unvisited, vs)
    requires current in unvisited && !b.Wall(current) && b.D(current).Fin? && current != end
    requires NoDup(rest) && forall q :: q in rest <==> q in unvisited && q != current
    requires forall q :: q in unvisited ==> AtMost(b.D(current), b.D(q))
    modifies b.distance, b.prev
    ensures vs' == vs + if b.StartFlag(current) then [] else [Visit(current.row, current.col, old(b.D(current)))]
    ensures forall q :: q in ns <==> b.InBounds(q) && Adjacent(current, q)
    ensures forall i, j :: 0 <= i < j < |ns| ==> Rank(current, ns[i]) < Rank(current, ns[j])
    ensures view' == RelaxAll(b, view, current, ns, old(b.D(current)).n)
    ensures Mirrors(b, view') && InvV(b, view', start, end, rest, vs', old(b.D(current)).n)
    ensures Progress(b, view', start, end, rest) && Covered(b, rest, vs')
  {
    ghost var d := b.D(current).n;
    vs' := vs;
    if !b.StartFlag(current) {
      vs' := vs' + [Visit(current.row, current.col, b.D(current))];
    }
    forall p | b.InBounds(p) && p !in rest && !b.Wall(p) && !b.StartFlag(p) ensures p in RecordedCells(vs') {
      if p == current {
        assert vs'[|vs'| - 1] in vs';
      } else {
        var r :| r in vs && VisitPos(r) == p;
        assert r in vs';
      }
    }
    SettleKeepsInv(b, view, start, end, unvisited, vs, floor, current, rest, vs');
    ns := GetNeighbors(b.rows, b.cols, current);
    RelaxProgress(b, view, start, end, unvisited, current, rest, ns, d);
    Relax(b, current, ns, d, view);
    RelaxAllKeepsInv(b, view, start, end, current, ns, d, rest, vs');
    view' := RelaxAll(b, view, current, ns, d);
  }

  /** Dijkstra's search (lib/algorithms.ts:165-220). The board's predecessor
      links form a search forest rooted at `start`; when the end coordinate
      is popped the path is the one read from those links, and otherwise it
      is empty; the records name distinct cells that are not walls, with
      their final distances, in non-decreasing order. */
  method Run(b: Board, start: Pos, end: Pos) returns (res: AlgorithmResult, ghost reached: bool)
    requires b.Valid() && b.InBounds(start)
    modifies b.distance, b.prev
    ensures Rooted(b, start) && PredecessorsDescend(b) && LinksAvoidWalls(b)
    ensures reached <==> b.InBounds(end) && !b.Wall(end) && b.D(end).Fin?
    ensures reached <==> !b.Wall(start) && Connected(b.walls, start, end)
    ensures reached ==> end == start || b.Prev(end).Some?
    ensures reached ==> res.path == ChainPath(b, end)
    ensures !reached ==> res.path == []
    ensures VisitsWellFormed(b, end, res.visitedInOrder) && VisitsDistinct(res.visitedInOrder)
    ensures NonDecreasing(res.visitedInOrder)
    ensures forall v :: v in res.visitedInOrder ==> !b.Wall(VisitPos(v))
    ensures !reached ==> forall p :: p in RecordedCells(res.visitedInOrder) <==>
                           b.InBounds(p) && !b.Wall(start) && Connected(b.walls, start, p) && !b.StartFlag(p)
    ensures reached ==> NoShorterRoute(b, start, end)
  {
    var visitedInOrder: seq<Visit> := [];
    var unvisited := ResetAll(b);
    b.distance[start.row, start.col] := Fin(0);
    ghost var view := InitialView(start);
    InitKeepsInv(b, view, start, end, unvisited);
    assert Covered(b, unvisited, visitedInOrder);
    ghost var floor: nat := 0;
    var found := false;
    while unvisited != []
      invariant Mirrors(b, view)
      invariant InvV(b, view, start, end, unvisited, visitedInOrder, floor)
      invariant Progress(b, view, start, end, unvisited) && Covered(b, unvisited, visitedInOrder)
      invariant !found
      decreases |unvisited|
    {
      var current, rest := SortAndShift(b, unvisited);
      if b.Wall(current) {
        DropKeepsInv(b, view, start, end, unvisited, visitedInOrder, floor, current, rest);
        DropProgress(b, view, start, end, unvisited, current, rest);
        assert Covered(b, rest, visitedInOrder);
        unvisited := rest;
        continue;
      }
      if b.D(current) == Inf {
        break;
      }
      if current == end {
        DijkstraShortest(b, view, start, end, unvisited, visitedInOrder, floor);
        found := true;
        break;
      }
      ghost var d := b.D(current).n;
      var ns;
      visitedInOrder, ns, view := Settle(b, start, end, current, unvisited, rest, visitedInOrder, floor, view);
      unvisited, floor := rest, d;
    }
    res, reached := Finish(b, start, end, found, view, unvisited, visitedInOrder, floor);
  }

  /** Walking a route from a settled cell whose distance is at most its
      index: the end, the least of the unvisited cells, is no further than
      the route's last index. */
  lemma {:induction false} RouteNoShorter(b: Board, v: View, start: Pos, end: Pos, unvisited: seq<Pos>,
                                          route: seq<Pos>, i: nat)
    requires b.Valid() && Total(v) && Progress(b, v, start, end, unvisited)
    requires end in unvisited && v.dist[end].Fin? && forall q :: q in unvisited ==> AtMost(v.dist[end], v.dist[q])
    requires IsRoute(b.walls, route) && route[|route| - 1] == end && i < |route|
    requires b.InBounds(route[i]) && route[i] !in unvisited && !b.Wall(route[i])
    requires v.dist[route[i]].Fin? && v.dist[route[i]].n <= i
    ensures v.dist[end].n <= |route| - 1
    decreases |route| - i
  {
    var q := route[i + 1];
    assert Adjacent(route[i], q) && Passable(b.walls, q);
    assert AtMost(v.dist[q], Plus1(v.dist[route[i]]));
    if q !in unvisited {
      RouteNoShorter(b, v, start, end, unvisited, route, i + 1);
    }
  }

  /** When Dijkstra's search pops the end at a finite distance, no route
      from `start` reaches it in fewer steps. */
  lemma DijkstraShortest(b: Board, v: View, start: Pos, end: Pos, unvisited: seq<Pos>, vs: seq<Visit>, floor: nat)
    requires b.Valid() && Mirrors(b, v) && InvV(b, v, start, end, unvisited, vs, floor)
    requires Progress(b, v, start, end, unvisited)
    requires end in unvisited && b.InBounds(end) && !b.Wall(end) && b.D(end).Fin?
    requires forall q :: q in unvisited ==> AtMost(b.D(end), b.D(q))
    ensures NoShorterRoute(b, start, end)
  {
    assert Tree(b, v, start, unvisited);
    forall route | IsRoute(b.walls, route) && route[0] == start && route[|route| - 1] == end
      ensures b.D(end).n <= |route| - 1
    {
      if start in unvisited {
        assert AtMost(b.D(end), b.D(start));
      } else if !b.Wall(start) {
        RouteNoShorter(b, v, start, end, unvisited, route, 0);
      }
    }
  }

  /** When the search stops without popping the end, the cells that are in
      bounds, not walls and at a finite distance are closed under steps. */
  lemma ReachedCellsClosed(b: Board, v: View, start: Pos, end: Pos, unvisited: seq<Pos>, reachedCells: set<Pos>)
    requires b.Valid() && Mirrors(b, v) && Progress(b, v, start, end, unvisited)
    requires forall q :: q in unvisited ==> v.dist[q] == Inf
    requires reachedCells == set p | p in AllCells(b.rows, b.cols) && !b.Wall(p) && b.D(p).Fin?
    ensures StepClosed(b.walls, reachedCells)
  {
    forall p, q | p in reachedCells && Adjacent(p, q) && Passable(b.walls, q)
      ensures q in reachedCells
    {
      AllCellsMembership(b.rows, b.cols, p);
      AllCellsMembership(b.rows, b.cols, q);
    }
  }

  /** The end of lib/algorithms.ts:165-220: the path read from the
      predecessor links when the end coordinate was popped at a finite
      distance, none otherwise, and the records. */
  method Finish(b: Board, start: Pos, end: Pos, found: bool, ghost v: View, ghost unvisited: seq<Pos>,
                vs: seq<Visit>, ghost floor: nat)
    returns (res: AlgorithmResult, ghost reached: bool)
    requires b.Valid() && Mirrors(b, v) && InvV(b, v, start, end, unvisited, vs, floor)
    requires Progress(b, v, start, end, unvisited) && Covered(b, unvisited, vs)
    requires found ==> b.InBounds(end) && !b.Wall(end) && b.D(end).Fin?
    requires !found ==> forall q :: q in unvisited ==> v.dist[q] == Inf
    ensures reached == found
    ensures Rooted(b, start) && PredecessorsDescend(b) && LinksAvoidWalls(b)
    ensures reached <==> b.InBounds(end) && !b.Wall(end) && b.D(end).Fin?
    ensures reached <==> !b.Wall(start) && Connected(b.walls, start, end)
    ensures reached ==> end == start || b.Prev(end).Some?
    ensures reached ==> res.path == ChainPath(b, end)
    ensures !reached ==> res.path == []
    ensures VisitsWellFormed(b, end, res.visitedInOrder) && VisitsDistinct(res.visitedInOrder)
    ensures NonDecreasing(res.visitedInOrder)
    ensures forall r :: r in res.visitedInOrder ==> !b.Wall(VisitPos(r))
    ensures !reached ==> forall p :: p in RecordedCells(res.visitedInOrder) <==>
                           b.InBounds(p) && !b.Wall(start) && Connected(b.walls, start, p) && !b.StartFlag(p)
  {
    InvOutcome(b, v, start, end, unvisited, vs, floor);
    assert LinksAvoidWalls(b);
    if found {
      LinkedConnected(b, start, end);
    } else if !b.Wall(start) {
      var reachedCells := set p | p in AllCells(b.rows, b.cols) && !b.Wall(p) && b.D(p).Fin?;
      ReachedCellsClosed(b, v, start, end, unvisited, reachedCells);
      AllCellsMembership(b.rows, b.cols, start);
      forall q | q in reachedCells ensures b.InBounds(q) && (q == start || b.Prev(q).Some?) {
        AllCellsMembership(b.rows, b.cols, q);
      }
      forall q ensures q in RecordedCells(vs) <==> q in reachedCells && b.InBounds(q) && !b.StartFlag(q) {
        AllCellsMembership(b.rows, b.cols, q);
        if q in RecordedCells(vs) {
          var r :| r in vs && VisitPos(r) == q;
        }
      }
      RecordsCoverConnected(b, start, reachedCells, vs);
      if Connected(b.walls, start, end) {
        ClosedHoldsConnected(b.walls, reachedCells, start, end);
      }
    } else {
      forall q | q in RecordedCells(vs) ensures q == start {
        var r :| r in vs && VisitPos(r) == q;
      }
    }
    var path := [];
    if found {
      path := ReconstructPath(b, end);
    }
    res, reached := AlgorithmResult(vs, path), found;
  }
}
