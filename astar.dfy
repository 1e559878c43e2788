/** A* search (lib/algorithms.ts:222-281): an open list sorted by f-score
    before every pop, a closed set, and an f-score table. A popped cell is
    closed and recorded; a neighbour that is neither closed nor a wall is
    opened, or, when already open, updated only if the tentative distance
    through the popped cell is strictly smaller; an update sets its
    predecessor, its distance and an f-score of distance plus Manhattan
    distance to the end. */
module AStar {
  import opened Types
  import opened Grid
  import opened Paths
  import opened SearchCommon
  import StableSort

  /** The sort key of lib/algorithms.ts:237-241: `fScore.get(key) || Infinity`,
      so a missing entry and an f-score of 0 both read as infinity. */
  function FScoreKey(fScore: map<Pos, nat>): Pos -> Dist
  {
    (p: Pos) => if p in fScore && fScore[p] != 0 then Fin(fScore[p]) else Inf
  }

  /** The open list, the f-scores and the board's distances and predecessors
      while a neighbour loop runs. */
  datatype Frontier = Frontier(v: View, open: seq<Pos>, fScore: map<Pos, nat>)

  /** The neighbour step of lib/algorithms.ts:263-276 for the closed cell
      `current` at distance `g` and neighbour `n`. */
  ghost function Relax(b: Board, end: Pos, closed: set<Pos>, current: Pos, g: nat, f: Frontier, n: Pos): (f': Frontier)
    requires b.Valid() && Total(f.v)
    ensures Total(f'.v)
  {
    if !b.InBounds(n) || n in closed || b.Wall(n) then f
    else if n in f.open && !Less(Fin(g + 1), f.v.dist[n]) then f
    else
      Frontier(View(f.v.dist[n := Fin(g + 1)], f.v.prev[n := Some(current)]),
               if n in f.open then f.open else f.open + [n],
               f.fScore[n := g + 1 + ManhattanDistance(n, end)])
  }

  /** The neighbour loop: Relax on each neighbour in turn. */
  ghost function RelaxAll(b: Board, end: Pos, closed: set<Pos>, current: Pos, g: nat, f: Frontier, ns: seq<Pos>): (f': Frontier)
    requires b.Valid() && Total(f.v)
    ensures Total(f'.v)
  {
    if ns == [] then f
    else Relax(b, end, closed, current, g, RelaxAll(b, end, closed, current, g, f, ns[..|ns| - 1]), ns[|ns| - 1])
  }

  /** `p`'s distance or predecessor differs between `f` and `f'`. */
  ghost predicate Touched(f: Frontier, f': Frontier, p: Pos)
    requires Total(f.v) && Total(f'.v)
  {
    f'.v.dist[p] != f.v.dist[p] || f'.v.prev[p] != f.v.prev[p]
  }

  /** Closed cells and walls are never touched; a touched cell is a listed
      neighbour, is open afterwards, and has distance `g + 1`, `current` as
      predecessor and f-score `g + 1` plus its Manhattan distance to the
      end; a cell that was already open is touched only when that lowers its
      distance. The open list only grows, at its end. */
  lemma {:induction false} RelaxAllTouches(b: Board, end: Pos, closed: set<Pos>, current: Pos, g: nat, f: Frontier, ns: seq<Pos>)
    requires b.Valid() && Total(f.v)
    ensures var f' := RelaxAll(b, end, closed, current, g, f, ns);
            && |f.open| <= |f'.open| && f'.open[..|f.open|] == f.open
            && forall p :: Touched(f, f', p) ==>
                 && b.InBounds(p) && p in ns && p !in closed && !b.Wall(p) && p in f'.open
                 && f'.v.dist[p] == Fin(g + 1) && f'.v.prev[p] == Some(current)
                 && p in f'.fScore && f'.fScore[p] == g + 1 + ManhattanDistance(p, end)
                 && (p in f.open ==> Less(Fin(g + 1), f.v.dist[p]))
  {
    if ns != [] {
      var init, n := ns[..|ns| - 1], ns[|ns| - 1];
      RelaxAllTouches(b, end, closed, current, g, f, init);
      var mid := RelaxAll(b, end, closed, current, g, f, init);
      var f' := Relax(b, end, closed, current, g, mid, n);
      assert f'.open[..|mid.open|] == mid.open;
      assert f'.open[..|f.open|] == mid.open[..|f.open|];
      forall p | Touched(f, f', p)
        ensures && b.InBounds(p) && p in ns && p !in closed && !b.Wall(p) && p in f'.open
                && f'.v.dist[p] == Fin(g + 1) && f'.v.prev[p] == Some(current)
                && p in f'.fScore && f'.fScore[p] == g + 1 + ManhattanDistance(p, end)
                && (p in f.open ==> Less(Fin(g + 1), f.v.dist[p]))
      {
        assert forall q :: q in mid.open ==> q in f'.open;
        assert forall q :: q in f.open ==> q in mid.open by {
          forall q | q in f.open ensures q in mid.open {
            var i :| 0 <= i < |f.open| && f.open[i] == q;
            assert mid.open[i] == q;
          }
        }
        if Touched(mid, f', p) {
          assert p == n;
        } else {
          assert Touched(f, mid, p);
          assert p in init;
        }
      }
    }
  }

  /** The bookkeeping of the main loop. `start` is closed once anything is;
      the open list holds distinct cells, none closed and none a wall other
      than `start`; every open or closed cell has been reached, and has a
      predecessor unless it is `start`; a cell with a predecessor is not a
      wall, and its predecessor is a closed cell one step and one distance
      unit away; the records name distinct closed
      cells with their distances. */
  ghost predicate Inv(b: Board, v: View, start: Pos, end: Pos, open: seq<Pos>, closed: set<Pos>, vs: seq<Visit>)
    requires b.Valid()
  {
    && Total(v)
    && b.InBounds(start) && v.prev[start] == None && v.dist[start] == Fin(0)
    && (closed == {} ==> open == [start]) && (closed != {} ==> start in closed)
    && NoDup(open)
    && (forall q :: q in open ==> b.InBounds(q) && q !in closed && (q == start || !b.Wall(q)))
    && (forall q :: q in closed ==> b.InBounds(q) && (q == start || !b.Wall(q)))
    && (forall q :: q in open || q in closed ==> v.dist[q].Fin? && (q == start || v.prev[q].Some?))
    && (forall p :: b.InBounds(p) && v.prev[p].Some? ==>
          && !b.Wall(p)
          && v.prev[p].value in closed
          && Adjacent(v.prev[p].value, p)
          && v.dist[p].Fin? && v.dist[v.prev[p].value].Fin?
          && v.dist[p].n == v.dist[v.prev[p].value].n + 1)
    && VisitsDistinct(vs)
    && (forall r :: r in vs ==>
          && b.InBounds(VisitPos(r)) && !b.StartFlag(VisitPos(r)) && VisitPos(r) != end
          && r.distance.Fin? && r.distance == v.dist[VisitPos(r)]
          && VisitPos(r) in closed)
  }

  lemma InitKeepsInv(b: Board, v: View, start: Pos, end: Pos)
    requires b.Valid() && b.InBounds(start) && Mirrors(b, v)
    requires b.NoPredecessors() && b.D(start) == Fin(0)
    ensures Inv(b, v, start, end, [start], {}, [])
  {
  }

  /** Popping `current` off the open list and closing it, recording it
      unless it carries the start flag. */
  lemma CloseKeepsInv(b: Board, v: View, start: Pos, end: Pos, open: seq<Pos>, closed: set<Pos>,
                      vs: seq<Visit>, current: Pos, rest: seq<Pos>, vs': seq<Visit>)
    requires b.Valid() && Inv(b, v, start, end, open, closed, vs)
    requires current in open && current != end
    requires NoDup(rest) && forall q :: q in rest <==> q in open && q != current
    requires vs' == vs + if b.StartFlag(current) then [] else [Visit(current.row, current.col, v.dist[current])]
    ensures Inv(b, v, start, end, rest, closed + {current}, vs')
  {
    if closed == {} {
      assert current == start;
    }
    assert forall r :: r in vs ==> VisitPos(r) != current;
    if b.StartFlag(current) {
      assert vs' == vs;
    } else {
      DistinctAppend(vs, Visit(current.row, current.col, v.dist[current]));
    }
    var closed' := closed + {current};
    forall r | r in vs'
      ensures && b.InBounds(VisitPos(r)) && !b.StartFlag(VisitPos(r)) && VisitPos(r) != end
              && r.distance.Fin? && r.distance == v.dist[VisitPos(r)]
              && VisitPos(r) in closed'
    {
      if r !in vs {
        assert r == Visit(current.row, current.col, v.dist[current]);
      }
    }
  }

  /** One neighbour step of the closed cell `current` at distance `g` keeps
      the bookkeeping. */
  lemma RelaxKeepsInv(b: Board, start: Pos, end: Pos, closed: set<Pos>, current: Pos, g: nat,
                      f: Frontier, vs: seq<Visit>, n: Pos)
    requires b.Valid() && Inv(b, f.v, start, end, f.open, closed, vs)
    requires current in closed && f.v.dist[current] == Fin(g)
    requires b.InBounds(n) ==> Adjacent(current, n)
    ensures var f' := Relax(b, end, closed, current, g, f, n);
            Inv(b, f'.v, start, end, f'.open, closed, vs) && f'.v.dist[current] == Fin(g)
  {
    var f' := Relax(b, end, closed, current, g, f, n);
    if f' != f {
      if n in f.open {
        UpdateKeepsInv(b, start, end, closed, current, g, f, vs, n);
      } else {
        OpenKeepsInv(b, start, end, closed, current, g, f, vs, n);
      }
    }
  }

  /** The step that updates `n`, already open, to a smaller distance. */
  lemma UpdateKeepsInv(b: Board, start: Pos, end: Pos, closed: set<Pos>, current: Pos, g: nat,
                       f: Frontier, vs: seq<Visit>, n: Pos)
    requires b.Valid() && Inv(b, f.v, start, end, f.open, closed, vs)
    requires current in closed && f.v.dist[current] == Fin(g)
    requires b.InBounds(n) ==> Adjacent(current, n)
    requires Relax(b, end, closed, current, g, f, n) != f
    requires n in f.open
    ensures var f' := Relax(b, end, closed, current, g, f, n);
            Inv(b, f'.v, start, end, f'.open, closed, vs) && f'.v.dist[current] == Fin(g)
  {
    var f' := Relax(b, end, closed, current, g, f, n);
    assert n != start && n !in closed;
    assert forall p :: b.InBounds(p) && f.v.prev[p].Some? ==> f.v.prev[p].value != n;
    assert forall r :: r in vs ==> VisitPos(r) != n;
    assert forall q :: q in f'.open ==> b.InBounds(q) && q !in closed && (q == start || !b.Wall(q));
    forall q | q in f'.open || q in closed
      ensures f'.v.dist[q].Fin? && (q == start || f'.v.prev[q].Some?)
    {
      if q != n {
        assert f'.v.prev[q] == f.v.prev[q] && f'.v.dist[q] == f.v.dist[q];
      }
    }
    forall p | b.InBounds(p) && f'.v.prev[p].Some?
      ensures && !b.Wall(p) && f'.v.prev[p].value in closed && Adjacent(f'.v.prev[p].value, p)
              && f'.v.dist[p].Fin? && f'.v.dist[f'.v.prev[p].value].Fin?
              && f'.v.dist[p].n == f'.v.dist[f'.v.prev[p].value].n + 1
    {
      if p != n {
        assert f'.v.prev[p] == f.v.prev[p] && f'.v.dist[p] == f.v.dist[p];
      }
    }
  }

  /** The step that opens `n`. */
  lemma OpenKeepsInv(b: Board, start: Pos, end: Pos, closed: set<Pos>, current: Pos, g: nat,
                     f: Frontier, vs: seq<Visit>, n: Pos)
    requires b.Valid() && Inv(b, f.v, start, end, f.open, closed, vs)
    requires current in closed && f.v.dist[current] == Fin(g)
    requires b.InBounds(n) ==> Adjacent(current, n)
    requires Relax(b, end, closed, current, g, f, n) != f
    requires n !in f.open
    ensures var f' := Relax(b, end, closed, current, g, f, n);
            Inv(b, f'.v, start, end, f'.open, closed, vs) && f'.v.dist[current] == Fin(g)
  {
    var f' := Relax(b, end, closed, current, g, f, n);
    assert n != start && n !in closed;
    assert forall p :: b.InBounds(p) && f.v.prev[p].Some? ==> f.v.prev[p].value != n;
    assert forall r :: r in vs ==> VisitPos(r) != n;
    NoDupConcat(f.open, [n]);
    assert forall q :: q in f'.open ==> b.InBounds(q) && q !in closed && (q == start || !b.Wall(q));
    forall q | q in f'.open || q in closed
      ensures f'.v.dist[q].Fin? && (q == start || f'.v.prev[q].Some?)
    {
      if q != n {
        assert f'.v.prev[q] == f.v.prev[q] && f'.v.dist[q] == f.v.dist[q];
      }
    }
    forall p | b.InBounds(p) && f'.v.prev[p].Some?
      ensures && !b.Wall(p) && f'.v.prev[p].value in closed && Adjacent(f'.v.prev[p].value, p)
              && f'.v.dist[p].Fin? && f'.v.dist[f'.v.prev[p].value].Fin?
              && f'.v.dist[p].n == f'.v.dist[f'.v.prev[p].value].n + 1
    {
      if p != n {
        assert f'.v.prev[p] == f.v.prev[p] && f'.v.dist[p] == f.v.dist[p];
      }
    }
  }

  lemma {:induction false} RelaxAllKeepsInv(b: Board, start: Pos, end: Pos, closed: set<Pos>, current: Pos, g: nat,
                                            f: Frontier, vs: seq<Visit>, ns: seq<Pos>)
    requires b.Valid() && Inv(b, f.v, start, end, f.open, closed, vs)
    requires current in closed && f.v.dist[current] == Fin(g)
    requires forall q :: q in ns ==> b.InBounds(q) && Adjacent(current, q)
    ensures var f' := RelaxAll(b, end, closed, current, g, f, ns);
            Inv(b, f'.v, start, end, f'.open, closed, vs) && f'.v.dist[current] == Fin(g)
  {
    if ns != [] {
      var init := ns[..|ns| - 1];
      assert forall q :: q in init ==> q in ns;
      RelaxAllKeepsInv(b, start, end, closed, current, g, f, vs, init);
      RelaxKeepsInv(b, start, end, closed, current, g, RelaxAll(b, end, closed, current, g, f, init), vs, ns[|ns| - 1]);
    }
  }

  /** A whole expansion keeps the bookkeeping: closing the popped cell
      `current`, recording it, and relaxing its neighbours. */
  lemma ExpandKeepsInv(b: Board, v: View, start: Pos, end: Pos, open: seq<Pos>, closed: set<Pos>,
                       fScore: map<Pos, nat>, vs: seq<Visit>, current: Pos, rest: seq<Pos>, vs': seq<Visit>,
                       ns: seq<Pos>)
    requires b.Valid() && Inv(b, v, start, end, open, closed, vs)
    requires current in open && current != end
    requires NoDup(rest) && forall q :: q in rest <==> q in open && q != current
    requires vs' == vs + if b.StartFlag(current) then [] else [Visit(current.row, current.col, v.dist[current])]
    requires forall q :: q in ns ==> b.InBounds(q) && Adjacent(current, q)
    ensures v.dist[current].Fin?
    ensures var f := RelaxAll(b, end, closed + {current}, current, v.dist[current].n, Frontier(v, rest, fScore), ns);
            Inv(b, f.v, start, end, f.open, closed + {current}, vs')
  {
    CloseKeepsInv(b, v, start, end, open, closed, vs, current, rest, vs');
    RelaxAllKeepsInv(b, start, end, closed + {current}, current, v.dist[current].n, Frontier(v, rest, fScore), vs', ns);
  }

  /** A neighbour in `ns` that is in bounds, not closed and not a wall is
      open after the neighbour loop, and every cell open before it still
      is. */
  lemma {:induction false} RelaxAllOpens(b: Board, end: Pos, closed: set<Pos>, current: Pos, g: nat, f: Frontier, ns: seq<Pos>)
    requires b.Valid() && Total(f.v)
    ensures forall q :: q in f.open ==> q in RelaxAll(b, end, closed, current, g, f, ns).open
    ensures forall n :: n in ns && b.InBounds(n) && n !in closed && !b.Wall(n) ==>
              n in RelaxAll(b, end, closed, current, g, f, ns).open
  {
    if ns != [] {
      var init := ns[..|ns| - 1];
      RelaxAllOpens(b, end, closed, current, g, f, init);
      assert forall n :: n in ns ==> n in init || n == ns[|ns| - 1];
    }
  }

  /** What the pops so far have done: the end has not been closed and, once
      it has a predecessor, waits in the open list; every passable
      neighbour of a closed cell is closed or open. */
  ghost predicate Progress(b: Board, v: View, end: Pos, open: seq<Pos>, closed: set<Pos>)
    requires Total(v)
  {
    && end !in closed
    && (v.prev[end].Some? ==> end in open)
    && forall p, q :: p in closed && Adjacent(p, q) && Passable(b.walls, q) ==> q in closed || q in open
  }

  /** Every closed cell that does not carry the start flag has been
      recorded. */
  ghost predicate Covered(b: Board, closed: set<Pos>, vs: seq<Visit>)
    requires b.Valid()
  {
    forall p :: p in closed && b.InBounds(p) && !b.StartFlag(p) ==> p in RecordedCells(vs)
  }

  /** Closing a popped cell other than the end and relaxing its neighbours
      keeps Progress. */
  lemma ProgressStep(b: Board, v: View, end: Pos, open: seq<Pos>, closed: set<Pos>, current: Pos, rest: seq<Pos>,
                     fScore: map<Pos, nat>, ns: seq<Pos>, g: nat)
    requires b.Valid() && Total(v) && Progress(b, v, end, open, closed)
    requires current in open && current != end
    requires forall q :: q in rest <==> q in open && q != current
    requires forall q :: q in ns <==> b.InBounds(q) && Adjacent(current, q)
    ensures var f := RelaxAll(b, end, closed + {current}, current, g, Frontier(v, rest, fScore), ns);
            Progress(b, f.v, end, f.open, closed + {current})
  {
    RelaxAllTouches(b, end, closed + {current}, current, g, Frontier(v, rest, fScore), ns);
    RelaxAllOpens(b, end, closed + {current}, current, g, Frontier(v, rest, fScore), ns);
  }

  /** Everything a finished search promises, read off the bookkeeping. */
  lemma InvOutcome(b: Board, v: View, start: Pos, end: Pos, open: seq<Pos>, closed: set<Pos>,
                   vs: seq<Visit>)
    requires b.Valid() && Mirrors(b, v) && Inv(b, v, start, end, open, closed, vs)
    ensures Rooted(b, start) && PredecessorsDescend(b)
    ensures VisitsWellFormed(b, end, vs) && VisitsDistinct(vs)
    ensures forall r :: r in vs ==> VisitPos(r) == start || !b.Wall(VisitPos(r))
    ensures end in open ==> end == start || b.Prev(end).Some?
    ensures closed <= AllCells(b.rows, b.cols)
  {
    RootedDescends(b, start);
    forall q | q in closed ensures q in AllCells(b.rows, b.cols) {
      AllCellsMembership(b.rows, b.cols, q);
    }
  }

  /** The neighbour loop of lib/algorithms.ts:261-277 on the board, the
      open list and the f-score table: the outcome is RelaxAll of the state
      before it. */
  method RelaxNeighbors(b: Board, end: Pos, closed: set<Pos>, current: Pos, ns: seq<Pos>,
                        openSet: seq<Pos>, fScore: map<Pos, nat>, ghost v: View, ghost g: nat)
    returns (openSet': seq<Pos>, fScore': map<Pos, nat>)
    requires b.Valid() && b.InBounds(current) && b.D(current) == Fin(g) && Mirrors(b, v)
    requires forall q :: q in ns ==> b.InBounds(q) && q != current
    modifies b.distance, b.prev
    ensures var f := RelaxAll(b, end, closed, current, g, Frontier(v, openSet, fScore), ns);
            Mirrors(b, f.v) && openSet' == f.open && fScore' == f.fScore
  {
    ghost var f0 := Frontier(v, openSet, fScore);
    ghost var f := f0;
    openSet', fScore' := openSet, fScore;
    for i := 0 to |ns|
      invariant f == RelaxAll(b, end, closed, current, g, f0, ns[..i])
      invariant Mirrors(b, f.v) && openSet' == f.open && fScore' == f.fScore
      invariant b.D(current) == Fin(g)
    {
      var neighbor := ns[i];
      assert ns[..i + 1][..i] == ns[..i];
      ghost var next := Relax(b, end, closed, current, g, f, neighbor);
      if neighbor in closed || b.Wall(neighbor) {
        f := next;
        continue;
      }
      var tentativeG := b.D(current).n + 1;
      if neighbor !in openSet' {
        openSet' := openSet' + [neighbor];
      } else if !Less(Fin(tentativeG), b.D(neighbor)) {
        f := next;
        continue;
      }
      SetCell(b, neighbor, Fin(tentativeG), Some(current), f.v);
      fScore' := fScore'[neighbor := tentativeG + ManhattanDistance(neighbor, end)];
      f := next;
    }
    assert ns[..|ns|] == ns;
  }

  /** One expansion (lib/algorithms.ts:252-277): close the popped cell
      `current`, record it unless it carries the start flag, and run the
      neighbour loop on the rest of the open list. */
  method Expand(b: Board, start: Pos, end: Pos, current: Pos, ghost open: seq<Pos>, rest: seq<Pos>,
                closedSet: set<Pos>, fScore: map<Pos, nat>, vs: seq<Visit>, ghost view: View)
    returns (openSet': seq<Pos>, closedSet': set<Pos>, fScore': map<Pos, nat>, vs': seq<Visit>,
             ghost view': View, ns: seq<Pos>)
    requires b.Valid() && Mirrors(b, view) && Inv(b, view, start, end, open, closedSet, vs)
    requires current in open && current != end && closedSet <= AllCells(b.rows, b.cols)
    requires NoDup(rest) && forall q :: q in rest <==> q in open && q != current
    requires Progress(b, view, end, open, closedSet) && Covered(b, closedSet, vs)
    modifies b.distance, b.prev
    ensures Mirrors(b, view') && Inv(b, view', start, end, openSet', closedSet', vs')
    ensures Progress(b, view', end, openSet', closedSet') && Covered(b, closedSet', vs')
    ensures closedSet' == closedSet + {current} && closedSet' <= AllCells(b.rows, b.cols)
    ensures vs' == vs + if b.StartFlag(current) then [] else [Visit(current.row, current.col, old(b.D(current)))]
    ensures forall q :: q in ns <==> b.InBounds(q) && Adjacent(current, q)
    ensures forall i, j :: 0 <= i < j < |ns| ==> Rank(current, ns[i]) < Rank(current, ns[j])
    ensures Frontier(view', openSet', fScore')
            == RelaxAll(b, end, closedSet', current, view.dist[current].n, Frontier(view, rest, fScore), ns)
  {
    ns := GetNeighbors(b.rows, b.cols, current);
    closedSet' := closedSet + {current};
    vs' := vs;
    if !b.StartFlag(current) {
      vs' := vs' + [Visit(current.row, current.col, b.D(current))];
    }
    forall p | p in closedSet' && b.InBounds(p) && !b.StartFlag(p) ensures p in RecordedCells(vs') {
      if p == current {
        assert vs'[|vs'| - 1] in vs';
      } else {
        var r :| r in vs && VisitPos(r) == p;
        assert r in vs';
      }
    }
    ExpandKeepsInv(b, view, start, end, open, closedSet, fScore, vs, current, rest, vs', ns);
    AllCellsMembership(b.rows, b.cols, current);
    ghost var g := view.dist[current].n;
    ghost var f := RelaxAll(b, end, closedSet', current, g, Frontier(view, rest, fScore), ns);
    ProgressStep(b, view, end, open, closedSet, current, rest, fScore, ns, g);
    openSet', fScore' := RelaxNeighbors(b, end, closedSet', current, ns, rest, fScore, view, g);
    view' := f.v;
  }

  /** A* search (lib/algorithms.ts:222-281). The board's predecessor links
      form a search forest rooted at `start`; when the end coordinate is
      popped the path is the one read from those links, and otherwise it is
      empty; the records name distinct cells, none a wall other than
      `start`, with their final distances. */
  method Run(b: Board, start: Pos, end: Pos) returns (res: AlgorithmResult, ghost reached: bool)
    requires b.Valid() && b.InBounds(start) && b.NoPredecessors()
    modifies b.distance, b.prev
    ensures Rooted(b, start) && PredecessorsDescend(b) && LinksAvoidWalls(b)
    ensures reached <==> b.InBounds(end) && (end == start || b.Prev(end).Some?)
    ensures reached <==> Connected(b.walls, start, end)
    ensures reached ==> res.path == ChainPath(b, end)
    ensures !reached ==> res.path == []
    ensures VisitsWellFormed(b, end, res.visitedInOrder) && VisitsDistinct(res.visitedInOrder)
    ensures forall v :: v in res.visitedInOrder ==> VisitPos(v) == start || !b.Wall(VisitPos(v))
    ensures !reached ==> forall p :: p in RecordedCells(res.visitedInOrder) <==>
                           b.InBounds(p) && Connected(b.walls, start, p) && !b.StartFlag(p)
  {
    var visitedInOrder: seq<Visit> := [];
    var openSet := [start];
    var closedSet: set<Pos> := {};
    var fScore: map<Pos, nat> := map[];
    b.distance[start.row, start.col] := Fin(0);
    fScore := fScore[start := ManhattanDistance(start, end)];
    ghost var view := ViewOf(b);
    InitKeepsInv(b, view, start, end);
    assert Covered(b, closedSet, visitedInOrder);
    var found := false;
    while openSet != []
      invariant Mirrors(b, view)
      invariant Inv(b, view, start, end, openSet, closedSet, visitedInOrder)
      invariant closedSet <= AllCells(b.rows, b.cols)
      invariant Progress(b, view, end, openSet, closedSet) && Covered(b, closedSet, visitedInOrder)
      invariant !found
      decreases |AllCells(b.rows, b.cols) - closedSet|
    {
      var current, rest, _ := StableSort.SortAndShift(openSet, FScoreKey(fScore));
      TakeMembers(openSet, current, rest);
      if current == end {
        found := true;
        break;
      }
      ghost var oldClosed := closedSet;
      ghost var ns;
      openSet, closedSet, fScore, visitedInOrder, view, ns :=
        Expand(b, start, end, current, openSet, rest, closedSet, fScore, visitedInOrder, view);
      RemainderShrinks(AllCells(b.rows, b.cols), oldClosed, closedSet);
    }
    res, reached := Finish(b, start, end, found, openSet, closedSet, visitedInOrder, view);
  }

  /** The end of lib/algorithms.ts:222-281: the path when the end coordinate
      was popped, and the records. */
  method Finish(b: Board, start: Pos, end: Pos, found: bool, ghost open: seq<Pos>, ghost closed: set<Pos>,
                vs: seq<Visit>, ghost view: View)
    returns (res: AlgorithmResult, ghost reached: bool)
    requires b.Valid() && Mirrors(b, view) && Inv(b, view, start, end, open, closed, vs)
    requires Progress(b, view, end, open, closed) && Covered(b, closed, vs)
    requires found ==> end in open
    requires !found ==> open == []
    ensures reached == found
    ensures Rooted(b, start) && PredecessorsDescend(b) && LinksAvoidWalls(b)
    ensures reached <==> b.InBounds(end) && (end == start || b.Prev(end).Some?)
    ensures reached <==> Connected(b.walls, start, end)
    ensures reached ==> res.path == ChainPath(b, end)
    ensures !reached ==> res.path == []
    ensures VisitsWellFormed(b, end, res.visitedInOrder) && VisitsDistinct(res.visitedInOrder)
    ensures forall v :: v in res.visitedInOrder ==> VisitPos(v) == start || !b.Wall(VisitPos(v))
    ensures !reached ==> forall p :: p in RecordedCells(res.visitedInOrder) <==>
                           b.InBounds(p) && Connected(b.walls, start, p) && !b.StartFlag(p)
  {
    InvOutcome(b, view, start, end, open, closed, vs);
    assert LinksAvoidWalls(b);
    if found {
      LinkedConnected(b, start, end);
    } else {
      forall q ensures q in RecordedCells(vs) <==> q in closed && b.InBounds(q) && !b.StartFlag(q) {
        if q in RecordedCells(vs) {
          var r :| r in vs && VisitPos(r) == q;
        }
      }
      RecordsCoverConnected(b, start, closed, vs);
      if Connected(b.walls, start, end) {
        ClosedHoldsConnected(b.walls, closed, start, end);
      }
    }
    var path := [];
    if found {
      path := ReconstructPath(b, end);
    }
    res, reached := AlgorithmResult(vs, path), found;
  }
}
