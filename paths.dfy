/** reconstructPath (lib/algorithms.ts:56-68) and the shape of the
    predecessor links the searches leave behind. */
module Paths {
  import opened Types
  import opened Grid

  /** Every predecessor link points to an in-bounds cell with a strictly
      smaller finite distance, so following links always stops. */
  ghost predicate PredecessorsDescend(b: Board)
    requires b.Valid()
    reads b.prev, b.distance
  {
    forall p :: b.InBounds(p) && b.Prev(p).Some? ==>
      && b.InBounds(b.Prev(p).value)
      && b.D(p).Fin? && b.D(b.Prev(p).value).Fin?
      && b.D(b.Prev(p).value).n < b.D(p).n
  }

  /** The search forest every search leaves: `start` has distance 0 and no
      predecessor; a cell with a predecessor is one step, and one distance
      unit, away from it; and a predecessor is `start` or has a predecessor
      itself. */
  ghost predicate Rooted(b: Board, start: Pos)
    requires b.Valid()
    reads b.prev, b.distance
  {
    && b.InBounds(start)
    && b.Prev(start) == None
    && b.D(start) == Fin(0)
    && forall p :: b.InBounds(p) && b.Prev(p).Some? ==>
         && b.InBounds(b.Prev(p).value)
         && Adjacent(b.Prev(p).value, p)
         && b.D(p).Fin? && b.D(b.Prev(p).value).Fin?
         && b.D(p).n == b.D(b.Prev(p).value).n + 1
         && (b.Prev(p).value == start || b.Prev(b.Prev(p).value).Some?)
  }

  lemma RootedDescends(b: Board, start: Pos)
    requires b.Valid() && Rooted(b, start)
    ensures PredecessorsDescend(b)
  {
  }

  /** The cells reconstructPath collects from `c`: every cell on the
      predecessor chain that has a predecessor and is not flagged as the
      start, nearest the root first and `c` last. */
  ghost function ChainPath(b: Board, c: Pos): seq<Pos>
    requires b.Valid() && b.InBounds(c) && PredecessorsDescend(b)
    reads b.prev, b.distance
    decreases if b.D(c).Fin? then b.D(c).n else 0
  {
    match b.Prev(c)
    case None => []
    case Some(q) => ChainPath(b, q) + (if b.StartFlag(c) then [] else [c])
  }

  /** reconstructPath: walk the predecessor links from `end`, prepending every
      cell not flagged as the start, until a cell without a predecessor. */
  method ReconstructPath(b: Board, end: Pos) returns (path: seq<Pos>)
    requires b.Valid() && b.InBounds(end) && PredecessorsDescend(b)
    ensures path == ChainPath(b, end)
  {
    path := [];
    var current := end;
    while b.Prev(current).Some?
      invariant b.InBounds(current)
      invariant ChainPath(b, end) == ChainPath(b, current) + path
      decreases if b.D(current).Fin? then b.D(current).n else 0
    {
      if !b.StartFlag(current) {
        path := [current] + path;
      }
      current := b.Prev(current).value;
    }
  }

  /** Whatever the links: the path holds only in-bounds cells that have a
      predecessor and are not flagged as the start, and it is empty when
      `c` has no predecessor. */
  lemma {:induction false} ChainPathMembers(b: Board, c: Pos)
    requires b.Valid() && b.InBounds(c) && PredecessorsDescend(b)
    ensures b.Prev(c) == None ==> ChainPath(b, c) == []
    ensures forall q :: q in ChainPath(b, c) ==>
              b.InBounds(q) && b.Prev(q).Some? && !b.StartFlag(q)
    decreases if b.D(c).Fin? then b.D(c).n else 0
  {
    if b.Prev(c).Some? {
      ChainPathMembers(b, b.Prev(c).value);
    }
  }

  /** A route in the grid from a neighbour of `start` to `c`: consecutive
      cells are linked and orthogonally adjacent. */
  ghost predicate RouteFrom(b: Board, start: Pos, path: seq<Pos>)
    requires b.Valid()
    reads b.prev
  {
    && path != []
    && (forall i :: 0 <= i < |path| ==> b.InBounds(path[i]))
    && b.Prev(path[0]) == Some(start)
    && Adjacent(start, path[0])
    && forall i :: 0 <= i < |path| - 1 ==>
         b.Prev(path[i + 1]) == Some(path[i]) && Adjacent(path[i], path[i + 1])
  }

  lemma RouteFromExtend(b: Board, start: Pos, pre: seq<Pos>, c: Pos)
    requires b.Valid() && RouteFrom(b, start, pre) && b.InBounds(c)
    requires b.Prev(c) == Some(pre[|pre| - 1]) && Adjacent(pre[|pre| - 1], c)
    ensures RouteFrom(b, start, pre + [c])
  {
    var path := pre + [c];
    assert path[0] == pre[0];
    forall i | 0 <= i < |path| - 1
      ensures b.Prev(path[i + 1]) == Some(path[i]) && Adjacent(path[i], path[i + 1])
    {
      if i < |pre| - 1 {
        assert path[i] == pre[i] && path[i + 1] == pre[i + 1];
      }
    }
  }

  /** No predecessor link leads into a wall. */
  ghost predicate LinksAvoidWalls(b: Board)
    requires b.Valid()
    reads b.prev
  {
    forall p :: b.InBounds(p) && b.Prev(p).Some? ==> !b.Wall(p)
  }

  /** On a rooted board whose links avoid walls, `start` is connected to
      itself and to every cell that has a predecessor, through the links. */
  lemma {:induction false} LinkedConnected(b: Board, start: Pos, c: Pos)
    requires b.Valid() && Rooted(b, start) && LinksAvoidWalls(b)
    requires b.InBounds(c) && (c == start || b.Prev(c).Some?)
    ensures Connected(b.walls, start, c)
    decreases if b.D(c).Fin? then b.D(c).n else 0
  {
    if c == start {
      ConnectedSelf(b.walls, start);
    } else {
      var q := b.Prev(c).value;
      LinkedConnected(b, start, q);
      ConnectedStep(b.walls, start, q, c);
    }
  }

  /** `end` has been reached, and no route from `start` to `end` takes fewer
      steps than its distance. */
  ghost predicate NoShorterRoute(b: Board, start: Pos, end: Pos)
    requires b.Valid()
    reads b.distance
  {
    && b.InBounds(end) && b.D(end).Fin?
    && forall route :: IsRoute(b.walls, route) && route[0] == start && route[|route| - 1] == end ==>
         b.D(end).n <= |route| - 1
  }

  /** On a rooted board where only `start` may carry the start flag, the
      reconstructed path from a reached cell `c` runs from a neighbour of
      `start` to `c`, never contains `start`, and has exactly `distance(c)`
      cells. */
  lemma {:induction false} RootedChainShape(b: Board, start: Pos, c: Pos)
    requires b.Valid() && Rooted(b, start)
    requires forall p :: b.InBounds(p) && b.StartFlag(p) ==> p == start
    requires b.InBounds(c) && b.Prev(c).Some?
    ensures PredecessorsDescend(b)
    ensures RouteFrom(b, start, ChainPath(b, c))
    ensures ChainPath(b, c)[|ChainPath(b, c)| - 1] == c
    ensures start !in ChainPath(b, c)
    ensures |ChainPath(b, c)| == b.D(c).n
    decreases b.D(c).n
  {
    RootedDescends(b, start);
    var q := b.Prev(c).value;
    assert c != start;
    assert !b.StartFlag(c);
    if q == start {
      assert ChainPath(b, c) == [c];
    } else {
      RootedChainShape(b, start, q);
      var pre := ChainPath(b, q);
      assert ChainPath(b, c) == pre + [c];
      RouteFromExtend(b, start, pre, c);
    }
  }
}
