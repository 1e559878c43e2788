/** The three searches that give a cell its distance and predecessor the
    first time it is seen: breadth-first (FIFO queue), depth-first (LIFO
    stack) and greedy best-first (open list sorted by the Manhattan distance
    to the end) (lib/algorithms.ts:75-163, 283-332). They share their
    expansion step: record the popped cell, then push every neighbour that is
    neither visited nor a wall. */
module FirstDiscovery {
  import opened Types
  import opened Grid
  import opened Paths
  import opened SearchCommon
  import StableSort

  /** The neighbours, in order, that a first-discovery step pushes. */
  function Discovered(b: Board, ns: seq<Pos>, visited: set<Pos>): seq<Pos>
    requires b.Valid() && forall q :: q in ns ==> b.InBounds(q)
  {
    if ns == [] then []
    else
      var q := ns[|ns| - 1];
      Discovered(b, ns[..|ns| - 1], visited) + (if q !in visited && !b.Wall(q) then [q] else [])
  }

  /** A cell is discovered exactly when it is a listed neighbour that is
      neither visited nor a wall; no cell is discovered twice. */
  lemma {:induction false} DiscoveredMembers(b: Board, ns: seq<Pos>, visited: set<Pos>)
    requires b.Valid() && forall q :: q in ns ==> b.InBounds(q)
    ensures forall q :: q in Discovered(b, ns, visited) <==>
              q in ns && q !in visited && !b.Wall(q)
    ensures NoDup(ns) ==> NoDup(Discovered(b, ns, visited))
  {
    if ns != [] {
      var init := ns[..|ns| - 1];
      assert ns == init + [ns[|ns| - 1]];
      DiscoveredMembers(b, init, visited);
    }
  }

  /** Visited cells are in bounds, reached, and not walls unless they are
      `start`; only visited cells have predecessors; and the board is a
      search forest rooted at `start`. */
  ghost predicate ForestInv(b: Board, start: Pos, visited: set<Pos>)
    requires b.Valid()
    reads b.prev, b.distance
  {
    && b.InBounds(start) && start in visited
    && (forall q :: q in visited ==>
          b.InBounds(q) && b.D(q).Fin? && (q == start || (b.Prev(q).Some? && !b.Wall(q))))
    && (forall p :: b.InBounds(p) && b.Prev(p).Some? ==> p in visited)
    && Rooted(b, start)
  }

  /** The frontier holds distinct visited cells, none a wall other than `start`. */
  ghost predicate FrontierInv(b: Board, start: Pos, visited: set<Pos>, frontier: seq<Pos>)
    requires b.Valid()
  {
    && NoDup(frontier)
    && forall q :: q in frontier ==> q in visited && b.InBounds(q) && (q == start || !b.Wall(q))
  }

  /** The records are well formed and distinct, name visited cells that have
      left the frontier, and are not walls unless they are `start`. */
  ghost predicate RecordsInv(b: Board, start: Pos, end: Pos, visited: set<Pos>, frontier: seq<Pos>, vs: seq<Visit>)
    requires b.Valid()
    reads b.distance
  {
    && VisitsWellFormed(b, end, vs)
    && VisitsDistinct(vs)
    && forall v :: v in vs ==> VisitPos(v) in visited && VisitPos(v) !in frontier
                               && (VisitPos(v) == start || !b.Wall(VisitPos(v)))
  }

  /** The bookkeeping shared by the three loops. */
  ghost predicate Inv(b: Board, start: Pos, end: Pos, visited: set<Pos>, frontier: seq<Pos>, vs: seq<Visit>)
    requires b.Valid()
    reads b.prev, b.distance
  {
    ForestInv(b, start, visited) && FrontierInv(b, start, visited, frontier)
    && RecordsInv(b, start, end, visited, frontier, vs)
  }

  /** One more neighbour considered; it is new exactly when it was not among
      the earlier ones, not visited and not a wall. */
  lemma DiscoveredStep(b: Board, ns: seq<Pos>, i: nat, visited: set<Pos>)
    requires b.Valid() && forall q :: q in ns ==> b.InBounds(q)
    requires i < |ns| && NoDup(ns)
    ensures Discovered(b, ns[..i + 1], visited)
            == Discovered(b, ns[..i], visited) + (if ns[i] !in visited && !b.Wall(ns[i]) then [ns[i]] else [])
    ensures ns[i] !in Discovered(b, ns[..i], visited)
  {
    assert ns[..i + 1][..i] == ns[..i];
    DiscoveredMembers(b, ns[..i], visited);
  }

  /** Links one undiscovered neighbour `p` to `current`: it gets distance
      `d1`, one more than the current cell's, and `current` as predecessor.
      The search forest and the records stay well formed with `p` marked
      visited and pushed. */
  method Link(b: Board, start: Pos, end: Pos, current: Pos, p: Pos, d1: Dist,
              visited: set<Pos>, frontier: seq<Pos>, vs: seq<Visit>)
    requires b.Valid() && ForestInv(b, start, visited) && RecordsInv(b, start, end, visited, frontier, vs)
    requires current in visited && b.InBounds(p) && p !in visited && !b.Wall(p) && Adjacent(current, p)
    requires d1 == Plus1(b.D(current))
    modifies b.distance, b.prev
    ensures ForestInv(b, start, visited + {p})
    ensures RecordsInv(b, start, end, visited + {p}, frontier + [p], vs)
    ensures b.D(p) == d1 && b.Prev(p) == Some(current)
    ensures forall q :: b.InBounds(q) && q != p ==> b.D(q) == old(b.D(q)) && b.Prev(q) == old(b.Prev(q))
  {
    b.distance[p.row, p.col] := d1;
    b.prev[p.row, p.col] := Some(current);
    forall q | b.InBounds(q) && b.Prev(q).Some? && q != p
      ensures b.Prev(q).value != p
    {
      assert old(b.Prev(q)).Some?;
    }
  }

  /** One turn of the neighbour loop: `n` is linked, marked visited and
      pushed exactly when it is neither visited nor a wall. */
  method Consider(b: Board, start: Pos, end: Pos, current: Pos, n: Pos, d1: Dist,
                  visited: set<Pos>, frontier: seq<Pos>, vs: seq<Visit>)
    returns (visited': set<Pos>, frontier': seq<Pos>)
    requires b.Valid() && ForestInv(b, start, visited) && RecordsInv(b, start, end, visited, frontier, vs)
    requires current in visited && b.InBounds(n) && Adjacent(current, n)
    requires d1 == Plus1(b.D(current))
    modifies b.distance, b.prev
    ensures ForestInv(b, start, visited') && RecordsInv(b, start, end, visited', frontier', vs)
    ensures var isNew := n !in visited && !b.Wall(n);
            && visited' == (if isNew then visited + {n} else visited)
            && frontier' == frontier + (if isNew then [n] else [])
    ensures forall q :: b.InBounds(q) ==>
              if q in visited' - visited
              then b.D(q) == d1 && b.Prev(q) == Some(current)
              else b.D(q) == old(b.D(q)) && b.Prev(q) == old(b.Prev(q))
  {
    visited', frontier' := visited, frontier;
    if n !in visited && !b.Wall(n) {
      Link(b, start, end, current, n, d1, visited, frontier, vs);
      visited', frontier' := visited + {n}, frontier + [n];
    }
  }

  /** The neighbour loop of BFS, DFS and greedy: each neighbour that is not
      yet visited and not a wall is marked visited, gets the current cell's
      distance plus one and the current cell as predecessor, and is pushed. */
  method Discover(b: Board, start: Pos, end: Pos, current: Pos, ns: seq<Pos>,
                  visited: set<Pos>, frontier: seq<Pos>, vs: seq<Visit>)
    returns (visited': set<Pos>, frontier': seq<Pos>)
    requires b.Valid() && ForestInv(b, start, visited) && RecordsInv(b, start, end, visited, frontier, vs)
    requires current in visited
    requires forall q :: q in ns ==> b.InBounds(q) && Adjacent(current, q)
    requires NoDup(ns)
    modifies b.distance, b.prev
    ensures ForestInv(b, start, visited') && RecordsInv(b, start, end, visited', frontier', vs)
    ensures frontier' == frontier + Discovered(b, ns, visited)
    ensures forall q :: q in visited' <==> q in visited || q in Discovered(b, ns, visited)
    ensures forall p :: b.InBounds(p) ==>
              if p in visited' - visited
              then b.D(p) == Plus1(old(b.D(current))) && b.Prev(p) == Some(current)
              else b.D(p) == old(b.D(p)) && b.Prev(p) == old(b.Prev(p))
    ensures forall p :: b.InBounds(p) && p !in Discovered(b, ns, visited) ==>
              b.D(p) == old(b.D(p)) && b.Prev(p) == old(b.Prev(p))
  {
    visited', frontier' := visited, frontier;
    var d1 := Plus1(b.D(current));
    for i := 0 to |ns|
      invariant frontier' == frontier + Discovered(b, ns[..i], visited)
      invariant forall q :: q in visited' <==> q in visited || q in Discovered(b, ns[..i], visited)
      invariant ForestInv(b, start, visited') && RecordsInv(b, start, end, visited', frontier', vs)
      invariant forall p :: b.InBounds(p) ==>
                  if p in visited' - visited
                  then b.D(p) == d1 && b.Prev(p) == Some(current)
                  else b.D(p) == old(b.D(p)) && b.Prev(p) == old(b.Prev(p))
    {
      DiscoveredStep(b, ns, i, visited);
      visited', frontier' := Consider(b, start, end, current, ns[i], d1, visited', frontier', vs);
    }
    assert ns[..|ns|] == ns;
  }

  lemma VisitedInGrid(b: Board, start: Pos, visited: set<Pos>)
    requires b.Valid() && ForestInv(b, start, visited)
    ensures visited <= AllCells(b.rows, b.cols)
  {
    forall q | q in visited ensures q in AllCells(b.rows, b.cols) {
      AllCellsMembership(b.rows, b.cols, q);
    }
  }

  /** The state before the first pop. */
  method Init(b: Board, start: Pos, end: Pos) returns (visited: set<Pos>, frontier: seq<Pos>)
    requires b.Valid() && b.InBounds(start) && b.NoPredecessors()
    modifies b.distance
    ensures Inv(b, start, end, visited, frontier, [])
    ensures visited == {start} && frontier == [start] && Dists(b, frontier) == [Fin(0)]
    ensures forall p :: b.InBounds(p) ==> b.D(p) == if p == start then Fin(0) else old(b.D(p))
  {
    frontier := [start];
    b.distance[start.row, start.col] := Fin(0);
    visited := {start};
  }

  /** Recording the popped cell `current`, unless it carries the start flag,
      keeps the records well formed. */
  lemma Record(b: Board, start: Pos, end: Pos, current: Pos, visited: set<Pos>, frontier: seq<Pos>,
               vs: seq<Visit>, vs': seq<Visit>)
    requires b.Valid() && Inv(b, start, end, visited, frontier, vs)
    requires current in visited && current !in frontier && current != end
    requires current == start || !b.Wall(current)
    requires forall v :: v in vs ==> VisitPos(v) != current
    requires vs' == vs + if b.StartFlag(current) then [] else [Visit(current.row, current.col, b.D(current))]
    ensures RecordsInv(b, start, end, visited, frontier, vs')
  {
    if b.StartFlag(current) {
      assert vs' == vs;
    } else {
      DistinctAppend(vs, Visit(current.row, current.col, b.D(current)));
    }
  }

  /** What the pops so far have done: a visited cell that has left the
      frontier has had every passable neighbour visited, and the end, once
      visited, waits in the frontier until it is popped. */
  ghost predicate Progress(b: Board, end: Pos, visited: set<Pos>, frontier: seq<Pos>)
  {
    && (end in visited ==> end in frontier)
    && forall p, q :: p in visited && p !in frontier && Adjacent(p, q) && Passable(b.walls, q) ==> q in visited
  }

  /** Popping a cell other than the end out of the frontier and expanding
      it keeps Progress: its passable neighbours are now all visited. */
  lemma ProgressStep(b: Board, end: Pos, current: Pos, ns: seq<Pos>, visited: set<Pos>,
                     unpopped: seq<Pos>, rest: seq<Pos>, visited': set<Pos>)
    requires b.Valid() && forall q :: q in ns <==> b.InBounds(q) && Adjacent(current, q)
    requires Progress(b, end, visited, unpopped)
    requires current in visited && current != end
    requires forall q :: q in rest <==> q in unpopped && q != current
    requires forall q :: q in visited' <==> q in visited || q in Discovered(b, ns, visited)
    ensures Progress(b, end, visited', rest + Discovered(b, ns, visited))
  {
    DiscoveredMembers(b, ns, visited);
  }

  /** When the frontier runs out, the visited cells are closed under steps
      and the end is not among them. */
  lemma ProgressExhausted(b: Board, end: Pos, visited: set<Pos>)
    requires Progress(b, end, visited, [])
    ensures StepClosed(b.walls, visited) && end !in visited
  {
  }

  /** Every visited cell that has left the frontier has been recorded,
      unless it carries the start flag. */
  ghost predicate Covered(b: Board, visited: set<Pos>, frontier: seq<Pos>, vs: seq<Visit>)
    requires b.Valid()
  {
    forall q :: q in visited && q !in frontier && b.InBounds(q) && !b.StartFlag(q) ==> q in RecordedCells(vs)
  }

  /** Popping `current` out of `unpopped` and recording it keeps Covered,
      whatever is then discovered. */
  lemma CoveredStep(b: Board, current: Pos, d: Dist, visited: set<Pos>, unpopped: seq<Pos>, frontier: seq<Pos>,
                    vs: seq<Visit>, added: seq<Pos>, visited': set<Pos>)
    requires b.Valid() && Covered(b, visited, unpopped, vs) && b.InBounds(current)
    requires forall q :: q in frontier <==> q in unpopped && q != current
    requires forall q :: q in visited' <==> q in visited || q in added
    ensures Covered(b, visited', frontier + added,
                    vs + if b.StartFlag(current) then [] else [Visit(current.row, current.col, d)])
  {
    var vs' := vs + if b.StartFlag(current) then [] else [Visit(current.row, current.col, d)];
    forall q | q in visited' && q !in frontier + added && b.InBounds(q) && !b.StartFlag(q)
      ensures q in RecordedCells(vs')
    {
      if q != current {
        var v :| v in vs && VisitPos(v) == q;
        assert v in vs';
      } else {
        assert vs'[|vs'| - 1] in vs';
      }
    }
  }

  /** `dist` gives every visited cell a finite distance, zero for `start`. */
  ghost predicate DistKeys(dist: map<Pos, Dist>, start: Pos, visited: set<Pos>)
  {
    && start in dist && dist[start] == Fin(0)
    && forall p :: p in visited ==> p in dist && dist[p].Fin?
  }

  /** The distances `dist` gives the cells of `q`, in order. */
  ghost function MapDists(dist: map<Pos, Dist>, q: seq<Pos>): (ds: seq<Dist>)
    requires forall p :: p in q ==> p in dist
    ensures |ds| == |q| && forall i :: 0 <= i < |q| ==> ds[i] == dist[q[i]]
  {
    seq(|q|, i requires 0 <= i < |q| => dist[q[i]])
  }

  /** Extending `dist` by cells new to it appends their common distance. */
  lemma MapDistsExtend(dist: map<Pos, Dist>, q: seq<Pos>, added: seq<Pos>, d: Dist)
    requires forall p :: p in q ==> p in dist && p !in added
    ensures forall p :: p in q + added ==> p in Extend(dist, added, d)
    ensures MapDists(Extend(dist, added, d), q + added) == MapDists(dist, q) + Repeat(d, |added|)
  {
    var e := Extend(dist, added, d);
    assert forall p :: p in q + added ==> p in e;
    var l := MapDists(e, q + added);
    var r := MapDists(dist, q) + Repeat(d, |added|);
    forall i | 0 <= i < |l| ensures l[i] == r[i] {
      if i < |q| {
        assert (q + added)[i] == q[i];
      } else {
        assert (q + added)[i] == added[i - |q|] && added[i - |q|] in added;
      }
    }
  }

  /** `dist` with every cell of `added` at distance `d`. */
  ghost function Extend(dist: map<Pos, Dist>, added: seq<Pos>, d: Dist): (r: map<Pos, Dist>)
    ensures forall p :: p in r <==> p in dist || p in added
    ensures forall p :: p in r ==> r[p] == if p in added then d else dist[p]
  {
    dist + map p | p in added :: d
  }

  /** Breadth-first distances, as `dist` gives them: a visited cell that has
      left the queue is no further than any queued cell, and none of its
      visited neighbours is more than one step further than it. */
  ghost predicate Tight(dist: map<Pos, Dist>, visited: set<Pos>, queue: seq<Pos>)
  {
    && (forall p, q :: p in visited && p !in queue && q in queue && p in dist && q in dist ==>
          AtMost(dist[p], dist[q]))
    && (forall p, q :: p in visited && p !in queue && q in visited && Adjacent(p, q) && p in dist && q in dist ==>
          AtMost(dist[q], Plus1(dist[p])))
  }

  /** Popping the head `current` at distance `d` off a layered queue and
      pushing its new neighbours at `d + 1` keeps Tight, DistKeys and the
      queue's distance list. */
  lemma TightStep(b: Board, dist: map<Pos, Dist>, start: Pos, end: Pos, current: Pos, d: nat, visited: set<Pos>,
                  unpopped: seq<Pos>, queue: seq<Pos>, added: seq<Pos>, visited': set<Pos>)
    requires b.Valid() && Tight(dist, visited, unpopped) && Progress(b, end, visited, unpopped)
    requires DistKeys(dist, start, visited) && start in visited && forall q :: q in unpopped ==> q in visited
    requires current in unpopped && dist[current] == Fin(d)
    requires forall q :: q in queue <==> q in unpopped && q != current
    requires forall q :: q in queue ==> dist[q].Fin? && d <= dist[q].n <= d + 1
    requires forall q :: q in added ==> q !in visited && b.InBounds(q) && !b.Wall(q)
    requires forall q :: q in visited' <==> q in visited || q in added
    ensures DistKeys(Extend(dist, added, Fin(d + 1)), start, visited')
    ensures Tight(Extend(dist, added, Fin(d + 1)), visited', queue + added)
    ensures forall p :: p in queue + added ==> p in Extend(dist, added, Fin(d + 1))
    ensures MapDists(Extend(dist, added, Fin(d + 1)), queue + added) == MapDists(dist, queue) + Repeat(Fin(d + 1), |added|)
  {
    MapDistsExtend(dist, queue, added, Fin(d + 1));
    var v := Extend(dist, added, Fin(d + 1));
    var queue' := queue + added;
    forall p, q | p in visited' && p !in queue' && q in queue' && p in v && q in v
      ensures AtMost(v[p], v[q])
    {
      assert p in visited && p !in queue && p !in added;
      if p != current {
        assert AtMost(dist[p], dist[current]);
        if q in queue {
          assert q in visited && AtMost(dist[p], dist[q]);
        }
      }
    }
    forall p, q | p in visited' && p !in queue' && q in visited' && Adjacent(p, q) && p in v && q in v
      ensures AtMost(v[q], Plus1(v[p]))
    {
      assert p in visited && p !in queue && p !in added;
      if p == current {
        if q in visited && q !in queue {
          assert q != current;
          assert AtMost(dist[q], dist[current]);
        }
      } else if q in added {
        assert false;
      }
    }
  }

  /** Walking a route from a cell whose distance is at most its index: the
      queued end is no further than the route's last index. */
  lemma {:induction false} RouteNoShorter(b: Board, dist: map<Pos, Dist>, end: Pos, visited: set<Pos>,
                                          queue: seq<Pos>, route: seq<Pos>, i: nat)
    requires b.Valid() && Tight(dist, visited, queue) && Progress(b, end, visited, queue)
    requires forall q :: q in visited ==> q in dist && dist[q].Fin?
    requires end in queue && end in visited && forall q :: q in queue ==> q in visited && AtMost(dist[end], dist[q])
    requires IsRoute(b.walls, route) && route[|route| - 1] == end && i < |route|
    requires route[i] in visited && dist[route[i]].n <= i
    ensures end in dist && dist[end].Fin? && dist[end].n <= |route| - 1
    decreases |route| - i
  {
    if route[i] !in queue {
      var q := route[i + 1];
      assert Adjacent(route[i], q) && Passable(b.walls, q);
      assert q in visited;
      assert AtMost(dist[q], Plus1(dist[route[i]]));
      RouteNoShorter(b, dist, end, visited, queue, route, i + 1);
    }
  }

  /** When breadth-first search pops the end, no route from `start` reaches
      it in fewer steps than its distance. */
  lemma BfsShortest(b: Board, start: Pos, end: Pos, visited: set<Pos>, queue: seq<Pos>, dist: map<Pos, Dist>)
    requires b.Valid() && ForestInv(b, start, visited) && FrontierInv(b, start, visited, queue)
    requires DistKeys(dist, start, visited) && Dists(b, queue) == MapDists(dist, queue)
    requires Tight(dist, visited, queue) && Progress(b, end, visited, queue)
    requires queue != [] && queue[0] == end && Layered(Dists(b, queue))
    ensures NoShorterRoute(b, start, end)
  {
    LayeredCells(b, queue);
    DistsIndex(b, queue);
    forall q | q in queue ensures AtMost(dist[end], dist[q]) {
      var j :| 0 <= j < |queue| && queue[j] == q;
      assert Dists(b, queue)[j] == MapDists(dist, queue)[j];
    }
    assert Dists(b, queue)[0] == MapDists(dist, queue)[0];
    forall route | IsRoute(b.walls, route) && route[0] == start && route[|route| - 1] == end
      ensures b.D(end).n <= |route| - 1
    {
      RouteNoShorter(b, dist, end, visited, queue, route, 0);
    }
  }

  /** One expansion (lib/algorithms.ts:97-114): record the popped cell
      unless it carries the start flag, list its neighbours up, right, down,
      left, and discover them; `unpopped` is the frontier before the pop.
      Every discovered cell is visited and pushed, one step further than
      `current` and linked to it, and Progress is kept. */
  method Expand(b: Board, start: Pos, end: Pos, current: Pos,
                visited: set<Pos>, frontier: seq<Pos>, vs: seq<Visit>, ghost unpopped: seq<Pos>)
    returns (visited': set<Pos>, frontier': seq<Pos>, vs': seq<Visit>, ns: seq<Pos>, ghost added: seq<Pos>)
    requires b.Valid() && Inv(b, start, end, visited, frontier, vs)
    requires current in visited && current !in frontier && current != end
    requires current == start || !b.Wall(current)
    requires forall v :: v in vs ==> VisitPos(v) != current
    requires Progress(b, end, visited, unpopped) && forall q :: q in frontier <==> q in unpopped && q != current
    requires Covered(b, visited, unpopped, vs)
    modifies b.distance, b.prev
    ensures Inv(b, start, end, visited', frontier', vs')
    ensures Progress(b, end, visited', frontier') && Covered(b, visited', frontier', vs')
    ensures vs' == vs + if b.StartFlag(current) then []
                        else [Visit(current.row, current.col, old(b.D(current)))]
    ensures forall q :: q in ns <==> b.InBounds(q) && Adjacent(current, q)
    ensures forall i, j :: 0 <= i < j < |ns| ==> Rank(current, ns[i]) < Rank(current, ns[j])
    ensures added == Discovered(b, ns, visited)
    ensures forall q :: q in visited' <==> q in visited || q in added
    ensures visited <= visited' <= AllCells(b.rows, b.cols)
    ensures frontier' == frontier + added
    ensures visited' == visited ==> added == []
    ensures forall q :: q in added ==>
              && q !in visited && b.InBounds(q) && !b.Wall(q)
              && b.D(q) == Plus1(old(b.D(current))) && b.Prev(q) == Some(current)
    ensures forall p :: p in visited ==> b.InBounds(p) && b.D(p) == old(b.D(p))
    ensures forall p :: b.InBounds(p) && p !in added ==> b.D(p) == old(b.D(p)) && b.Prev(p) == old(b.Prev(p))
  {
    vs' := vs;
    if !b.StartFlag(current) {
      vs' := vs' + [Visit(current.row, current.col, b.D(current))];
    }
    Record(b, start, end, current, visited, frontier, vs, vs');
    ns := GetNeighbors(b.rows, b.cols, current);
    added := Discovered(b, ns, visited);
    DiscoveredMembers(b, ns, visited);
    visited', frontier' := Discover(b, start, end, current, ns, visited, frontier, vs');
    assert forall q :: q in added ==> q !in frontier;
    NoDupConcat(frontier, added);
    assert FrontierInv(b, start, visited', frontier');
    VisitedInGrid(b, start, visited');
    if added != [] {
      assert added[0] in visited' && added[0] !in visited;
    }
    ProgressStep(b, end, current, ns, visited, unpopped, frontier, visited');
    CoveredStep(b, current, old(b.D(current)), visited, unpopped, frontier, vs, added, visited');
  }

  /** What the bookkeeping gives the caller when a search stops. */
  lemma InvOutcome(b: Board, start: Pos, end: Pos, visited: set<Pos>, frontier: seq<Pos>, vs: seq<Visit>)
    requires b.Valid() && Inv(b, start, end, visited, frontier, vs)
    ensures Rooted(b, start) && PredecessorsDescend(b)
    ensures VisitsWellFormed(b, end, vs) && VisitsDistinct(vs)
    ensures forall v :: v in vs ==> VisitPos(v) == start || !b.Wall(VisitPos(v))
    ensures end in visited ==> b.InBounds(end) && (end == start || b.Prev(end).Some?)
  {
    RootedDescends(b, start);
  }

  /** The end of a search: the path read from the predecessor links when the
      end coordinate was popped, none otherwise, and the records. */
  method Finish(b: Board, start: Pos, end: Pos, found: bool, ghost visited: set<Pos>, ghost frontier: seq<Pos>,
                vs: seq<Visit>)
    returns (res: AlgorithmResult, ghost reached: bool)
    requires b.Valid() && Inv(b, start, end, visited, frontier, vs)
    requires found ==> end in visited
    requires !found ==> StepClosed(b.walls, visited) && end !in visited
    requires !found ==> frontier == [] && Covered(b, visited, frontier, vs)
    ensures reached == found
    ensures Rooted(b, start) && PredecessorsDescend(b) && LinksAvoidWalls(b)
    ensures reached <==> b.InBounds(end) && (end == start || b.Prev(end).Some?)
    ensures reached <==> Connected(b.walls, start, end)
    ensures reached ==> res.path == ChainPath(b, end)
    ensures !reached ==> res.path == []
    ensures res.visitedInOrder == vs
    ensures VisitsWellFormed(b, end, res.visitedInOrder) && VisitsDistinct(res.visitedInOrder)
    ensures forall v :: v in res.visitedInOrder ==> VisitPos(v) == start || !b.Wall(VisitPos(v))
    ensures !reached ==> forall p :: p in RecordedCells(res.visitedInOrder) <==>
                           b.InBounds(p) && Connected(b.walls, start, p) && !b.StartFlag(p)
  {
    InvOutcome(b, start, end, visited, frontier, vs);
    if found {
      LinkedConnected(b, start, end);
    } else {
      if Connected(b.walls, start, end) {
        ClosedHoldsConnected(b.walls, visited, start, end);
      }
      forall q ensures q in RecordedCells(vs) <==> q in visited && b.InBounds(q) && !b.StartFlag(q) {
        if q in RecordedCells(vs) {
          var v :| v in vs && VisitPos(v) == q;
        }
      }
      RecordsCoverConnected(b, start, visited, vs);
    }
    var path := [];
    if found {
      path := ReconstructPath(b, end);
    }
    res, reached := AlgorithmResult(vs, path), found;
  }

  /** Taking the cell at index `i` out of the frontier keeps the bookkeeping,
      and the taken cell meets what Expand asks of it. */
  lemma InvPop(b: Board, start: Pos, end: Pos, visited: set<Pos>, frontier: seq<Pos>, vs: seq<Visit>, i: nat)
    requires b.Valid() && Inv(b, start, end, visited, frontier, vs) && i < |frontier|
    ensures Inv(b, start, end, visited, frontier[..i] + frontier[i + 1..], vs)
    ensures frontier[i] in visited && frontier[i] !in frontier[..i] + frontier[i + 1..]
    ensures frontier[i] == start || !b.Wall(frontier[i])
    ensures forall v :: v in vs ==> VisitPos(v) != frontier[i]
    ensures forall q :: q in frontier[..i] + frontier[i + 1..] <==> q in frontier && q != frontier[i]
  {
    RemoveAt(frontier, i);
  }

  /** Taking `current` out of the frontier in any order, leaving `rest`,
      keeps the bookkeeping, and `current` meets what Expand asks of it. */
  lemma InvTake(b: Board, start: Pos, end: Pos, visited: set<Pos>, frontier: seq<Pos>, vs: seq<Visit>,
                current: Pos, rest: seq<Pos>)
    requires b.Valid() && Inv(b, start, end, visited, frontier, vs)
    requires multiset(rest) + multiset{current} == multiset(frontier) && NoDup([current] + rest)
    ensures Inv(b, start, end, visited, rest, vs)
    ensures current in visited && current !in rest
    ensures current == start || !b.Wall(current)
    ensures forall v :: v in vs ==> VisitPos(v) != current
    ensures forall q :: q in rest <==> q in frontier && q != current
  {
    assert NoDup(rest) by {
      forall j, k | 0 <= j < k < |rest| ensures rest[j] != rest[k] {
        assert rest[j] == ([current] + rest)[j + 1] && rest[k] == ([current] + rest)[k + 1];
      }
    }
    assert current !in rest by {
      forall j | 0 <= j < |rest| ensures rest[j] != current {
        assert ([current] + rest)[0] == current && rest[j] == ([current] + rest)[j + 1];
      }
    }
    assert current in multiset(frontier);
    forall q ensures q in rest <==> q in frontier && q != current {
      assert q in rest <==> q in multiset(rest);
      assert q in frontier <==> q in multiset(frontier);
    }
  }

  /** The breadth-first expansion of a popped cell: what Expand promises,
      and on top of it the queue stays layered and the records stay
      ordered. */
  method ExpandLayered(b: Board, start: Pos, end: Pos, current: Pos,
                       visited: set<Pos>, queue: seq<Pos>, vs: seq<Visit>, ghost unpopped: seq<Pos>)
    returns (visited': set<Pos>, queue': seq<Pos>, vs': seq<Visit>, ns: seq<Pos>, ghost added: seq<Pos>)
    requires b.Valid() && Inv(b, start, end, visited, queue, vs)
    requires current in visited && current !in queue && current != end
    requires current == start || !b.Wall(current)
    requires forall v :: v in vs ==> VisitPos(v) != current
    requires Layered([b.D(current)] + Dists(b, queue))
    requires NonDecreasing(vs) && (vs != [] ==> AtMost(vs[|vs| - 1].distance, b.D(current)))
    requires Progress(b, end, visited, unpopped) && forall q :: q in queue <==> q in unpopped && q != current
    requires Covered(b, visited, unpopped, vs)
    modifies b.distance, b.prev
    ensures Inv(b, start, end, visited', queue', vs')
    ensures Progress(b, end, visited', queue') && Covered(b, visited', queue', vs')
    ensures vs' == vs + if b.StartFlag(current) then []
                        else [Visit(current.row, current.col, old(b.D(current)))]
    ensures Layered(Dists(b, queue'))
    ensures Dists(b, queue') == old(Dists(b, queue)) + Repeat(Plus1(old(b.D(current))), |added|)
    ensures NonDecreasing(vs')
    ensures queue' != [] && vs' != [] ==> AtMost(vs'[|vs'| - 1].distance, Dists(b, queue')[0])
    ensures forall q :: q in ns <==> b.InBounds(q) && Adjacent(current, q)
    ensures forall i, j :: 0 <= i < j < |ns| ==> Rank(current, ns[i]) < Rank(current, ns[j])
    ensures added == Discovered(b, ns, visited)
    ensures forall q :: q in visited' <==> q in visited || q in added
    ensures visited <= visited' <= AllCells(b.rows, b.cols)
    ensures queue' == queue + added
    ensures visited' == visited ==> added == []
    ensures forall q :: q in added ==>
              && q !in visited && b.InBounds(q) && !b.Wall(q)
              && b.D(q) == Plus1(old(b.D(current))) && b.Prev(q) == Some(current)
    ensures forall p :: b.InBounds(p) && p !in added ==> b.D(p) == old(b.D(p)) && b.Prev(p) == old(b.Prev(p))
  {
    ghost var ds := [b.D(current)] + Dists(b, queue);
    ghost var d0 := b.D(current).n;
    ghost var d1 := Plus1(b.D(current));
    assert d1 == Fin(d0 + 1);
    DistsIndex(b, queue);
    visited', queue', vs', ns, added := Expand(b, start, end, current, visited, queue, vs, unpopped);
    forall i | 0 <= i < |queue| ensures b.D(queue[i]) == ds[i + 1] {
      assert queue[i] in visited;
    }
    LayeredStep(b, ds, d0, queue, added, vs, vs', Visit(current.row, current.col, Fin(d0)));
    assert ds[1..] == old(Dists(b, queue));
  }

  /** The layered bookkeeping after an expansion, once the queue's old
      distances `ds[1..]` are known to stand: the queue with the new cells
      at `d0 + 1` is layered, and the records stay ordered and no further
      than its head. */
  lemma LayeredStep(b: Board, ds: seq<Dist>, d0: nat, queue: seq<Pos>, added: seq<Pos>,
                    vs: seq<Visit>, vs': seq<Visit>, record: Visit)
    requires b.Valid() && Layered(ds) && |ds| == |queue| + 1 && ds[0] == Fin(d0)
    requires forall i :: 0 <= i < |queue| ==> b.InBounds(queue[i]) && b.D(queue[i]) == ds[i + 1]
    requires forall p :: p in added ==> b.InBounds(p) && b.D(p) == Fin(d0 + 1)
    requires NonDecreasing(vs) && (vs != [] ==> AtMost(vs[|vs| - 1].distance, Fin(d0)))
    requires record.distance == Fin(d0) && (vs' == vs || vs' == vs + [record])
    ensures forall p :: p in queue + added ==> b.InBounds(p)
    ensures forall p :: p in queue ==> b.D(p).Fin? && d0 <= b.D(p).n <= d0 + 1
    ensures Dists(b, queue + added) == ds[1..] + Repeat(Fin(d0 + 1), |added|)
    ensures Layered(Dists(b, queue + added))
    ensures NonDecreasing(vs')
    ensures queue + added != [] && vs' != [] ==> AtMost(vs'[|vs'| - 1].distance, Dists(b, queue + added)[0])
  {
    LayeredBand(ds, d0);
    forall p | p in queue ensures b.D(p).Fin? && d0 <= b.D(p).n <= d0 + 1 {
      var j :| 0 <= j < |queue| && queue[j] == p;
      assert b.D(queue[j]) == ds[j + 1];
    }
    DistsAppend(b, queue, ds[1..], added, Fin(d0 + 1));
    var next := ds[1..] + Repeat(Fin(d0 + 1), |added|);
    LayeredPopPush(ds, d0, |added|);
    RecordStep(vs, vs', record);
    if queue + added != [] && vs' != [] {
      assert next[0] in next;
    }
  }

  /** The breadth-first bookkeeping: on top of Inv, the queue is layered and
      the records are ordered and no further than the head of the queue. */
  ghost predicate LayeredInv(b: Board, start: Pos, end: Pos, visited: set<Pos>, queue: seq<Pos>, vs: seq<Visit>)
    requires b.Valid()
    reads b.prev, b.distance
  {
    && Inv(b, start, end, visited, queue, vs)
    && Layered(Dists(b, queue))
    && NonDecreasing(vs)
    && (queue != [] && vs != [] ==> AtMost(vs[|vs| - 1].distance, Dists(b, queue)[0]))
  }

  /** The breadth-first loop invariant: the layered bookkeeping, Progress,
      Covered, and Tight. */
  ghost predicate BfsInv(b: Board, start: Pos, end: Pos, visited: set<Pos>, queue: seq<Pos>, vs: seq<Visit>,
                         dist: map<Pos, Dist>)
    requires b.Valid()
    reads b.prev, b.distance
  {
    && LayeredInv(b, start, end, visited, queue, vs)
    && Progress(b, end, visited, queue) && Covered(b, visited, queue, vs)
    && DistKeys(dist, start, visited) && Dists(b, queue) == MapDists(dist, queue)
    && Tight(dist, visited, queue)
  }

  /** The head and the rest of a layered queue whose distances `dist`
      mirrors. */
  lemma QueueDists(b: Board, dist: map<Pos, Dist>, queue: seq<Pos>)
    requires b.Valid() && queue != [] && forall p :: p in queue ==> b.InBounds(p) && p in dist
    requires Layered(Dists(b, queue)) && Dists(b, queue) == MapDists(dist, queue)
    ensures b.D(queue[0]).Fin? && dist[queue[0]] == b.D(queue[0])
    ensures Layered([b.D(queue[0])] + Dists(b, queue[1..]))
    ensures Dists(b, queue[1..]) == MapDists(dist, queue[1..])
    ensures forall q :: q in queue[1..] ==> dist[q].Fin? && b.D(queue[0]).n <= dist[q].n <= b.D(queue[0]).n + 1
  {
    LayeredCells(b, queue);
    DistsIndex(b, queue);
    assert Dists(b, queue) == [b.D(queue[0])] + Dists(b, queue[1..]);
    assert Dists(b, queue)[0] == MapDists(dist, queue)[0];
    forall q | q in queue[1..] ensures dist[q] == b.D(q) {
      var j :| 0 <= j < |queue[1..]| && queue[1..][j] == q;
      assert Dists(b, queue)[j + 1] == MapDists(dist, queue)[j + 1];
    }
    assert MapDists(dist, queue)[1..] == MapDists(dist, queue[1..]);
  }

  /** What the head of a breadth-first queue and the rest of the queue
      meet once the head is shifted off. */
  lemma BreadthPop(b: Board, start: Pos, end: Pos, visited: set<Pos>, queue: seq<Pos>, vs: seq<Visit>,
                   dist: map<Pos, Dist>)
    requires b.Valid() && BfsInv(b, start, end, visited, queue, vs, dist) && queue != []
    ensures Inv(b, start, end, visited, queue[1..], vs)
    ensures queue[0] in visited && queue[0] !in queue[1..] && (queue[0] == start || !b.Wall(queue[0]))
    ensures forall v :: v in vs ==> VisitPos(v) != queue[0]
    ensures forall q :: q in queue[1..] <==> q in queue && q != queue[0]
    ensures b.D(queue[0]).Fin? && dist[queue[0]] == b.D(queue[0])
    ensures Layered([b.D(queue[0])] + Dists(b, queue[1..]))
    ensures Dists(b, queue[1..]) == MapDists(dist, queue[1..])
    ensures forall q :: q in queue[1..] ==> q in dist && dist[q].Fin? && b.D(queue[0]).n <= dist[q].n <= b.D(queue[0]).n + 1
    ensures NonDecreasing(vs) && (vs != [] ==> AtMost(vs[|vs| - 1].distance, b.D(queue[0])))
  {
    InvPop(b, start, end, visited, queue, vs, 0);
    assert queue[..0] + queue[1..] == queue[1..];
    QueueDists(b, dist, queue);
  }

  /** One turn of the breadth-first loop whose head is not the end: shift
      the head off the queue and expand it (lib/algorithms.ts:86-114).
      `dist` follows the distances of the visited cells. */
  method BreadthStep(b: Board, start: Pos, end: Pos, visited: set<Pos>, queue: seq<Pos>, vs: seq<Visit>,
                     ghost dist: map<Pos, Dist>)
    returns (visited': set<Pos>, queue': seq<Pos>, vs': seq<Visit>, ghost added: seq<Pos>, ghost dist': map<Pos, Dist>)
    requires b.Valid() && BfsInv(b, start, end, visited, queue, vs, dist)
    requires queue != [] && queue[0] != end
    modifies b.distance, b.prev
    ensures BfsInv(b, start, end, visited', queue', vs', dist')
    ensures vs' == vs + if b.StartFlag(queue[0]) then []
                        else [Visit(queue[0].row, queue[0].col, old(b.D(queue[0])))]
    ensures queue' == queue[1..] + added
    ensures visited <= visited' <= AllCells(b.rows, b.cols)
    ensures visited' == visited ==> added == []
  {
    var current := queue[0];
    var rest := queue[1..];
    BreadthPop(b, start, end, visited, queue, vs, dist);
    ghost var d0 := b.D(current).n;
    assert Plus1(b.D(current)) == Fin(d0 + 1);
    var ns;
    visited', queue', vs', ns, added := ExpandLayered(b, start, end, current, visited, rest, vs, queue);
    TightStep(b, dist, start, end, current, d0, visited, queue, rest, added, visited');
    dist' := Extend(dist, added, Fin(d0 + 1));
  }

  /** Breadth-first search: FIFO queue (lib/algorithms.ts:75-118). */
  method Bfs(b: Board, start: Pos, end: Pos) returns (res: AlgorithmResult, ghost reached: bool)
    requires b.Valid() && b.InBounds(start) && b.NoPredecessors()
    modifies b.distance, b.prev
    ensures Rooted(b, start) && PredecessorsDescend(b) && LinksAvoidWalls(b)
    ensures reached <==> b.InBounds(end) && (end == start || b.Prev(end).Some?)
    ensures reached <==> Connected(b.walls, start, end)
    ensures reached ==> res.path == ChainPath(b, end)
    ensures !reached ==> res.path == []
    ensures VisitsWellFormed(b, end, res.visitedInOrder) && VisitsDistinct(res.visitedInOrder)
    ensures forall v :: v in res.visitedInOrder ==> VisitPos(v) == start || !b.Wall(VisitPos(v))
    ensures NonDecreasing(res.visitedInOrder)
    ensures !reached ==> forall p :: p in RecordedCells(res.visitedInOrder) <==>
                           b.InBounds(p) && Connected(b.walls, start, p) && !b.StartFlag(p)
    ensures reached ==> NoShorterRoute(b, start, end)
  {
    var visitedInOrder: seq<Visit> := [];
    var visited, queue := Init(b, start, end);
    ghost var dist := map[start := Fin(0)];
    var found := false;
    while queue != []
      invariant BfsInv(b, start, end, visited, queue, visitedInOrder, dist) && !found
      decreases |AllCells(b.rows, b.cols) - visited|, |queue|
    {
      if queue[0] == end {
        BfsShortest(b, start, end, visited, queue, dist);
        found := true;
        break;
      }
      ghost var oldVisited := visited;
      ghost var added;
      visited, queue, visitedInOrder, added, dist := BreadthStep(b, start, end, visited, queue, visitedInOrder, dist);
      RemainderShrinks(AllCells(b.rows, b.cols), oldVisited, visited);
    }
    if !found {
      ProgressExhausted(b, end, visited);
    }
    res, reached := Finish(b, start, end, found, visited, queue, visitedInOrder);
  }

  /** Depth-first search: LIFO stack (lib/algorithms.ts:120-163). */
  method Dfs(b: Board, start: Pos, end: Pos) returns (res: AlgorithmResult, ghost reached: bool)
    requires b.Valid() && b.InBounds(start) && b.NoPredecessors()
    modifies b.distance, b.prev
    ensures Rooted(b, start) && PredecessorsDescend(b) && LinksAvoidWalls(b)
    ensures reached <==> b.InBounds(end) && (end == start || b.Prev(end).Some?)
    ensures reached <==> Connected(b.walls, start, end)
    ensures reached ==> res.path == ChainPath(b, end)
    ensures !reached ==> res.path == []
    ensures VisitsWellFormed(b, end, res.visitedInOrder) && VisitsDistinct(res.visitedInOrder)
    ensures forall v :: v in res.visitedInOrder ==> VisitPos(v) == start || !b.Wall(VisitPos(v))
    ensures !reached ==> forall p :: p in RecordedCells(res.visitedInOrder) <==>
                           b.InBounds(p) && Connected(b.walls, start, p) && !b.StartFlag(p)
  {
    var visitedInOrder: seq<Visit> := [];
    var visited, stack := Init(b, start, end);
    var found := false;
    while stack != []
      invariant Inv(b, start, end, visited, stack, visitedInOrder) && !found
      invariant Progress(b, end, visited, stack) && Covered(b, visited, stack, visitedInOrder)
      decreases |AllCells(b.rows, b.cols) - visited|, |stack|
    {
      ghost var unpopped := stack;
      var current := stack[|stack| - 1];
      stack := stack[..|stack| - 1];
      InvPop(b, start, end, visited, unpopped, visitedInOrder, |unpopped| - 1);
      assert unpopped[..|unpopped| - 1] + unpopped[|unpopped|..] == stack;
      if current == end {
        found := true;
        break;
      }
      ghost var oldVisited := visited;
      ghost var added;
      var ns;
      visited, stack, visitedInOrder, ns, added := Expand(b, start, end, current, visited, stack, visitedInOrder, unpopped);
      RemainderShrinks(AllCells(b.rows, b.cols), oldVisited, visited);
    }
    if !found {
      ProgressExhausted(b, end, visited);
    }
    res, reached := Finish(b, start, end, found, visited, stack, visitedInOrder);
  }

  /** The greedy open-list order: Manhattan distance to the end. */
  function HeuristicKey(end: Pos): Pos -> Dist
  {
    p => Fin(ManhattanDistance(p, end))
  }

  /** The pop of lib/algorithms.ts:297-302: sort the open list by the
      heuristic and shift its head off. The head is the first cell of the
      open list with the least Manhattan distance to the end. */
  method PopNearest(b: Board, start: Pos, end: Pos, visited: set<Pos>, openSet: seq<Pos>, vs: seq<Visit>)
    returns (current: Pos, rest: seq<Pos>)
    requires b.Valid() && Inv(b, start, end, visited, openSet, vs) && openSet != []
    ensures Inv(b, start, end, visited, rest, vs)
    ensures current in openSet && forall q :: q in openSet ==> ManhattanDistance(current, end) <= ManhattanDistance(q, end)
    ensures forall j :: 0 <= j < |openSet| && openSet[j] == current ==>
              forall i :: 0 <= i < j ==> ManhattanDistance(current, end) < ManhattanDistance(openSet[i], end)
    ensures rest == StableSort.SortBy(openSet, HeuristicKey(end))[1..]
    ensures current in visited && current !in rest && |rest| < |openSet|
    ensures forall q :: q in rest <==> q in openSet && q != current
    ensures current == start || !b.Wall(current)
    ensures forall v :: v in vs ==> VisitPos(v) != current
  {
    ghost var i;
    current, rest, i := StableSort.SortAndShift(openSet, HeuristicKey(end));
    InvTake(b, start, end, visited, openSet, vs, current, rest);
    forall j | 0 <= j < |openSet| && openSet[j] == current
      ensures forall i :: 0 <= i < j ==> ManhattanDistance(current, end) < ManhattanDistance(openSet[i], end)
    {
      assert j == i;
    }
  }

  /** Greedy best-first search: the open list is sorted by the Manhattan
      distance to the end before every pop (lib/algorithms.ts:283-332). */
  method Greedy(b: Board, start: Pos, end: Pos) returns (res: AlgorithmResult, ghost reached: bool)
    requires b.Valid() && b.InBounds(start) && b.NoPredecessors()
    modifies b.distance, b.prev
    ensures Rooted(b, start) && PredecessorsDescend(b) && LinksAvoidWalls(b)
    ensures reached <==> b.InBounds(end) && (end == start || b.Prev(end).Some?)
    ensures reached <==> Connected(b.walls, start, end)
    ensures reached ==> res.path == ChainPath(b, end)
    ensures !reached ==> res.path == []
    ensures VisitsWellFormed(b, end, res.visitedInOrder) && VisitsDistinct(res.visitedInOrder)
    ensures forall v :: v in res.visitedInOrder ==> VisitPos(v) == start || !b.Wall(VisitPos(v))
    ensures !reached ==> forall p :: p in RecordedCells(res.visitedInOrder) <==>
                           b.InBounds(p) && Connected(b.walls, start, p) && !b.StartFlag(p)
  {
    var visitedInOrder: seq<Visit> := [];
    var visited, openSet := Init(b, start, end);
    var found := false;
    while openSet != []
      invariant Inv(b, start, end, visited, openSet, visitedInOrder) && !found
      invariant Progress(b, end, visited, openSet) && Covered(b, visited, openSet, visitedInOrder)
      decreases |AllCells(b.rows, b.cols) - visited|, |openSet|
    {
      ghost var unpopped := openSet;
      var current;
      current, openSet := PopNearest(b, start, end, visited, openSet, visitedInOrder);
      if current == end {
        found := true;
        break;
      }
      ghost var oldVisited := visited;
      ghost var added;
      var ns;
      visited, openSet, visitedInOrder, ns, added := Expand(b, start, end, current, visited, openSet, visitedInOrder, unpopped);
      RemainderShrinks(AllCells(b.rows, b.cols), oldVisited, visited);
    }
    if !found {
      ProgressExhausted(b, end, visited);
    }
    res, reached := Finish(b, start, end, found, visited, openSet, visitedInOrder);
  }
}
