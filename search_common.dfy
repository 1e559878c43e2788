/** What every search promises about its `visitedInOrder` list, and the
    counting fact that bounds every search loop. */
module SearchCommon {
  import opened Types
  import opened Grid
  import opened Paths

  /** Each record names an in-bounds cell that is neither flagged as the start
      nor the end coordinate, and carries that cell's final, finite distance. */
  ghost predicate VisitsWellFormed(b: Board, end: Pos, vs: seq<Visit>)
    requires b.Valid()
    reads b.distance
  {
    forall v :: v in vs ==>
      && b.InBounds(VisitPos(v))
      && !b.StartFlag(VisitPos(v))
      && VisitPos(v) != end
      && v.distance.Fin?
      && v.distance == b.D(VisitPos(v))
  }

  /** The cells the records name. */
  function RecordedCells(vs: seq<Visit>): set<Pos>
  {
    set v | v in vs :: VisitPos(v)
  }

  /** When the cells a search has reached are closed under steps, hold
      `start`, and are linked to it, and the records name exactly the
      reached cells without the start flag, then the records name exactly
      the cells connected to `start` that do not carry the start flag. */
  lemma RecordsCoverConnected(b: Board, start: Pos, reached: set<Pos>, vs: seq<Visit>)
    requires b.Valid() && Rooted(b, start) && LinksAvoidWalls(b)
    requires start in reached && StepClosed(b.walls, reached)
    requires forall q :: q in reached ==> b.InBounds(q) && (q == start || b.Prev(q).Some?)
    requires forall q :: q in RecordedCells(vs) <==> q in reached && b.InBounds(q) && !b.StartFlag(q)
    ensures forall p :: p in RecordedCells(vs) <==> b.InBounds(p) && Connected(b.walls, start, p) && !b.StartFlag(p)
  {
    forall p ensures p in RecordedCells(vs) <==> b.InBounds(p) && Connected(b.walls, start, p) && !b.StartFlag(p) {
      if p in reached {
        LinkedConnected(b, start, p);
      }
      if b.InBounds(p) && Connected(b.walls, start, p) {
        ClosedHoldsConnected(b.walls, reached, start, p);
      }
    }
  }

  /** No cell is recorded twice. */
  predicate VisitsDistinct(vs: seq<Visit>)
  {
    forall i, j :: 0 <= i < j < |vs| ==> VisitPos(vs[i]) != VisitPos(vs[j])
  }

  /** Appending a record of a cell not yet recorded keeps the records distinct. */
  lemma DistinctAppend(vs: seq<Visit>, r: Visit)
    requires VisitsDistinct(vs) && forall x :: x in vs ==> VisitPos(x) != VisitPos(r)
    ensures VisitsDistinct(vs + [r])
  {
    var vs' := vs + [r];
    forall i, j | 0 <= i < j < |vs'| ensures VisitPos(vs'[i]) != VisitPos(vs'[j]) {
      assert vs'[i] == vs[i];
      if j < |vs| {
        assert vs'[j] == vs[j];
      } else {
        assert vs[i] in vs;
      }
    }
  }

  /** Recorded distances never go down. */
  predicate NonDecreasing(vs: seq<Visit>)
  {
    forall i, j :: 0 <= i < j < |vs| ==> AtMost(vs[i].distance, vs[j].distance)
  }

  lemma NonDecreasingAppend(vs: seq<Visit>, v: Visit)
    requires NonDecreasing(vs)
    requires vs != [] ==> AtMost(vs[|vs| - 1].distance, v.distance)
    ensures NonDecreasing(vs + [v])
  {
    var vs' := vs + [v];
    forall i, j | 0 <= i < j < |vs'| ensures AtMost(vs'[i].distance, vs'[j].distance) {
      if j == |vs| && i < |vs| - 1 {
        assert AtMost(vs[i].distance, vs[|vs| - 1].distance);
      }
    }
  }

  /** Appending a record no smaller than the last one, or appending nothing,
      keeps the records ordered and leaves the newest at most `v`'s distance. */
  lemma RecordStep(vs: seq<Visit>, vs': seq<Visit>, v: Visit)
    requires NonDecreasing(vs)
    requires vs' == vs || vs' == vs + [v]
    requires vs != [] ==> AtMost(vs[|vs| - 1].distance, v.distance)
    ensures NonDecreasing(vs')
    ensures vs' != [] ==> AtMost(vs'[|vs'| - 1].distance, v.distance)
  {
    if vs' != vs {
      NonDecreasingAppend(vs, v);
    }
  }

  lemma NoDupConcat(a: seq<Pos>, b: seq<Pos>)
    requires NoDup(a) && NoDup(b)
    requires forall q :: q in b ==> q !in a
    ensures NoDup(a + b)
  {
    forall i, j | 0 <= i < j < |a + b| ensures (a + b)[i] != (a + b)[j] {
      if j >= |a| && i < |a| {
        assert (a + b)[j] == b[j - |a|];
        assert (a + b)[j] in b;
      }
    }
  }

  /** Removing the element at index `i` of a list without repeats leaves the
      others, once each, and not that element. */
  lemma RemoveAt(s: seq<Pos>, i: nat)
    requires NoDup(s) && i < |s|
    ensures NoDup(s[..i] + s[i + 1..])
    ensures forall q :: q in s[..i] + s[i + 1..] <==> q in s && q != s[i]
  {
    var rest := s[..i] + s[i + 1..];
    forall j, k | 0 <= j < k < |rest| ensures rest[j] != rest[k] {
      var j' := if j < i then j else j + 1;
      var k' := if k < i then k else k + 1;
      assert rest[j] == s[j'] && rest[k] == s[k'];
    }
    forall q ensures q in rest <==> q in s && q != s[i] {
      if q in rest {
        var j :| 0 <= j < |rest| && rest[j] == q;
        var j' := if j < i then j else j + 1;
        assert rest[j] == s[j'];
      }
      if q in s && q != s[i] {
        var j :| 0 <= j < |s| && s[j] == q;
        if j < i { assert rest[j] == q; } else { assert rest[j - 1] == q; }
      }
    }
  }

  lemma SubsetCard(a: set<Pos>, b: set<Pos>)
    requires a <= b
    ensures |a| <= |b|
    ensures a != b ==> |a| < |b|
  {
    assert b == a + (b - a);
    if a != b {
      var x :| x in b && x !in a;
      assert x in b - a;
    }
  }

  /** Marking more cells of the grid leaves fewer unmarked ones. */
  lemma RemainderShrinks(all: set<Pos>, marked: set<Pos>, marked': set<Pos>)
    requires marked <= marked' <= all
    ensures |all - marked'| <= |all - marked|
    ensures marked' != marked ==> |all - marked'| < |all - marked|
  {
    SubsetCard(all - marked', all - marked);
    if marked' != marked {
      var x :| x in marked' && x !in marked;
      assert x in all - marked && x !in all - marked';
    }
  }

  /** The distances of the cells of an open list, in list order. */
  ghost function Dists(b: Board, q: seq<Pos>): (ds: seq<Dist>)
    requires b.Valid() && forall p :: p in q ==> b.InBounds(p)
    reads b.distance
    ensures |ds| == |q|
  {
    if q == [] then [] else [b.D(q[0])] + Dists(b, q[1..])
  }

  lemma {:induction false} DistsIndex(b: Board, q: seq<Pos>)
    requires b.Valid() && forall p :: p in q ==> b.InBounds(p)
    ensures forall i :: 0 <= i < |q| ==> Dists(b, q)[i] == b.D(q[i])
  {
    if q != [] {
      DistsIndex(b, q[1..]);
    }
  }

  /** `k` copies of `d`. */
  function Repeat(d: Dist, k: nat): (r: seq<Dist>)
    ensures |r| == k && forall i :: 0 <= i < k ==> r[i] == d
  {
    seq(k, _ => d)
  }

  /** Cells whose distances are known keep them when the list grows by cells
      of one common distance. */
  lemma DistsAppend(b: Board, q: seq<Pos>, ds: seq<Dist>, added: seq<Pos>, k: Dist)
    requires b.Valid() && |ds| == |q|
    requires forall i :: 0 <= i < |q| ==> b.InBounds(q[i]) && b.D(q[i]) == ds[i]
    requires forall p :: p in added ==> b.InBounds(p) && b.D(p) == k
    ensures forall p :: p in q + added ==> b.InBounds(p)
    ensures Dists(b, q + added) == ds + Repeat(k, |added|)
  {
    var all := q + added;
    forall p | p in all ensures b.InBounds(p) {
      if p in q {
        var i :| 0 <= i < |q| && q[i] == p;
      }
    }
    DistsIndex(b, all);
    forall i | 0 <= i < |all| ensures Dists(b, all)[i] == (ds + Repeat(k, |added|))[i] {
      if i >= |q| {
        assert all[i] == added[i - |q|];
      }
    }
  }

  /** A breadth-first queue: finite distances, ordered, spanning at most two
      consecutive values. */
  predicate Layered(ds: seq<Dist>)
  {
    && (forall i :: 0 <= i < |ds| ==> ds[i].Fin?)
    && (forall i, j :: 0 <= i < j < |ds| ==> ds[i].n <= ds[j].n)
    && (ds != [] ==> ds[|ds| - 1].n <= ds[0].n + 1)
  }

  /** Every distance in a layered list that starts at `d` is `d` or `d + 1`. */
  lemma LayeredBand(ds: seq<Dist>, d: nat)
    requires Layered(ds) && ds != [] && ds[0] == Fin(d)
    ensures forall i :: 0 <= i < |ds| ==> ds[i].Fin? && d <= ds[i].n <= d + 1
  {
    forall i | 0 < i < |ds| ensures ds[i].n <= d + 1 {
      assert ds[i].n <= ds[|ds| - 1].n;
    }
  }

  /** The cells of a layered list are no nearer than its head and at most
      one step further. */
  lemma LayeredCells(b: Board, q: seq<Pos>)
    requires b.Valid() && (forall p :: p in q ==> b.InBounds(p)) && q != [] && Layered(Dists(b, q))
    ensures b.D(q[0]).Fin?
    ensures forall p :: p in q ==> b.D(p).Fin? && b.D(q[0]).n <= b.D(p).n <= b.D(q[0]).n + 1
  {
    var ds := Dists(b, q);
    DistsIndex(b, q);
    LayeredBand(ds, ds[0].n);
    forall p | p in q ensures b.D(p).Fin? && ds[0].n <= b.D(p).n <= ds[0].n + 1 {
      var j :| 0 <= j < |q| && q[j] == p;
      assert ds[j] == b.D(p);
    }
  }

  /** Popping the head at distance `d` and pushing cells at `d + 1` keeps the
      queue layered, and nothing left in it is below `d`. */
  lemma LayeredPopPush(ds: seq<Dist>, d: nat, k: nat)
    requires Layered(ds) && ds != [] && ds[0] == Fin(d)
    ensures Layered(ds[1..] + Repeat(Fin(d + 1), k))
    ensures forall x :: x in ds[1..] + Repeat(Fin(d + 1), k) ==> x.Fin? && d <= x.n
  {
    var es := ds[1..] + Repeat(Fin(d + 1), k);
    assert forall i :: 0 <= i < |es| ==> es[i].Fin? && d <= es[i].n <= d + 1 by {
      forall i | 0 <= i < |es| ensures es[i].Fin? && d <= es[i].n <= d + 1 {
        if i < |ds| - 1 {
          assert es[i] == ds[i + 1];
          assert ds[0].n <= ds[i + 1].n <= ds[|ds| - 1].n;
        }
      }
    }
    forall i, j | 0 <= i < j < |es| ensures es[i].n <= es[j].n {
      if j < |ds| - 1 {
        assert es[i] == ds[i + 1] && es[j] == ds[j + 1];
      }
    }
  }

  /** What `sort` followed by `shift` leaves: `rest` holds the other elements
      of `s`, once each. */
  lemma TakeMembers(s: seq<Pos>, head: Pos, rest: seq<Pos>)
    requires multiset(rest) + multiset{head} == multiset(s) && NoDup([head] + rest)
    ensures head in s && head !in rest && NoDup(rest)
    ensures forall q :: q in rest <==> q in s && q != head
  {
    var all := [head] + rest;
    assert NoDup(rest) by {
      forall j, k | 0 <= j < k < |rest| ensures rest[j] != rest[k] {
        assert rest[j] == all[j + 1] && rest[k] == all[k + 1];
      }
    }
    assert head !in rest by {
      forall j | 0 <= j < |rest| ensures rest[j] != head {
        assert all[0] == head && rest[j] == all[j + 1];
      }
    }
    assert head in multiset(s);
    forall q ensures q in rest <==> q in s && q != head {
      assert q in rest <==> q in multiset(rest);
      assert q in s <==> q in multiset(s);
    }
  }

  /** The distance and predecessor of every cell, as a value. Cells outside
      the grid read as unreached. */
  datatype View = View(dist: imap<Pos, Dist>, prev: imap<Pos, Option<Pos>>)

  ghost predicate Total(v: View)
  {
    forall p :: p in v.dist && p in v.prev
  }

  /** `v` holds the board's distances and predecessors. */
  ghost predicate Mirrors(b: Board, v: View)
    requires b.Valid()
    reads b.distance, b.prev
  {
    && Total(v)
    && forall p :: b.InBounds(p) ==> v.dist[p] == b.D(p) && v.prev[p] == b.Prev(p)
  }

  /** Writes distance `d` and predecessor `pred` into cell `p`; the board
      then mirrors the snapshot `v` with that one cell changed. */
  method SetCell(b: Board, p: Pos, d: Dist, pred: Option<Pos>, ghost v: View)
    requires b.Valid() && b.InBounds(p) && Mirrors(b, v)
    modifies b.distance, b.prev
    ensures Mirrors(b, View(v.dist[p := d], v.prev[p := pred]))
    ensures b.D(p) == d && b.Prev(p) == pred
  {
    b.distance[p.row, p.col] := d;
    b.prev[p.row, p.col] := pred;
  }

  /** Holds of every position. It is the range of the total imaps below, so
      that their comprehensions have a term for the verifier to trigger on. */
  ghost predicate AnyPos(p: Pos)
  {
    true
  }

  /** The board's distances and predecessors as they stand. */
  ghost function ViewOf(b: Board): (v: View)
    requires b.Valid()
    reads b.distance, b.prev
    ensures Mirrors(b, v)
  {
    View(imap p | AnyPos(p) :: if b.InBounds(p) then b.D(p) else Inf,
         imap p | AnyPos(p) :: if b.InBounds(p) then b.Prev(p) else None)
  }
}
