/** The in-place `sort` the searches call on their open lists
    (lib/algorithms.ts:186, 237-241, 297-301). JavaScript's
    Array.prototype.sort is stable, and every comparator used there is a
    consistent total preorder, so its result is the unique stable ordering by
    key; a stable insertion sort computes exactly that ordering. */
module StableSort {
  import opened Types

  /** The comparator reading: `a` goes after `b` unless `Compare` is negative. */
  predicate Sorted(s: seq<Pos>, key: Pos -> Dist)
  {
    forall i, j :: 0 <= i < j < |s| ==> AtMost(key(s[i]), key(s[j]))
  }

  /** Puts `x` after every element of `s` whose key is not greater than its own. */
  function Insert(x: Pos, s: seq<Pos>, key: Pos -> Dist): seq<Pos>
  {
    if s == [] then [x]
    else if Compare(key(x), key(s[0])) < 0 then [x] + s
    else [s[0]] + Insert(x, s[1..], key)
  }

  /** Insertion sort, inserting the elements from first to last. */
  function SortBy(s: seq<Pos>, key: Pos -> Dist): seq<Pos>
  {
    if s == [] then [] else Insert(s[|s| - 1], SortBy(s[..|s| - 1], key), key)
  }

  /** The elements of `s` whose key is `k`, in their order in `s`. */
  function KeyClass(s: seq<Pos>, key: Pos -> Dist, k: Dist): seq<Pos>
  {
    if s == [] then []
    else (if key(s[0]) == k then [s[0]] else []) + KeyClass(s[1..], key, k)
  }

  lemma {:induction false} KeyClassConcat(a: seq<Pos>, b: seq<Pos>, key: Pos -> Dist, k: Dist)
    ensures KeyClass(a + b, key, k) == KeyClass(a, key, k) + KeyClass(b, key, k)
  {
    if a == [] {
      assert a + b == b;
    } else {
      var ab := a + b;
      var h := if key(a[0]) == k then [a[0]] else [];
      assert ab[0] == a[0] && ab[1..] == a[1..] + b;
      KeyClassConcat(a[1..], b, key, k);
      assert KeyClass(ab, key, k) == h + (KeyClass(a[1..], key, k) + KeyClass(b, key, k));
      assert KeyClass(a, key, k) == h + KeyClass(a[1..], key, k);
    }
  }

  /** Inserting adds exactly the inserted element. */
  lemma {:induction false} InsertPermutes(x: Pos, s: seq<Pos>, key: Pos -> Dist)
    ensures multiset(Insert(x, s, key)) == multiset(s) + multiset{x}
  {
    if s != [] && Compare(key(x), key(s[0])) >= 0 {
      InsertPermutes(x, s[1..], key);
      assert s == [s[0]] + s[1..];
    }
  }

  /** Inserting into a list ordered by key keeps it ordered. */
  lemma {:induction false} InsertKeepsSorted(x: Pos, s: seq<Pos>, key: Pos -> Dist)
    requires Sorted(s, key)
    ensures Sorted(Insert(x, s, key), key)
  {
    if s != [] && Compare(key(x), key(s[0])) >= 0 {
      var t := s[1..];
      InsertKeepsSorted(x, t, key);
      InsertPermutes(x, t, key);
      var r := Insert(x, t, key);
      forall j | 0 <= j < |r|
        ensures AtMost(key(s[0]), key(r[j]))
      {
        assert r[j] in multiset(r);
        assert r[j] == x || r[j] in t;
      }
    }
  }

  lemma {:induction false} SortByPermutes(s: seq<Pos>, key: Pos -> Dist)
    ensures multiset(SortBy(s, key)) == multiset(s)
  {
    if s != [] {
      var init, last := s[..|s| - 1], s[|s| - 1];
      SortByPermutes(init, key);
      InsertPermutes(last, SortBy(init, key), key);
      assert s == init + [last];
    }
  }

  lemma {:induction false} SortBySorted(s: seq<Pos>, key: Pos -> Dist)
    ensures Sorted(SortBy(s, key), key)
  {
    if s != [] {
      var init := s[..|s| - 1];
      SortBySorted(init, key);
      InsertKeepsSorted(s[|s| - 1], SortBy(init, key), key);
    }
  }

  /** The result is ordered by key and is a permutation of the input. */
  lemma SortByIsSortedPermutation(s: seq<Pos>, key: Pos -> Dist)
    ensures Sorted(SortBy(s, key), key)
    ensures multiset(SortBy(s, key)) == multiset(s)
    ensures |SortBy(s, key)| == |s|
  {
    SortBySorted(s, key);
    SortByPermutes(s, key);
    assert |multiset(SortBy(s, key))| == |SortBy(s, key)|;
  }

  lemma {:induction false} NoneOfKeyBelowHead(s: seq<Pos>, key: Pos -> Dist, k: Dist)
    requires Sorted(s, key)
    requires s != [] ==> Less(k, key(s[0]))
    ensures KeyClass(s, key, k) == []
  {
    if s != [] {
      if |s| > 1 {
        assert AtMost(key(s[0]), key(s[1]));
      }
      NoneOfKeyBelowHead(s[1..], key, k);
    }
  }

  /** Inserting into an ordered list places the element after every element
      of its own key. */
  lemma {:induction false} InsertKeyClass(x: Pos, s: seq<Pos>, key: Pos -> Dist, k: Dist)
    requires Sorted(s, key)
    ensures KeyClass(Insert(x, s, key), key, k)
            == KeyClass(s, key, k) + (if key(x) == k then [x] else [])
  {
    if s == [] {
    } else if Compare(key(x), key(s[0])) < 0 {
      assert Insert(x, s, key) == [x] + s;
      assert Insert(x, s, key)[1..] == s;
      if key(x) == k {
        NoneOfKeyBelowHead(s, key, k);
      }
    } else {
      InsertKeyClass(x, s[1..], key, k);
      assert Insert(x, s, key)[1..] == Insert(x, s[1..], key);
    }
  }

  /** Stability: the elements that share a key keep their relative order. */
  lemma {:induction false} SortByIsStable(s: seq<Pos>, key: Pos -> Dist, k: Dist)
    ensures KeyClass(SortBy(s, key), key, k) == KeyClass(s, key, k)
  {
    if s != [] {
      var init, last := s[..|s| - 1], s[|s| - 1];
      SortByIsStable(init, key, k);
      SortByIsSortedPermutation(init, key);
      InsertKeyClass(last, SortBy(init, key), key, k);
      assert s == init + [last];
      KeyClassConcat(init, [last], key, k);
      assert KeyClass([last], key, k) == (if key(last) == k then [last] else []) by {
        assert [last][1..] == [];
      }
    }
  }

  lemma InsertHead(x: Pos, t: seq<Pos>, key: Pos -> Dist)
    ensures Insert(x, t, key) != []
    ensures Insert(x, t, key)[0]
            == if t == [] || Compare(key(x), key(t[0])) < 0 then x else t[0]
  {
  }

  /** The first index of `s` holding a least key. */
  predicate IsFirstMinimum(s: seq<Pos>, key: Pos -> Dist, i: nat)
  {
    && i < |s|
    && (forall j :: 0 <= j < |s| ==> AtMost(key(s[i]), key(s[j])))
    && (forall j :: 0 <= j < i ==> Less(key(s[i]), key(s[j])))
  }

  /** The head of the sorted list is the first element of `s` with the least
      key: sorting and taking the head is "first minimum wins". */
  lemma {:induction false} SortByHeadIsFirstMinimum(s: seq<Pos>, key: Pos -> Dist) returns (i: nat)
    requires s != []
    ensures IsFirstMinimum(s, key, i) && SortBy(s, key)[0] == s[i]
  {
    var init, last := s[..|s| - 1], s[|s| - 1];
    if init == [] {
      i := 0;
      assert SortBy(s, key) == [last];
    } else {
      var t := SortBy(init, key);
      var i0 := SortByHeadIsFirstMinimum(init, key);
      assert t[0] == init[i0];
      InsertHead(last, t, key);
      assert forall j :: 0 <= j < |init| ==> s[j] == init[j];
      if Compare(key(last), key(t[0])) < 0 {
        i := |s| - 1;
      } else {
        i := i0;
      }
    }
  }

  lemma {:induction false} InsertNoDup(x: Pos, s: seq<Pos>, key: Pos -> Dist)
    requires NoDup(s) && x !in s
    ensures NoDup(Insert(x, s, key))
  {
    if s != [] && Compare(key(x), key(s[0])) >= 0 {
      InsertNoDup(x, s[1..], key);
      InsertPermutes(x, s[1..], key);
      var r := Insert(x, s[1..], key);
      forall j | 0 <= j < |r| ensures r[j] != s[0] {
        assert r[j] in multiset(r);
      }
    }
  }

  /** Sorting a list without repeats gives a list without repeats. */
  lemma {:induction false} SortByNoDup(s: seq<Pos>, key: Pos -> Dist)
    requires NoDup(s)
    ensures NoDup(SortBy(s, key))
  {
    if s != [] {
      var init := s[..|s| - 1];
      SortByNoDup(init, key);
      SortByIsSortedPermutation(init, key);
      assert s[|s| - 1] !in multiset(SortBy(init, key));
      InsertNoDup(s[|s| - 1], SortBy(init, key), key);
    }
  }

  /** `sort` followed by `shift`: the head taken is the first element of `s`
      with a least key, and no element of `s` has a smaller key; the rest is
      the sorted remainder, holding the other elements once each. */
  method SortAndShift(s: seq<Pos>, key: Pos -> Dist) returns (head: Pos, rest: seq<Pos>, ghost i: nat)
    requires s != []
    ensures IsFirstMinimum(s, key, i) && head == s[i]
    ensures forall x :: x in s ==> AtMost(key(head), key(x))
    ensures rest == SortBy(s, key)[1..] && Sorted(rest, key)
    ensures multiset(rest) + multiset{head} == multiset(s) && |rest| == |s| - 1
    ensures NoDup(s) ==> NoDup([head] + rest)
  {
    var sorted := SortBy(s, key);
    SortByIsSortedPermutation(s, key);
    i := SortByHeadIsFirstMinimum(s, key);
    head := sorted[0];
    rest := sorted[1..];
    assert sorted == [head] + rest;
    assert Sorted(rest, key) by {
      forall j, k | 0 <= j < k < |rest| ensures AtMost(key(rest[j]), key(rest[k])) {
        assert rest[j] == sorted[j + 1] && rest[k] == sorted[k + 1];
      }
    }
    if NoDup(s) {
      SortByNoDup(s, key);
    }
  }
}
