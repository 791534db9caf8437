/** The two standard-library operations the traversal applies to its frontier on every round:
    `Vec::sort_by` (a stable sort under a caller-supplied comparator) and `Vec::reverse`. */
module Sorting {
  import opened Common

  /** Puts `x` in front of the first element of `s` it is not greater than, so that `x`
      stays ahead of every element it ties with. */
  function Insert(x: nat, s: seq<nat>, cmp: (nat, nat) -> Ordering): (r: seq<nat>)
    ensures |r| == |s| + 1
    ensures multiset(r) == multiset(s) + multiset{x}
  {
    if s == [] then [x]
    else if cmp(x, s[0]) != Greater then [x] + s
    else
      assert s == [s[0]] + s[1..];
      [s[0]] + Insert(x, s[1..], cmp)
  }

  /** Stable sort by `cmp`, written as an insertion sort. Under a total preorder every stable
      sort returns the same sequence, so this is the sequence `Vec::sort_by` produces. */
  function StableSort(s: seq<nat>, cmp: (nat, nat) -> Ordering): (r: seq<nat>)
    ensures |r| == |s|
    ensures multiset(r) == multiset(s)
  {
    if s == [] then []
    else
      assert s == [s[0]] + s[1..];
      Insert(s[0], StableSort(s[1..], cmp), cmp)
  }

  ghost predicate SortedBy(s: seq<nat>, cmp: (nat, nat) -> Ordering)
  {
    forall i, j :: 0 <= i < j < |s| ==> cmp(s[i], s[j]) != Greater
  }

  /** `b` is not greater than any element of `s`. */
  ghost predicate Above(b: nat, s: seq<nat>, cmp: (nat, nat) -> Ordering)
  {
    forall k :: 0 <= k < |s| ==> cmp(b, s[k]) != Greater
  }

  /** Putting in front of a sorted sequence an element not greater than any of it keeps it
      sorted. */
  lemma ConsSorted(b: nat, t: seq<nat>, cmp: (nat, nat) -> Ordering)
    requires SortedBy(t, cmp) && Above(b, t, cmp)
    ensures SortedBy([b] + t, cmp)
  {
    var r := [b] + t;
    forall i, j | 0 <= i < j < |r| ensures cmp(r[i], r[j]) != Greater {
      assert r[j] == t[j - 1];
      if i > 0 {
        assert r[i] == t[i - 1];
      }
    }
  }

  /** Inserting an element not below `b` keeps every element not below `b`. */
  lemma {:induction false} InsertAbove(b: nat, x: nat, s: seq<nat>, cmp: (nat, nat) -> Ordering)
    requires Above(b, s, cmp) && cmp(b, x) != Greater
    ensures Above(b, Insert(x, s, cmp), cmp)
  {
    var r := Insert(x, s, cmp);
    if s == [] {
    } else if cmp(x, s[0]) != Greater {
      forall k | 0 < k < |r| ensures cmp(b, r[k]) != Greater {
        assert r[k] == s[k - 1];
      }
    } else {
      var tail := Insert(x, s[1..], cmp);
      InsertAbove(b, x, s[1..], cmp);
      forall k | 0 < k < |r| ensures cmp(b, r[k]) != Greater {
        assert r[k] == tail[k - 1];
      }
    }
  }

  /** Inserting into a sorted sequence keeps it sorted. */
  lemma {:induction false} InsertSorted(x: nat, s: seq<nat>, cmp: (nat, nat) -> Ordering)
    requires TotalPreorder(cmp) && SortedBy(s, cmp)
    ensures SortedBy(Insert(x, s, cmp), cmp)
  {
    if s == [] {
    } else if cmp(x, s[0]) != Greater {
      forall k | 0 <= k < |s| ensures cmp(x, s[k]) != Greater {
        if k > 0 {
          assert cmp(s[0], s[k]) != Greater;
        }
      }
      ConsSorted(x, s, cmp);
    } else {
      InsertSorted(x, s[1..], cmp);
      assert cmp(s[0], x) != Greater;
      forall k | 0 <= k < |s[1..]| ensures cmp(s[0], s[1..][k]) != Greater {
        assert s[1..][k] == s[k + 1];
      }
      InsertAbove(s[0], x, s[1..], cmp);
      ConsSorted(s[0], Insert(x, s[1..], cmp), cmp);
    }
  }

  /** The sort's result is ordered by the comparator. */
  lemma {:induction false} StableSortSorted(s: seq<nat>, cmp: (nat, nat) -> Ordering)
    requires TotalPreorder(cmp)
    ensures SortedBy(StableSort(s, cmp), cmp)
  {
    if s != [] {
      StableSortSorted(s[1..], cmp);
      InsertSorted(s[0], StableSort(s[1..], cmp), cmp);
    }
  }

  /** The first element of the sorted sequence is not greater than any element of the input. */
  lemma StableSortHeadIsLeast(s: seq<nat>, cmp: (nat, nat) -> Ordering)
    requires TotalPreorder(cmp) && s != []
    ensures forall y :: y in s ==> cmp(StableSort(s, cmp)[0], y) != Greater
  {
    var r := StableSort(s, cmp);
    StableSortSorted(s, cmp);
    forall y | y in s ensures cmp(r[0], y) != Greater {
      assert y in multiset(r);
      var k :| 0 <= k < |r| && r[k] == y;
      if k == 0 {
        assert cmp(y, y) != Greater;
      }
    }
  }

  /** The elements the comparator ranks equal to `y`. */
  function Ties(cmp: (nat, nat) -> Ordering, y: nat): nat -> bool
  {
    (x: nat) => cmp(x, y) == Equal
  }

  /** Insertion passes only over elements ranked strictly before `x`, so it puts `x` ahead of
      every element it ties with. */
  lemma {:induction false} InsertKeepsTies(x: nat, s: seq<nat>, cmp: (nat, nat) -> Ordering, y: nat)
    requires TotalPreorder(cmp)
    ensures Filter(Insert(x, s, cmp), Ties(cmp, y)) == Filter([x] + s, Ties(cmp, y))
  {
    if s != [] && cmp(x, s[0]) == Greater {
      var p := Ties(cmp, y);
      var t := s[1..];
      var ft := Filter(t, p);
      var fx: seq<nat> := if p(x) then [x] else [];
      var fz: seq<nat> := if p(s[0]) then [s[0]] else [];
      InsertKeepsTies(x, t, cmp, y);
      FilterCons(s[0], Insert(x, t, cmp), p);
      FilterCons(x, t, p);
      HeadTail(s);
      FilterCons(s[0], t, p);
      FilterCons(x, s, p);
      NotBothTie(x, s[0], cmp, y);
      assert fz + (fx + ft) == fx + (fz + ft) by {
        if fx == [] {
          assert fx + ft == ft && fx + (fz + ft) == fz + ft;
        } else {
          assert fz + (fx + ft) == fx + ft && fz + ft == ft;
        }
      }
    }
  }

  /** Two elements ranked strictly apart do not both tie with `y`. */
  lemma NotBothTie(x: nat, z: nat, cmp: (nat, nat) -> Ordering, y: nat)
    requires TotalPreorder(cmp) && cmp(x, z) == Greater
    ensures !(Ties(cmp, y)(x) && Ties(cmp, y)(z))
  {
  }

  /** Stability: the elements tying with any `y` keep their input order. */
  lemma {:induction false} StableSortStable(s: seq<nat>, cmp: (nat, nat) -> Ordering, y: nat)
    requires TotalPreorder(cmp)
    ensures Filter(StableSort(s, cmp), Ties(cmp, y)) == Filter(s, Ties(cmp, y))
  {
    if s != [] {
      var p := Ties(cmp, y);
      StableSortStable(s[1..], cmp, y);
      InsertKeepsTies(s[0], StableSort(s[1..], cmp), cmp, y);
      FilterCons(s[0], StableSort(s[1..], cmp), p);
      FilterCons(s[0], s[1..], p);
      assert s == [s[0]] + s[1..];
    }
  }

  /** A stable sort's result is determined: any ordered permutation of `s` that keeps every tie
      class in input order is `StableSort(s, cmp)`, so it is also what `Vec::sort_by` returns. */
  lemma StableSortUnique(s: seq<nat>, r: seq<nat>, cmp: (nat, nat) -> Ordering)
    requires TotalPreorder(cmp) && SortedBy(r, cmp) && multiset(r) == multiset(s)
    requires forall y :: Filter(r, Ties(cmp, y)) == Filter(s, Ties(cmp, y))
    ensures r == StableSort(s, cmp)
  {
    var q := StableSort(s, cmp);
    StableSortSorted(s, cmp);
    forall y ensures Filter(r, Ties(cmp, y)) == Filter(q, Ties(cmp, y)) {
      StableSortStable(s, cmp, y);
    }
    SortedTiesEqual(r, q, cmp);
  }

  /** Two ordered sequences with the same elements and the same tie classes, in the same
      orders, are equal. */
  lemma {:induction false} SortedTiesEqual(a: seq<nat>, b: seq<nat>, cmp: (nat, nat) -> Ordering)
    requires TotalPreorder(cmp) && SortedBy(a, cmp) && SortedBy(b, cmp) && multiset(a) == multiset(b)
    requires forall y :: Filter(a, Ties(cmp, y)) == Filter(b, Ties(cmp, y))
    ensures a == b
    decreases |a|
  {
    if a != [] {
      assert |b| == |multiset(b)| == |multiset(a)| == |a|;
      var y := a[0];
      LeastTies(a, b, cmp);
      assert a[0] == b[0] by {
        var p := Ties(cmp, y);
        FilterCons(a[0], a[1..], p);
        FilterCons(b[0], b[1..], p);
        assert a == [a[0]] + a[1..] && b == [b[0]] + b[1..];
        assert p(a[0]) && p(b[0]);
        assert Filter(a, p)[0] == a[0] && Filter(b, p)[0] == b[0];
      }
      TailTies(a, b, cmp);
      SortedTail(a, cmp);
      SortedTail(b, cmp);
      SortedTiesEqual(a[1..], b[1..], cmp);
    }
  }

  /** The heads of two ordered sequences over the same elements tie. */
  lemma LeastTies(a: seq<nat>, b: seq<nat>, cmp: (nat, nat) -> Ordering)
    requires TotalPreorder(cmp) && SortedBy(a, cmp) && SortedBy(b, cmp) && multiset(a) == multiset(b)
    requires a != [] && b != []
    ensures cmp(a[0], b[0]) == Equal && cmp(b[0], a[0]) == Equal
  {
    assert a[0] in multiset(b) && b[0] in multiset(a);
    var i :| 0 <= i < |b| && b[i] == a[0];
    var j :| 0 <= j < |a| && a[j] == b[0];
    if i > 0 { assert cmp(b[0], b[i]) != Greater; } else { assert cmp(b[0], b[0]) != Greater; }
    if j > 0 { assert cmp(a[0], a[j]) != Greater; } else { assert cmp(a[0], a[0]) != Greater; }
  }

  /** Dropping equal heads keeps the elements and the tie classes equal. */
  lemma TailTies(a: seq<nat>, b: seq<nat>, cmp: (nat, nat) -> Ordering)
    requires a != [] && b != [] && a[0] == b[0] && multiset(a) == multiset(b)
    requires forall y :: Filter(a, Ties(cmp, y)) == Filter(b, Ties(cmp, y))
    ensures multiset(a[1..]) == multiset(b[1..])
    ensures forall y :: Filter(a[1..], Ties(cmp, y)) == Filter(b[1..], Ties(cmp, y))
  {
    assert a == [a[0]] + a[1..] && b == [b[0]] + b[1..];
    assert multiset(a[1..]) == multiset(a) - multiset{a[0]};
    forall y ensures Filter(a[1..], Ties(cmp, y)) == Filter(b[1..], Ties(cmp, y)) {
      DropHead(a, b, Ties(cmp, y));
    }
  }

  /** Two sequences with the same head and the same filter have the same filtered tails. */
  lemma DropHead(a: seq<nat>, b: seq<nat>, p: nat -> bool)
    requires a != [] && b != [] && a[0] == b[0] && Filter(a, p) == Filter(b, p)
    ensures Filter(a[1..], p) == Filter(b[1..], p)
  {
    var fa, fb := Filter(a[1..], p), Filter(b[1..], p);
    if p(a[0]) {
      assert Filter(a, p) == [a[0]] + fa && Filter(b, p) == [a[0]] + fb;
      assert fa == ([a[0]] + fa)[1..];
    } else {
      assert Filter(a, p) == [] + fa && Filter(b, p) == [] + fb;
      assert fa == [] + fa;
    }
  }

  lemma SortedTail(a: seq<nat>, cmp: (nat, nat) -> Ordering)
    requires a != [] && SortedBy(a, cmp)
    ensures SortedBy(a[1..], cmp)
  {
    forall i, j | 0 <= i < j < |a[1..]| ensures cmp(a[1..][i], a[1..][j]) != Greater {
      assert a[1..][i] == a[i + 1] && a[1..][j] == a[j + 1];
    }
  }

  /** `Vec::reverse`. */
  function Reverse(s: seq<nat>): (r: seq<nat>)
    ensures |r| == |s|
    ensures forall k :: 0 <= k < |s| ==> r[k] == s[|s| - 1 - k]
    ensures multiset(r) == multiset(s)
  {
    if s == [] then []
    else
      assert s == [s[0]] + s[1..];
      Reverse(s[1..]) + [s[0]]
  }
}
