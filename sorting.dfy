/** Sorted-list primitives used throughout the filter: Python's `bisect` module and the
    `find_lt`, `find_gt`, `find_le`, `index` lookups built on it. The lookups' own module is
    not part of this model; they are specified here by how the filter uses them.

    Every function is generic over the strict order `less` the list is kept in (the source
    overloads `<` on quotes by strike and on slices by expiry). Positions are computed by a
    linear scan for the first element that is not below (resp. above) the key, which is
    exactly what the binary searches of `bisect` return on a list sorted by `less`. */
module Sorting {

  /** `s` is non-decreasing with respect to `less`: no later element is below an earlier one. */
  ghost predicate SortedBy<T>(s: seq<T>, less: (T, T) -> bool) {
    forall i, j :: 0 <= i < j < |s| ==> !less(s[j], s[i])
  }

  /** `s` is strictly increasing with respect to `less`. */
  ghost predicate StrictlySortedBy<T>(s: seq<T>, less: (T, T) -> bool) {
    forall i, j :: 0 <= i < j < |s| ==> less(s[i], s[j])
  }

  /** `less` behaves as a strict weak order on the elements of `s`: irreflexive, transitive,
      and its incomparability is transitive. */
  ghost predicate StrictWeakOrderOn<T>(s: seq<T>, less: (T, T) -> bool) {
    forall i, j, k :: 0 <= i < |s| && 0 <= j < |s| && 0 <= k < |s| ==> OrderedTriple(s[i], s[j], s[k], less)
  }

  /** The strict-weak-order laws for one triple of elements. */
  ghost predicate OrderedTriple<T>(a: T, b: T, c: T, less: (T, T) -> bool) {
    && !less(a, a)
    && (less(a, b) && less(b, c) ==> less(a, c))
    && (less(a, c) ==> less(a, b) || less(b, c))
  }

  /** `bisect.bisect_left`: the first position whose element is not below `x`. */
  function BisectLeft<T>(s: seq<T>, x: T, less: (T, T) -> bool): (i: nat)
    ensures i <= |s|
    ensures forall j :: 0 <= j < i ==> less(s[j], x)
    ensures i < |s| ==> !less(s[i], x)
    decreases |s|
  {
    if |s| == 0 || !less(s[0], x) then 0 else 1 + BisectLeft(s[1..], x, less)
  }

  /** `bisect.bisect_right`: the first position whose element is above `x`. */
  function BisectRight<T>(s: seq<T>, x: T, less: (T, T) -> bool): (i: nat)
    ensures i <= |s|
    ensures forall j :: 0 <= j < i ==> !less(x, s[j])
    ensures i < |s| ==> less(x, s[i])
    decreases |s|
  {
    if |s| == 0 || less(x, s[0]) then 0 else 1 + BisectRight(s[1..], x, less)
  }

  /** `bisect.insort_left`: insert `x` before every element that is not below it. */
  function InsortLeft<T>(s: seq<T>, x: T, less: (T, T) -> bool): (r: seq<T>)
    ensures |r| == |s| + 1
    ensures multiset(r) == multiset(s) + multiset{x}
  {
    var i := BisectLeft(s, x, less);
    assert s == s[..i] + s[i..];
    s[..i] + [x] + s[i..]
  }

  /** `bisect.insort_right`: insert `x` after every element that is not above it. This is the
      step of the stable sort below. */
  function InsortRight<T>(s: seq<T>, x: T, less: (T, T) -> bool): (r: seq<T>)
    ensures |r| == |s| + 1
    ensures multiset(r) == multiset(s) + multiset{x}
  {
    var i := BisectRight(s, x, less);
    assert s == s[..i] + s[i..];
    s[..i] + [x] + s[i..]
  }

  /** Python's stable `list.sort(key=...)`: each element goes after the elements already placed
      that are not above it, so equal keys keep their order. */
  function InsertionSort<T>(s: seq<T>, less: (T, T) -> bool): (r: seq<T>)
    ensures |r| == |s|
    ensures multiset(r) == multiset(s)
  {
    if |s| == 0 then []
    else
      var init := s[..|s| - 1];
      assert s == init + [s[|s| - 1]];
      InsortRight(InsertionSort(init, less), s[|s| - 1], less)
  }

  /** `find_lt`: position of the rightmost element below `x`; -1 stands for the ValueError
      raised when there is none. */
  function FindLt<T>(s: seq<T>, x: T, less: (T, T) -> bool): (i: int)
    ensures -1 <= i < |s|
    ensures forall j :: 0 <= j <= i ==> less(s[j], x)
    ensures i + 1 < |s| ==> !less(s[i + 1], x)
  {
    BisectLeft(s, x, less) - 1
  }

  /** `find_gt`: position of the leftmost element above `x`, or -1 (ValueError). */
  function FindGt<T>(s: seq<T>, x: T, less: (T, T) -> bool): (i: int)
    ensures -1 <= i < |s|
    ensures i >= 0 ==> less(x, s[i]) && forall j :: 0 <= j < i ==> !less(x, s[j])
    ensures i == -1 ==> forall j :: 0 <= j < |s| ==> !less(x, s[j])
  {
    var b := BisectRight(s, x, less);
    if b < |s| then b else -1
  }

  /** `find_le`: position of the rightmost element not above `x`, or -1 (ValueError). */
  function FindLe<T>(s: seq<T>, x: T, less: (T, T) -> bool): (i: int)
    ensures -1 <= i < |s|
    ensures forall j :: 0 <= j <= i ==> !less(x, s[j])
    ensures i + 1 < |s| ==> less(x, s[i + 1])
  {
    BisectRight(s, x, less) - 1
  }

  /** `index`: position of the leftmost element equal to `x` (by the list's own `==`), or -1. */
  function Index<T>(s: seq<T>, x: T, less: (T, T) -> bool, eq: (T, T) -> bool): (i: int)
    ensures -1 <= i < |s|
    ensures i >= 0 ==> eq(s[i], x) && forall j :: 0 <= j < i ==> less(s[j], x)
    ensures i == -1 <==> (BisectLeft(s, x, less) == |s| || !eq(s[BisectLeft(s, x, less)], x))
  {
    var b := BisectLeft(s, x, less);
    if b < |s| && eq(s[b], x) then b else -1
  }

  /** On a sorted list whose `==` is incomparability under `less`, `index` reports -1
      exactly when no element equals `x`. */
  lemma IndexAbsent<T>(s: seq<T>, x: T, less: (T, T) -> bool, eq: (T, T) -> bool)
    requires SortedBy(s, less) && StrictWeakOrderOn(s + [x], less)
    requires forall j :: 0 <= j < |s| ==> (eq(s[j], x) <==> !less(s[j], x) && !less(x, s[j]))
    ensures Index(s, x, less, eq) == -1 <==> forall j :: 0 <= j < |s| ==> !eq(s[j], x)
  {
    var b := BisectLeft(s, x, less);
    if j :| 0 <= j < |s| && eq(s[j], x) {
      assert b <= j;
      var sx := s + [x];
      assert sx[|s|] == x && sx[j] == s[j] && sx[b] == s[b];
      assert OrderedTriple(x, s[j], s[b], less);
      assert !less(x, s[b]);
    }
  }

  /** Insertion keeps a sorted list sorted, and puts `x` after everything below it and before
      everything else: the "insert before equal keys" behaviour of `insort_left`. */
  lemma InsortLeftSorted<T>(s: seq<T>, x: T, less: (T, T) -> bool)
    requires SortedBy(s, less)
    requires StrictWeakOrderOn(s + [x], less)
    ensures var r := InsortLeft(s, x, less);
            var p := BisectLeft(s, x, less);
            && SortedBy(r, less)
            && r[p] == x
            && (forall j :: 0 <= j < p ==> r[j] == s[j] && less(r[j], x))
            && (forall j :: p < j < |r| ==> r[j] == s[j - 1] && !less(r[j], x))
  {
    var u := s + [x];
    var r := InsortLeft(s, x, less);
    var p := BisectLeft(s, x, less);
    assert r == s[..p] + [x] + s[p..];
    assert u[|s|] == x;
    NothingBelowAfterBisect(s, x, less);
    forall i, j | 0 <= i < j < |r|
      ensures !less(r[j], r[i])
    {
      if i < p && j == p {
        assert u[i] == s[i];
        assert OrderedTriple(u[i], u[|s|], u[i], less);
      } else if i < p && j > p {
        assert r[j] == s[j - 1];
      } else if i > p {
        assert r[i] == s[i - 1] && r[j] == s[j - 1];
      }
    }
  }

  /** An element above everything in the list is appended at its end. */
  lemma InsortLeftAppends<T>(s: seq<T>, x: T, less: (T, T) -> bool)
    requires forall j :: 0 <= j < |s| ==> less(s[j], x)
    ensures InsortLeft(s, x, less) == s + [x]
  {
    assert BisectLeft(s, x, less) == |s|;
    assert s[..|s|] == s;
  }

  /** `less` is a strict weak order on every value of `T`. */
  ghost predicate StrictWeakOrder<T(!new)>(less: (T, T) -> bool) {
    forall a, b, c :: OrderedTriple(a, b, c, less)
  }

  /** `insort_right` keeps a sorted list sorted. */
  lemma InsortRightSorted<T(!new)>(s: seq<T>, x: T, less: (T, T) -> bool)
    requires SortedBy(s, less)
    requires StrictWeakOrder(less)
    ensures SortedBy(InsortRight(s, x, less), less)
  {
    var r := InsortRight(s, x, less);
    var p := BisectRight(s, x, less);
    assert r == s[..p] + [x] + s[p..];
    forall j | p <= j < |s|
      ensures less(x, s[j])
    {
      assert OrderedTriple(x, s[j], s[p], less);
    }
    forall i, j | 0 <= i < j < |r|
      ensures !less(r[j], r[i])
    {
      if j <= p {
      } else if i < p {
        assert r[j] == s[j - 1];
      } else if i == p {
        assert r[j] == s[j - 1];
        assert OrderedTriple(x, s[j - 1], x, less);
      } else {
        assert r[i] == s[i - 1] && r[j] == s[j - 1];
      }
    }
  }

  /** An element below none of the list's elements is appended at its end by `insort_right`. */
  lemma InsortRightAppends<T>(s: seq<T>, x: T, less: (T, T) -> bool)
    requires forall j :: 0 <= j < |s| ==> !less(x, s[j])
    ensures InsortRight(s, x, less) == s + [x]
  {
    assert BisectRight(s, x, less) == |s|;
    assert s[..|s|] == s;
  }

  /** The stable sort returns a sorted permutation of its input. */
  lemma {:induction false} InsertionSortSorted<T(!new)>(s: seq<T>, less: (T, T) -> bool)
    requires StrictWeakOrder(less)
    ensures SortedBy(InsertionSort(s, less), less)
    decreases |s|
  {
    if |s| > 0 {
      InsertionSortSorted(s[..|s| - 1], less);
      InsortRightSorted(InsertionSort(s[..|s| - 1], less), s[|s| - 1], less);
    }
  }

  /** Sorting a list that is already sorted leaves it as it is. */
  lemma {:induction false} InsertionSortOfSorted<T>(s: seq<T>, less: (T, T) -> bool)
    requires SortedBy(s, less)
    ensures InsertionSort(s, less) == s
    decreases |s|
  {
    if |s| > 0 {
      var init := s[..|s| - 1];
      assert SortedBy(init, less);
      InsertionSortOfSorted(init, less);
      InsortRightAppends(init, s[|s| - 1], less);
      assert init + [s[|s| - 1]] == s;
    }
  }

  /** On a sorted list, no element from the insertion point of `x` on is below `x`. */
  lemma NothingBelowAfterBisect<T>(s: seq<T>, x: T, less: (T, T) -> bool)
    requires SortedBy(s, less)
    requires StrictWeakOrderOn(s + [x], less)
    ensures forall j :: BisectLeft(s, x, less) <= j < |s| ==> !less(s[j], x)
  {
    var u := s + [x];
    var p := BisectLeft(s, x, less);
    assert u[|s|] == x;
    forall j | p < j < |s|
      ensures !less(s[j], x)
    {
      assert u[j] == s[j] && u[p] == s[p];
      TripleAt(u, less, j, p, |s|);
      NotBelowThrough(s[j], s[p], x, less);
    }
  }

  /** The strict-weak-order laws for the elements at positions i, j and k. */
  lemma TripleAt<T>(s: seq<T>, less: (T, T) -> bool, i: int, j: int, k: int)
    requires StrictWeakOrderOn(s, less)
    requires 0 <= i < |s| && 0 <= j < |s| && 0 <= k < |s|
    ensures OrderedTriple(s[i], s[j], s[k], less)
  {
  }

  /** If `a` is not below `b` and `b` is not below `c`, `a` is not below `c`. */
  lemma NotBelowThrough<T>(a: T, b: T, c: T, less: (T, T) -> bool)
    requires OrderedTriple(a, b, c, less) && !less(a, b) && !less(b, c)
    ensures !less(a, c)
  {
  }

  /** On a strictly sorted list, inserting a key that is comparable to and different from
      every element keeps the list strictly sorted. */
  lemma InsortLeftStrictlySorted<T>(s: seq<T>, x: T, less: (T, T) -> bool)
    requires StrictlySortedBy(s, less)
    requires StrictWeakOrderOn(s + [x], less)
    requires forall j :: 0 <= j < |s| ==> less(s[j], x) || less(x, s[j])
    ensures StrictlySortedBy(InsortLeft(s, x, less), less)
  {
    var u := s + [x];
    var r := InsortLeft(s, x, less);
    var p := BisectLeft(s, x, less);
    assert r == s[..p] + [x] + s[p..];
    assert u[|s|] == x;
    if p < |s| {
      assert less(x, s[p]);
    }
    forall i, j | 0 <= i < j < |r|
      ensures less(r[i], r[j])
    {
      if i < p && j > p {
        assert r[j] == s[j - 1];
      } else if i == p && j > p {
        assert r[j] == s[j - 1];
        if j - 1 > p {
          assert u[p] == s[p] && u[j - 1] == s[j - 1];
          assert OrderedTriple(u[|s|], u[p], u[j - 1], less);
        }
      } else if i > p {
        assert r[i] == s[i - 1] && r[j] == s[j - 1];
      }
    }
  }

  /** `bisect_left` only sees how the key compares with the elements. */
  lemma {:induction false} BisectLeftSameComparisons<T>(s: seq<T>, x: T, y: T, less: (T, T) -> bool)
    requires forall i :: 0 <= i < |s| ==> (less(s[i], x) <==> less(s[i], y))
    ensures BisectLeft(s, x, less) == BisectLeft(s, y, less)
    decreases |s|
  {
    if |s| > 0 && less(s[0], x) {
      BisectLeftSameComparisons(s[1..], x, y, less);
    }
  }

  /** `bisect_right` only sees how the key compares with the elements. */
  lemma {:induction false} BisectRightSameComparisons<T>(s: seq<T>, x: T, y: T, less: (T, T) -> bool)
    requires forall i :: 0 <= i < |s| ==> (less(x, s[i]) <==> less(y, s[i]))
    ensures BisectRight(s, x, less) == BisectRight(s, y, less)
    decreases |s|
  {
    if |s| > 0 && !less(x, s[0]) {
      BisectRightSameComparisons(s[1..], x, y, less);
    }
  }
}
