/** Stable sorting by a comparison, and what it keeps. */
module Sorting {

  /** `x` put behind everything it is not less than. */
  function Insert<T>(s: seq<T>, x: T, less: (T, T) -> bool): (r: seq<T>)
    ensures |r| == |s| + 1
    ensures multiset(r) == multiset(s) + multiset{x}
  {
    if s == [] || !less(x, s[|s| - 1]) then s + [x]
    else
      var init, last := s[..|s| - 1], s[|s| - 1];
      assert s == init + [last];
      Insert(init, x, less) + [last]
  }

  function Sort<T>(s: seq<T>, less: (T, T) -> bool): (r: seq<T>)
    ensures |r| == |s|
    ensures multiset(r) == multiset(s)
  {
    if s == [] then []
    else
      var init, last := s[..|s| - 1], s[|s| - 1];
      assert s == init + [last];
      Insert(Sort(init, less), last, less)
  }

  /** A comparison by some key. */
  ghost predicate IsOrder<T(!new)>(less: (T, T) -> bool) {
    (forall x, y :: less(x, y) ==> !less(y, x)) &&
    (forall x, y, z :: !less(y, x) && !less(z, y) ==> !less(z, x))
  }

  ghost predicate Sorted<T>(s: seq<T>, less: (T, T) -> bool) {
    forall i, j :: 0 <= i < j < |s| ==> !less(s[j], s[i])
  }

  lemma {:induction false} InsertedIsSorted<T(!new)>(s: seq<T>, x: T, less: (T, T) -> bool)
    requires IsOrder(less) && Sorted(s, less)
    ensures Sorted(Insert(s, x, less), less)
  {
    if s != [] {
      var init, last := s[..|s| - 1], s[|s| - 1];
      if less(x, last) {
        InsertedIsSorted(init, x, less);
        var r := Insert(init, x, less);
        forall i | 0 <= i < |r|
          ensures !less(last, r[i])
        {
          assert r[i] in multiset(r);
          assert r[i] in multiset(init) + multiset{x};
          if r[i] != x {
            assert r[i] in init;
          }
        }
      } else {
        forall i | 0 <= i < |s|
          ensures !less(x, s[i])
        {
          if i < |s| - 1 {
            assert !less(last, s[i]);
          }
        }
      }
    }
  }

  lemma {:induction false} SortSorts<T(!new)>(s: seq<T>, less: (T, T) -> bool)
    requires IsOrder(less)
    ensures Sorted(Sort(s, less), less)
  {
    if s != [] {
      SortSorts(s[..|s| - 1], less);
      InsertedIsSorted(Sort(s[..|s| - 1], less), s[|s| - 1], less);
    }
  }

  lemma {:induction false} SortKeepsMembers<T>(s: seq<T>, less: (T, T) -> bool)
    ensures forall x :: x in Sort(s, less) <==> x in s
  {
    assert forall x :: x in Sort(s, less) <==> x in multiset(Sort(s, less));
    assert forall x :: x in s <==> x in multiset(s);
  }

  /** Every two of different places are related. */
  ghost predicate Pairwise<T>(s: seq<T>, related: (T, T) -> bool) {
    forall i, j :: 0 <= i < j < |s| ==> related(s[i], s[j])
  }

  ghost predicate IsSymmetric<T(!new)>(related: (T, T) -> bool) {
    forall x, y :: related(x, y) == related(y, x)
  }

  lemma {:induction false} InsertKeepsPairwise<T(!new)>(s: seq<T>, x: T, less: (T, T) -> bool, related: (T, T) -> bool)
    requires IsSymmetric(related) && Pairwise(s, related) && forall i :: 0 <= i < |s| ==> related(s[i], x)
    ensures Pairwise(Insert(s, x, less), related)
  {
    if s != [] && less(x, s[|s| - 1]) {
      var init, last := s[..|s| - 1], s[|s| - 1];
      InsertKeepsPairwise(init, x, less, related);
      var r := Insert(init, x, less);
      forall i | 0 <= i < |r|
        ensures related(r[i], last)
      {
        assert r[i] in multiset(r);
        assert r[i] in multiset(init) + multiset{x};
        if r[i] != x {
          assert r[i] in init;
        }
      }
    }
  }

  /** A symmetric relation between the members does not mind their order. */
  lemma {:induction false} SortKeepsPairwise<T(!new)>(s: seq<T>, less: (T, T) -> bool, related: (T, T) -> bool)
    requires IsSymmetric(related) && Pairwise(s, related)
    ensures Pairwise(Sort(s, less), related)
  {
    if s != [] {
      var init, last := s[..|s| - 1], s[|s| - 1];
      SortKeepsPairwise(init, less, related);
      SortKeepsMembers(init, less);
      forall i | 0 <= i < |init|
        ensures related(Sort(init, less)[i], last)
      {
        assert Sort(init, less)[i] in init;
      }
      InsertKeepsPairwise(Sort(init, less), last, less, related);
    }
  }
}
