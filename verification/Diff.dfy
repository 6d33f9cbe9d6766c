/**
 * What a line diff promises: a longest strictly increasing matching of equal lines. The algorithm
 * itself (Myers) is a library's, so the codec is stated over every diff that keeps this promise.
 */
module Diff {

  /** Line `before` of the old sequence is kept as line `after` of the new one. */
  datatype Pair = Pair(before: nat, after: nat)

  predicate IsMatching<T(==)>(a: seq<T>, b: seq<T>, m: seq<Pair>) {
    (forall i :: 0 <= i < |m| ==> m[i].before < |a| && m[i].after < |b| && a[m[i].before] == b[m[i].after]) &&
    (forall i, j :: 0 <= i < j < |m| ==> m[i].before < m[j].before && m[i].after < m[j].after)
  }

  ghost predicate IsLongest<T(!new)>(a: seq<T>, b: seq<T>, m: seq<Pair>) {
    IsMatching(a, b, m) && forall other :: IsMatching(a, b, other) ==> |other| <= |m|
  }

  /** One step of an edit script; only runs of equal lines matter to the codec. */
  datatype DiffOp = Equal(oldIndex: nat, newIndex: nat, len: nat) | Changed

  function Run(oldIndex: nat, newIndex: nat, len: nat): (m: seq<Pair>)
    ensures |m| == len
  {
    seq(len, k requires 0 <= k < len => Pair(oldIndex + k, newIndex + k))
  }

  /** The matched lines of an edit script, in order. */
  function Pairs(ops: seq<DiffOp>): (m: seq<Pair>) {
    if ops == [] then []
    else
      var init := Pairs(ops[..|ops| - 1]);
      match ops[|ops| - 1]
      case Equal(o, n, len) => init + Run(o, n, len)
      case Changed => init
  }

  ghost predicate IsDiff<T(!new)>(a: seq<T>, b: seq<T>, ops: seq<DiffOp>) {
    IsLongest(a, b, Pairs(ops))
  }

  lemma {:induction false} PairsPrefix(ops: seq<DiffOp>, k: nat)
    requires k <= |ops|
    ensures Pairs(ops[..k]) <= Pairs(ops)
    decreases |ops| - k
  {
    if k < |ops| {
      assert ops[..k + 1][..k] == ops[..k];
      PairsPrefix(ops, k + 1);
    } else {
      assert ops[..k] == ops;
    }
  }

  /** A matching uses each line at most once, so it is no longer than either side. */
  lemma {:induction false} MatchingIsStretched<T>(a: seq<T>, b: seq<T>, m: seq<Pair>, i: nat)
    requires IsMatching(a, b, m) && i < |m|
    ensures i <= m[i].before && |m| - i <= |a| - m[i].before
    ensures i <= m[i].after && |m| - i <= |b| - m[i].after
    decreases |m| - i
  {
    if i + 1 < |m| {
      MatchingIsStretched(a, b, m, i + 1);
    }
    StartsLow(a, b, m, i);
  }

  lemma {:induction false} StartsLow<T>(a: seq<T>, b: seq<T>, m: seq<Pair>, i: nat)
    requires IsMatching(a, b, m) && i < |m|
    ensures i <= m[i].before && i <= m[i].after
  {
    if 0 < i {
      StartsLow(a, b, m, i - 1);
    }
  }

  /** Every two sequences have a longest matching, so nothing below is stated of an empty class. */
  lemma {:induction false} LongestExists<T(!new)>(a: seq<T>, b: seq<T>)
    ensures exists m :: IsLongest(a, b, m)
  {
    Extend(a, b, []);
  }

  lemma {:induction false} Extend<T(!new)>(a: seq<T>, b: seq<T>, m: seq<Pair>)
    requires IsMatching(a, b, m)
    ensures exists best :: IsLongest(a, b, best)
    decreases |a| - |m|
  {
    if !IsLongest(a, b, m) {
      var longer :| IsMatching(a, b, longer) && |m| < |longer|;
      MatchingIsStretched(a, b, longer, 0);
      Extend(a, b, longer);
    }
  }

  /** Diffing a text against itself can only answer that every line is its own. */
  lemma {:induction false} IdenticalForcesIdentity<T(!new)>(a: seq<T>, m: seq<Pair>)
    requires IsLongest(a, a, m)
    ensures m == Run(0, 0, |a|)
  {
    assert IsMatching(a, a, Run(0, 0, |a|));
    forall i | 0 <= i < |m|
      ensures m[i] == Pair(i, i)
    {
      MatchingIsStretched(a, a, m, i);
    }
    if |m| > 0 {
      MatchingIsStretched(a, a, m, 0);
    }
  }
}
