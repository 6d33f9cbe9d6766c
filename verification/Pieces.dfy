/** Splitting a sequence at a separator and joining it again. */
module Pieces {

  function IndexOf<T(==)>(s: seq<T>, c: T): (n: nat)
    ensures n <= |s|
    ensures n < |s| ==> s[n] == c
  {
    if s == [] || s[0] == c then 0 else 1 + IndexOf(s[1..], c)
  }

  /** The pieces between separators, at least one. */
  function Split<T(==)>(s: seq<T>, c: T): (pieces: seq<seq<T>>)
    ensures pieces != []
  {
    var n := IndexOf(s, c);
    if n == |s| then [s] else [s[..n]] + Split(s[n + 1..], c)
  }

  function Join<T>(pieces: seq<seq<T>>, c: T): (s: seq<T>) {
    if pieces == [] then []
    else if |pieces| == 1 then pieces[0]
    else pieces[0] + [c] + Join(pieces[1..], c)
  }

  predicate FreeOf<T(==)>(pieces: seq<seq<T>>, c: T) {
    forall i :: 0 <= i < |pieces| ==> c !in pieces[i]
  }

  lemma {:induction false} IndexOfIs<T>(s: seq<T>, c: T, n: nat)
    requires n <= |s| && c !in s[..n] && (n < |s| ==> s[n] == c)
    ensures IndexOf(s, c) == n
  {
    if 0 < n {
      assert s[..n][0] == s[0];
      assert s[1..][..n - 1] == s[..n][1..];
      IndexOfIs(s[1..], c, n - 1);
    }
  }

  lemma {:induction false} BeforeIndexOf<T>(s: seq<T>, c: T)
    ensures c !in s[..IndexOf(s, c)]
  {
    if s != [] && s[0] != c {
      BeforeIndexOf(s[1..], c);
      assert s[..IndexOf(s, c)] == [s[0]] + s[1..][..IndexOf(s[1..], c)];
    }
  }

  lemma {:induction false} SplitPlain<T>(s: seq<T>, c: T)
    requires c !in s
    ensures Split(s, c) == [s]
  {
    IndexOfIs(s, c, |s|);
  }

  lemma {:induction false} SplitFirst<T>(a: seq<T>, c: T, rest: seq<T>)
    requires c !in a
    ensures Split(a + [c] + rest, c) == [a] + Split(rest, c)
  {
    var s := a + [c] + rest;
    assert s[..|a|] == a && s[|a| + 1..] == rest;
    IndexOfIs(s, c, |a|);
  }

  /** Splitting distributes over a separator. */
  lemma {:induction false} SplitAppend<T>(a: seq<T>, c: T, b: seq<T>)
    ensures Split(a + [c] + b, c) == Split(a, c) + Split(b, c)
    decreases |a|
  {
    var n := IndexOf(a, c);
    BeforeIndexOf(a, c);
    if n == |a| {
      assert a[..n] == a;
      SplitFirst(a, c, b);
    } else {
      var head, tail := a[..n], a[n + 1..];
      assert a == head + [c] + tail;
      SplitAppend(tail, c, b);
      SplitFirst(head, c, tail + [c] + b);
      Nested(head, [c], tail, [c], b);
      Nested([head], Split(tail, c), Split(b, c), [], []);
    }
  }

  lemma {:induction false} Nested<T>(a: seq<T>, b: seq<T>, c: seq<T>, d: seq<T>, e: seq<T>)
    ensures a + b + c + d + e == a + b + (c + d + e)
    ensures a + b + c == a + (b + c)
  {
  }

  lemma {:induction false} PiecesAreFree<T>(s: seq<T>, c: T)
    ensures FreeOf(Split(s, c), c)
    decreases |s|
  {
    var n := IndexOf(s, c);
    BeforeIndexOf(s, c);
    if n == |s| {
      assert s[..n] == s;
    } else {
      PiecesAreFree(s[n + 1..], c);
      var rest := Split(s[n + 1..], c);
      assert forall i :: 1 <= i < |Split(s, c)| ==> Split(s, c)[i] == rest[i - 1];
    }
  }

  /** Joined pieces are found again. */
  lemma {:induction false} SplitOfJoin<T>(pieces: seq<seq<T>>, c: T)
    requires FreeOf(pieces, c) && pieces != []
    ensures Split(Join(pieces, c), c) == pieces
  {
    if |pieces| == 1 {
      SplitPlain(pieces[0], c);
    } else {
      SplitOfJoin(pieces[1..], c);
      SplitFirst(pieces[0], c, Join(pieces[1..], c));
      assert pieces == [pieces[0]] + pieces[1..];
    }
  }

  lemma {:induction false} JoinAppend<T>(a: seq<seq<T>>, b: seq<seq<T>>, c: T)
    requires a != [] && b != []
    ensures Join(a + b, c) == Join(a, c) + [c] + Join(b, c)
  {
    if |a| == 1 {
      assert (a + b)[1..] == b;
    } else {
      assert (a + b)[1..] == a[1..] + b;
      JoinAppend(a[1..], b, c);
      var x, y, z := a[0] + [c], Join(a[1..], c), [c] + Join(b, c);
      assert x + (Join(a[1..], c) + [c] + Join(b, c)) == x + y + z;
    }
  }
}
