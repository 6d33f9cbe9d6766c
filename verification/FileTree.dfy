/**
 * A disk as undo sees it: a tree of files and folders, and a trash that can give items back. Paths
 * are resolved and absolute, as lists of names.
 */
module FileTree {

  type Name = string
  type Path = seq<Name>

  datatype Node = Folder | File(content: string)

  type Tree = map<Path, Node>

  /** Every item but the root lies in a folder. */
  ghost predicate IsTree(fs: Tree) {
    forall p :: p in fs && p != [] ==> IsFolder(fs, p[..|p| - 1])
  }

  predicate IsFolder(fs: Tree, p: Path) {
    p in fs && fs[p] == Folder
  }

  /** `path`'s folder, where it has one, is there. */
  predicate HasHome(fs: Tree, path: Path) {
    path != [] ==> IsFolder(fs, path[..|path| - 1])
  }

  /** The item at `p` and everything below it, as paths from `p`. */
  function Sub(fs: Tree, p: Path): (sub: Tree) {
    map r | r in (set q | q in fs && p <= q :: q[|p|..]) && p + r in fs :: fs[p + r]
  }

  /** The tree without `p` and everything below it. */
  function Without(fs: Tree, p: Path): (rest: Tree) {
    map q | q in fs && !(p <= q) :: fs[q]
  }

  /** The tree with `sub` put at `p`. */
  function Graft(fs: Tree, p: Path, sub: Tree): (r: Tree) {
    fs + map q | q in (set r | r in sub :: p + r) && q[|p|..] in sub :: sub[q[|p|..]]
  }

  function Moved(fs: Tree, from: Path, to: Path): Tree {
    Graft(Without(fs, from), to, Sub(fs, from))
  }

  /** Whether an item can go from one path to another: it is there, nothing is in its way, the folder
      it goes to exists, and that is not inside the item itself. */
  predicate CanMove(fs: Tree, from: Path, to: Path) {
    from in fs && to !in fs && HasHome(fs, to) && !(from <= to)
  }

  // ---------- looking inside the operations ----------

  lemma {:induction false} SubAt(fs: Tree, p: Path, r: Path)
    ensures r in Sub(fs, p) <==> p + r in fs
    ensures r in Sub(fs, p) ==> Sub(fs, p)[r] == fs[p + r]
  {
    if p + r in fs {
      assert p <= p + r && (p + r)[|p|..] == r;
    }
  }

  lemma {:induction false} GraftAt(fs: Tree, p: Path, sub: Tree, q: Path)
    ensures q in Graft(fs, p, sub) <==> q in fs || (p <= q && q[|p|..] in sub)
    ensures q in Graft(fs, p, sub) ==> Graft(fs, p, sub)[q] == if p <= q && q[|p|..] in sub then sub[q[|p|..]] else fs[q]
  {
    if p <= q && q[|p|..] in sub {
      assert p + q[|p|..] == q;
    }
    if q in (set r | r in sub :: p + r) {
      var r :| r in sub && q == p + r;
      assert q[|p|..] == r;
    }
  }

  lemma {:induction false} MovedAt(fs: Tree, from: Path, to: Path, q: Path)
    requires forall x :: x in fs ==> !(to <= x)
    ensures q in Moved(fs, from, to) <==> (to <= q && from + q[|to|..] in fs) || (!(from <= q) && q in fs)
    ensures q in Moved(fs, from, to) ==> Moved(fs, from, to)[q] == if to <= q then fs[from + q[|to|..]] else fs[q]
  {
    GraftAt(Without(fs, from), to, Sub(fs, from), q);
    if to <= q {
      SubAt(fs, from, q[|to|..]);
    }
  }

  /** In a tree, what does not exist has nothing below it. */
  lemma {:induction false} NothingBelow(fs: Tree, p: Path, q: Path)
    requires IsTree(fs) && q in fs && p <= q
    ensures p in fs
    decreases |q|
  {
    if |p| < |q| {
      NothingBelow(fs, p, q[..|q| - 1]);
    } else {
      assert p == q;
    }
  }

  lemma {:induction false} VacantBelow(fs: Tree, p: Path)
    requires IsTree(fs) && p !in fs
    ensures forall q :: q in fs ==> !(p <= q)
  {
    forall q | q in fs
      ensures !(p <= q)
    {
      if p <= q {
        NothingBelow(fs, p, q);
      }
    }
  }

  predicate SameAt(a: Tree, b: Tree, q: Path) {
    (q in a <==> q in b) && (q in b ==> a[q] == b[q])
  }

  lemma {:induction false} SameTree(a: Tree, b: Tree)
    requires forall q :: SameAt(a, b, q)
    ensures a == b
  {
    assert forall q :: SameAt(a, b, q) ==> (q in a <==> q in b);
  }

  // ---------- inverses ----------

  /** Every move that is possible is possible the other way around afterwards. */
  lemma {:induction false} MoveCanGoBack(fs: Tree, from: Path, to: Path)
    requires IsTree(fs) && CanMove(fs, from, to)
    ensures CanMove(Moved(fs, from, to), to, from)
  {
    VacantBelow(fs, to);
    MovedAt(fs, from, to, to);
    MovedAt(fs, from, to, from);
    assert from + [] == from && to[|to|..] == [];
    if from != [] {
      MovedAt(fs, from, to, from[..|from| - 1]);
    }
    assert [] <= to;
  }

  /** What a move does, item by item. */
  ghost predicate IsMoved(fs: Tree, from: Path, to: Path, there: Tree) {
    forall q ::
      (q in there <==> (to <= q && from + q[|to|..] in fs) || (!(from <= q) && q in fs)) &&
      (q in there ==> there[q] == if to <= q && from + q[|to|..] in fs then fs[from + q[|to|..]] else fs[q])
  }

  lemma {:induction false} MovedIs(fs: Tree, from: Path, to: Path)
    requires IsTree(fs) && to !in fs
    ensures IsMoved(fs, from, to, Moved(fs, from, to))
  {
    VacantBelow(fs, to);
    forall q {
      MovedAt(fs, from, to, q);
    }
  }

  lemma {:induction false} HomeOutside(from: Path, p: Path)
    requires p != [] && !(from <= p)
    ensures !(from <= p[..|p| - 1])
  {
  }

  lemma {:induction false} HomeInside(from: Path, to: Path, p: Path)
    requires to <= p && p != to
    ensures to <= p[..|p| - 1]
    ensures from + p[..|p| - 1][|to|..] == (from + p[|to|..])[..|from + p[|to|..]| - 1]
  {
  }

  lemma {:induction false} MovedHome(fs: Tree, from: Path, to: Path, there: Tree, p: Path)
    requires IsTree(fs) && CanMove(fs, from, to) && IsMoved(fs, from, to, there) && p in there && p != []
    ensures HasHome(there, p)
  {
    VacantBelow(fs, to);
    if to <= p && p != to {
      HomeInside(from, to, p);
    } else {
      HomeOutside(from, p);
    }
  }

  /** A move leaves a tree. */
  lemma {:induction false} MovedIsTree(fs: Tree, from: Path, to: Path)
    requires IsTree(fs) && CanMove(fs, from, to)
    ensures IsTree(Moved(fs, from, to))
  {
    MovedIs(fs, from, to);
    forall p | p in Moved(fs, from, to) && p != []
      ensures IsFolder(Moved(fs, from, to), p[..|p| - 1])
    {
      MovedHome(fs, from, to, Moved(fs, from, to), p);
    }
  }

  /** Moving an item and moving it back changes nothing. */
  lemma {:induction false} MoveBack(fs: Tree, from: Path, to: Path)
    requires IsTree(fs) && CanMove(fs, from, to)
    ensures Moved(Moved(fs, from, to), to, from) == fs
  {
    var there := Moved(fs, from, to);
    VacantBelow(fs, to);
    MovedIs(fs, from, to);
    MovedIsTree(fs, from, to);
    assert from !in there;
    MovedIs(there, to, from);
    BackIsSame(fs, from, to, there, Moved(there, to, from));
  }

  lemma {:induction false} BackIsSame(fs: Tree, from: Path, to: Path, there: Tree, back: Tree)
    requires IsMoved(fs, from, to, there) && IsMoved(there, to, from, back) && forall x :: x in fs ==> !(to <= x)
    ensures back == fs
  {
    forall q {
      MoveBackAt(fs, from, to, there, back, q);
    }
    SameTree(back, fs);
  }

  lemma {:induction false} MoveBackAt(fs: Tree, from: Path, to: Path, there: Tree, back: Tree, q: Path)
    requires IsMoved(fs, from, to, there) && IsMoved(there, to, from, back) && forall x :: x in fs ==> !(to <= x)
    ensures SameAt(back, fs, q)
  {
    if from <= q {
      Rejoined(from, to, q);
      assert to + q[|from|..] in there <==> q in fs;
    } else {
      assert q in there <==> (to <= q && from + q[|to|..] in fs) || q in fs;
    }
  }

  lemma {:induction false} Rejoined(from: Path, to: Path, q: Path)
    requires from <= q
    ensures var r := q[|from|..]; to <= to + r && (to + r)[|to|..] == r && from + r == q
  {
  }

  /** Where an item is after the one at `from` went to `to`. */
  function Follow(from: Path, to: Path, q: Path): Path {
    if from <= q then to + q[|from|..] else q
  }

  /** Every node of `before` is still there: where it was, or below where its item went. */
  ghost predicate AllFollow(before: Tree, after: Tree, from: Path, to: Path) {
    forall q :: q in before ==> Follow(from, to, q) in after && after[Follow(from, to, q)] == before[q]
  }

  /** What does not lie below `p` is as it was. */
  ghost predicate KeptOutside(before: Tree, after: Tree, p: Path) {
    forall q :: q in before && !(p <= q) ==> q in after && after[q] == before[q]
  }

  lemma {:induction false} MovedFollow(fs: Tree, from: Path, to: Path)
    requires IsTree(fs) && CanMove(fs, from, to)
    ensures AllFollow(fs, Moved(fs, from, to), from, to)
  {
    forall q | q in fs {
      MoveOverwritesNothing(fs, from, to, q);
    }
  }

  /** A move that is allowed leaves a tree that overwrites nothing and can be undone. */
  ghost predicate MovedSafely(before: Tree, after: Tree, from: Path, to: Path) {
    to !in before && IsTree(after) && AllFollow(before, after, from, to) && Moved(after, to, from) == before
  }

  lemma {:induction false} MoveIsSafe(fs: Tree, from: Path, to: Path)
    requires CanMove(fs, from, to)
    ensures IsTree(fs) ==> MovedSafely(fs, Moved(fs, from, to), from, to)
  {
    if IsTree(fs) {
      MovedIsTree(fs, from, to);
      MovedFollow(fs, from, to);
      MoveBack(fs, from, to);
    }
  }

  /** Everything outside the moved item is as it was, and nothing that was there is gone. */
  lemma {:induction false} MoveOverwritesNothing(fs: Tree, from: Path, to: Path, q: Path)
    requires IsTree(fs) && CanMove(fs, from, to) && q in fs
    ensures var there := Moved(fs, from, to);
      var now := if from <= q then to + q[|from|..] else q;
      now in there && there[now] == fs[q]
  {
    VacantBelow(fs, to);
    if from <= q {
      var r := q[|from|..];
      assert from + r == q && (to + r)[|to|..] == r;
      MovedAt(fs, from, to, to + r);
    } else {
      MovedAt(fs, from, to, q);
    }
  }

  /** Putting a removed item back restores the tree. */
  lemma {:induction false} GraftBack(fs: Tree, p: Path)
    requires IsTree(fs)
    ensures Graft(Without(fs, p), p, Sub(fs, p)) == fs
  {
    forall q {
      GraftBackAt(fs, p, q);
    }
    SameTree(Graft(Without(fs, p), p, Sub(fs, p)), fs);
  }

  lemma {:induction false} GraftBackAt(fs: Tree, p: Path, q: Path)
    ensures SameAt(Graft(Without(fs, p), p, Sub(fs, p)), fs, q)
  {
    GraftAt(Without(fs, p), p, Sub(fs, p), q);
    if p <= q {
      SubAt(fs, p, q[|p|..]);
      assert p + q[|p|..] == q;
    }
  }

  /** Removing an item put where nothing was restores the tree, and finds the item. */
  lemma {:induction false} RemoveGrafted(fs: Tree, p: Path, sub: Tree)
    requires IsTree(fs) && p !in fs
    ensures Without(Graft(fs, p, sub), p) == fs
  {
    VacantBelow(fs, p);
    forall q {
      RemoveGraftedAt(fs, p, sub, q);
    }
    SameTree(Without(Graft(fs, p, sub), p), fs);
  }

  lemma {:induction false} RemoveGraftedAt(fs: Tree, p: Path, sub: Tree, q: Path)
    requires forall x :: x in fs ==> !(p <= x)
    ensures SameAt(Without(Graft(fs, p, sub), p), fs, q)
  {
    GraftAt(fs, p, sub, q);
  }

  lemma {:induction false} SubOfGrafted(fs: Tree, p: Path, sub: Tree)
    requires IsTree(fs) && p !in fs
    ensures Sub(Graft(fs, p, sub), p) == sub
  {
    VacantBelow(fs, p);
    var grown := Graft(fs, p, sub);
    forall r
      ensures r in Sub(grown, p) <==> r in sub
      ensures r in sub ==> Sub(grown, p)[r] == sub[r]
    {
      SubAt(grown, p, r);
      GraftAt(fs, p, sub, p + r);
      assert (p + r)[|p|..] == r;
    }
  }

  lemma {:induction false} WithoutIsTree(fs: Tree, p: Path)
    requires IsTree(fs)
    ensures IsTree(Without(fs, p))
  {
    var rest := Without(fs, p);
    forall q | q in rest && q != []
      ensures IsFolder(rest, q[..|q| - 1])
    {
      assert q[..|q| - 1] <= q;
    }
  }

  /** In a tree what is not the root has a folder around it, and a file has nothing in it. */
  lemma {:induction false} TreeMeans(fs: Tree, p: Path)
    requires IsTree(fs) && p in fs && p != []
    ensures var home := p[..|p| - 1]; home in fs && fs[home] == Folder
  {
  }

  /** An item can go exactly where nothing is, into a folder that is there and is not below it, nor it itself. */
  lemma {:induction false} CanMoveMeans(fs: Tree, from: Path, to: Path)
    ensures CanMove(fs, from, to) <==>
      from in fs && to !in fs && (|to| < |from| || to[..|from|] != from) &&
      (to == [] || (to[..|to| - 1] in fs && fs[to[..|to| - 1]] == Folder))
  {
  }
}
