/**
 * What path identity rests on: the string-prefix test of the keys is exactly the prefix order of the
 * folded names, and relative paths and joins undo each other.
 */
module PathLaws {
  import opened Outcome
  import opened Pieces
  import opened Paths

  /** Names as they occur in a path. */
  predicate Plain(names: seq<string>) {
    forall i :: 0 <= i < |names| ==> names[i] != "" && '/' !in names[i]
  }

  /** Names that mean themselves. */
  predicate Proper(names: seq<string>) {
    Plain(names) && forall i :: 0 <= i < |names| ==> names[i] != "." && names[i] != ".."
  }

  // ---------- keys ----------

  lemma {:induction false} ResolvedIsProper(pieces: seq<string>)
    requires FreeOf(pieces, '/')
    ensures Proper(Resolve(pieces))
  {
    if pieces != [] {
      var init := pieces[..|pieces| - 1];
      assert forall i :: 0 <= i < |init| ==> init[i] == pieces[i];
      ResolvedIsProper(init);
    }
  }

  lemma {:induction false} NamesArePlain(rules: PathRules, path: string)
    ensures Plain(Names(rules, path))
  {
    PiecesAreFree(Unify(rules.windowsNames, path), '/');
    ResolvedIsProper(Split(Unify(rules.windowsNames, path), '/'));
  }

  lemma {:induction false} JoinedStart(names: seq<string>)
    requires Plain(names)
    ensures names != [] ==> Join(names, '/') != "" && Join(names, '/')[0] != '/'
    ensures names != [] ==> Join(names, '/')[|Join(names, '/')| - 1] != '/'
  {
    if |names| > 1 {
      JoinedStart(names[1..]);
    }
  }

  lemma {:induction false} PlainIsFree(names: seq<string>)
    requires Plain(names)
    ensures FreeOf(names, '/')
  {
  }

  lemma {:induction false} JoinInjective(a: seq<string>, b: seq<string>)
    requires Plain(a) && Plain(b)
    ensures Join(a, '/') == Join(b, '/') <==> a == b
  {
    JoinedStart(a);
    JoinedStart(b);
    PlainIsFree(a);
    PlainIsFree(b);
    if a != [] && b != [] {
      SplitOfJoin(a, '/');
      SplitOfJoin(b, '/');
    }
  }

  /** Equal keys come from equal starts and equal lists of names. */
  lemma {:induction false} KeyInjective(r: bool, a: seq<string>, s: bool, b: seq<string>)
    requires Plain(a) && Plain(b)
    ensures KeyText(r, a) == KeyText(s, b) <==> r == s && a == b
  {
    JoinedStart(a);
    JoinedStart(b);
    JoinInjective(a, b);
    if r && s {
      assert KeyText(r, a)[1..] == Join(a, '/') && KeyText(s, b)[1..] == Join(b, '/');
    } else if !r && !s {
      assert KeyText(r, a) == Join(a, '/') && KeyText(s, b) == Join(b, '/');
    } else {
      var (x, y) := if r then (a, b) else (b, a);
      assert KeyText(true, x)[0] == '/' && KeyText(false, y) == Join(y, '/');
    }
  }

  /** Two spellings name one entry exactly when they resolve to the same folded names, both from the
      root or both not. */
  lemma {:induction false} SameIsSameNames(rules: PathRules, a: string, b: string)
    ensures Same(rules, a, b) <==> Rooted(rules, a) == Rooted(rules, b) && Names(rules, a) == Names(rules, b)
  {
    NamesArePlain(rules, a);
    NamesArePlain(rules, b);
    KeyInjective(Rooted(rules, a), Names(rules, a), Rooted(rules, b), Names(rules, b));
  }

  // ---------- the prefix test ----------

  lemma {:induction false} JoinPrefix(a: seq<string>, p: seq<string>)
    requires Plain(a) && Plain(p) && a != []
    ensures Join(a, '/') + "/" <= Join(p, '/') <==> |a| < |p| && a <= p
  {
    PlainIsFree(a);
    PlainIsFree(p);
    var x, y := Join(a, '/'), Join(p, '/');
    if |a| < |p| && a <= p {
      assert p == a + p[|a|..];
      JoinAppend(a, p[|a|..], '/');
    }
    if x + "/" <= y {
      var rest := y[|x| + 1..];
      assert y == x + ['/'] + rest;
      SplitAppend(x, '/', rest);
      SplitOfJoin(a, '/');
      assert p != [] by { JoinedStart(p); }
      SplitOfJoin(p, '/');
      assert p == a + Split(rest, '/');
    }
  }

  lemma {:induction false} RootedPrefix(x: string, y: string)
    ensures "/" + x <= "/" + y <==> x <= y
  {
    if x <= y {
      assert "/" + y == "/" + x + y[|x|..];
    }
    if "/" + x <= "/" + y {
      assert x == ("/" + x)[1..] && y == ("/" + y)[1..];
      assert ("/" + y)[..|x| + 1][1..] == y[..|x|];
    }
  }

  lemma {:induction false} RootedWithin(a: seq<string>, p: seq<string>)
    requires Plain(a) && Plain(p)
    ensures KeyWithin(KeyText(true, a), KeyText(true, p)) <==> a <= p
  {
    var x, y := Join(a, '/'), Join(p, '/');
    KeyInjective(true, a, true, p);
    JoinedStart(a);
    assert KeyText(true, a) == "/" + x && KeyText(true, p) == "/" + y;
    if a == [] {
      assert "/" + x == "/" && "/" <= "/" + y;
    } else {
      JoinPrefix(a, p);
      RootedPrefix(x + "/", y);
      assert "/" + x + "/" == "/" + (x + "/");
    }
  }

  lemma {:induction false} UnrootedWithin(a: seq<string>, p: seq<string>)
    requires Plain(a) && Plain(p)
    ensures KeyWithin(KeyText(false, a), KeyText(false, p)) <==> a != [] && a <= p
  {
    KeyInjective(false, a, false, p);
    JoinedStart(a);
    JoinedStart(p);
    assert KeyText(false, a) == Join(a, '/') && KeyText(false, p) == Join(p, '/');
    if a != [] {
      JoinPrefix(a, p);
    }
  }

  /** On keys the test is the prefix order of names. */
  lemma {:induction false} KeyWithinIsPrefix(r: bool, a: seq<string>, s: bool, p: seq<string>)
    requires Plain(a) && Plain(p)
    ensures KeyWithin(KeyText(r, a), KeyText(s, p)) <==> r == s && (r || a != []) && a <= p
  {
    if r && s {
      RootedWithin(a, p);
    } else if !r && !s {
      UnrootedWithin(a, p);
    } else if r {
      JoinedStart(p);
      assert KeyText(r, a)[0] == '/';
    } else {
      JoinedStart(a);
      assert KeyText(s, p)[0] == '/';
    }
  }

  /** `is_within`, though computed on strings, holds exactly when both paths start alike and the
      ancestor's folded names are a prefix of the path's; nothing is within the empty key. */
  lemma {:induction false} WithinIsPrefix(rules: PathRules, a: string, p: string)
    ensures IsWithin(rules, a, p) <==>
      Rooted(rules, a) == Rooted(rules, p) && (Rooted(rules, a) || Names(rules, a) != []) &&
      Names(rules, a) <= Names(rules, p)
  {
    NamesArePlain(rules, a);
    NamesArePlain(rules, p);
    KeyWithinIsPrefix(Rooted(rules, a), Names(rules, a), Rooted(rules, p), Names(rules, p));
  }

  /** So it is reflexive on every path with a key, transitive, and antisymmetric up to identity; and a
      prefix of a sibling's name is not an ancestor. */
  lemma {:induction false} WithinIsOrder(rules: PathRules, a: string, b: string, c: string)
    ensures IsWithin(rules, a, a) <==> KeyOf(rules, a) != ""
    ensures IsWithin(rules, a, b) && IsWithin(rules, b, c) ==> IsWithin(rules, a, c)
    ensures IsWithin(rules, a, b) && IsWithin(rules, b, a) <==> Same(rules, a, b) && KeyOf(rules, a) != ""
    ensures IsWithin(rules, a, c) && IsWithin(rules, b, c) ==> Overlaps(rules, a, b)
  {
    WithinIsPrefix(rules, a, a);
    WithinIsPrefix(rules, a, b);
    WithinIsPrefix(rules, b, a);
    WithinIsPrefix(rules, b, c);
    WithinIsPrefix(rules, a, c);
    SameIsSameNames(rules, a, b);
    NamesArePlain(rules, a);
    JoinedStart(Names(rules, a));
  }

  // ---------- components ----------

  lemma {:induction false} NamesOfAppend(a: seq<Component>, c: Component)
    ensures NamesOf(a + [c]) == Walk(NamesOf(a), c)
  {
    assert (a + [c])[..|a|] == a;
  }

  lemma {:induction false} NamesAreResolved(lead: seq<Component>, pieces: seq<string>)
    requires lead == [] || lead == [RootDir] || lead == [CurDir]
    ensures NamesOf(lead + ComponentsOf(pieces)) == Resolve(pieces)
  {
    if pieces == [] {
      assert lead + [] == lead;
      if lead != [] {
        assert lead[..0] == [];
      }
    } else {
      var init, last := pieces[..|pieces| - 1], pieces[|pieces| - 1];
      NamesAreResolved(lead, init);
      if last != "" && last != "." {
        OneMoreName(lead, ComponentsOf(init), Resolve(init), last);
      }
    }
  }

  lemma {:induction false} OneMoreName(lead: seq<Component>, init: seq<Component>, stack: seq<string>, last: string)
    requires NamesOf(lead + init) == stack && last != "" && last != "."
    ensures NamesOf(lead + (init + [ComponentOf(last)])) == Push(stack, last)
  {
    NamesOfAppend(lead + init, ComponentOf(last));
    assert lead + (init + [ComponentOf(last)]) == lead + init + [ComponentOf(last)];
  }

  /** The two ways of walking a path's segments, by components and by splitting, agree. */
  lemma {:induction false} ComponentsResolve(path: string)
    ensures NamesOf(Components(path)) == Resolve(Split(path, '/'))
  {
    var pieces := Split(path, '/');
    NamesAreResolved(if IsAbsolute(path) then [RootDir] else if pieces[0] == "." then [CurDir] else [], pieces);
  }

  // ---------- joining ----------

  lemma {:induction false} ResolveAppend(a: seq<string>, piece: string)
    ensures Resolve(a + [piece]) == Push(Resolve(a), piece)
  {
    assert (a + [piece])[..|a|] == a;
  }

  lemma {:induction false} SplitTrailing(path: string)
    requires path != "" && path[|path| - 1] == '/'
    ensures Split(path, '/') == Split(path[..|path| - 1], '/') + [""]
  {
    var head := path[..|path| - 1];
    assert path == head + ['/'] + "";
    SplitAppend(head, '/', "");
    SplitPlain("", '/');
  }

  /** One more segment in the text is one more on the stack. */
  lemma {:induction false} JoinPathResolves(path: string, piece: string)
    requires piece != "" && '/' !in piece
    ensures Resolve(Split(JoinPath(path, piece), '/')) == Push(Resolve(Split(path, '/')), piece)
    ensures IsAbsolute(JoinPath(path, piece)) == IsAbsolute(path)
    ensures JoinPath(path, piece) != ""
  {
    if path == "" {
      LonePiece(piece);
    } else if path[|path| - 1] == '/' {
      BehindSlash(path, piece);
    } else {
      SplitPlain(piece, '/');
      assert path + "/" + piece == path + ['/'] + piece;
      SplitAppend(path, '/', piece);
      ResolveAppend(Split(path, '/'), piece);
    }
  }

  lemma {:induction false} LonePiece(piece: string)
    requires '/' !in piece
    ensures "" + piece == piece
    ensures Resolve(Split(piece, '/')) == Push(Resolve(Split("", '/')), piece)
  {
    SplitPlain(piece, '/');
    SplitPlain("", '/');
    ResolveAppend([], piece);
    ResolveAppend([], "");
    assert [] + [piece] == [piece] && [] + [""] == [""];
  }

  lemma {:induction false} BehindSlash(path: string, piece: string)
    requires '/' !in piece && path != "" && path[|path| - 1] == '/'
    ensures Resolve(Split(path + piece, '/')) == Push(Resolve(Split(path, '/')), piece)
  {
    var head := path[..|path| - 1];
    SplitPlain(piece, '/');
    assert path + piece == head + ['/'] + piece;
    SplitAppend(head, '/', piece);
    SplitTrailing(path);
    ResolveAppend(Split(head, '/'), "");
    ResolveAppend(Split(head, '/'), piece);
  }

  lemma {:induction false} JoinAllUnfold(root: string, init: seq<string>, last: string)
    requires last != ""
    ensures JoinAll(root, init + [last]) == JoinPath(JoinAll(root, init), last)
  {
    assert (init + [last])[..|init|] == init;
  }

  lemma {:induction false} ProperParts(init: seq<string>, last: string)
    requires Proper(init + [last])
    ensures Proper(init) && Proper([last]) && last != ""
  {
    assert forall i :: 0 <= i < |init| ==> init[i] == (init + [last])[i];
    assert last == (init + [last])[|init|];
  }

  lemma {:induction false} JoinAllResolves(root: string, names: seq<string>)
    requires Proper(names)
    ensures Resolve(Split(JoinAll(root, names), '/')) == Resolve(Split(root, '/')) + names
    ensures root != "" ==> JoinAll(root, names) != "" && IsAbsolute(JoinAll(root, names)) == IsAbsolute(root)
  {
    if names == [] {
      assert Resolve(Split(root, '/')) + [] == Resolve(Split(root, '/'));
    } else {
      var init, last := names[..|names| - 1], names[|names| - 1];
      assert names == init + [last];
      ProperParts(init, last);
      JoinAllResolves(root, init);
      JoinAllUnfold(root, init, last);
      JoinPathResolves(JoinAll(root, init), last);
      Nested(Resolve(Split(root, '/')), init, [last], [], []);
    }
  }

  lemma {:induction false} FoldAllAppend(f: string -> string, a: seq<string>, b: seq<string>)
    ensures FoldAll(f, a + b) == FoldAll(f, a) + FoldAll(f, b)
  {
  }

  /** A path's names, where separators are slashes only. */
  lemma {:induction false} NamesHere(rules: PathRules, path: string)
    requires !rules.windowsNames
    ensures Names(rules, path) == FoldAll(rules.fold, NamesOf(Components(path)))
    ensures Rooted(rules, path) == IsAbsolute(path)
    ensures Proper(NamesOf(Components(path)))
  {
    ComponentsResolve(path);
    PiecesAreFree(path, '/');
    ResolvedIsProper(Split(path, '/'));
  }

  lemma {:induction false} KeyOfEmpty(rules: PathRules, path: string)
    requires !rules.windowsNames && path == ""
    ensures KeyOf(rules, path) == ""
  {
    SplitPlain("", '/');
    assert [""][..0] == [];
  }

  lemma {:induction false} FoldedPrefix(f: string -> string, r: seq<string>, p: seq<string>)
    requires FoldAll(f, r) <= FoldAll(f, p)
    ensures |r| <= |p| && FoldAll(f, r + SkipFrom(p, |r|)) == FoldAll(f, p)
  {
    assert FoldAll(f, p)[..|r|] == FoldAll(f, p[..|r|]);
    FoldAllAppend(f, r, SkipFrom(p, |r|));
    FoldAllAppend(f, p[..|r|], SkipFrom(p, |r|));
    assert p == p[..|r|] + SkipFrom(p, |r|);
  }

  lemma {:induction false} SkippedIsProper(p: seq<string>, n: nat)
    requires Proper(p)
    ensures Proper(SkipFrom(p, n))
  {
  }

  /** Joining a relative path back onto its root names the same entry, however the two were spelled. */
  lemma {:induction false} RelativeJoinsBack(rules: PathRules, root: string, path: string)
    requires !rules.windowsNames && IsWithin(rules, root, path)
    ensures RelativeTo(rules, root, path).Some?
    ensures Same(rules, JoinAll(root, Split(RelativeTo(rules, root, path).value, '/')), path)
  {
    var r, p := NamesOf(Components(root)), NamesOf(Components(path));
    WithinIsPrefix(rules, root, path);
    NamesHere(rules, root);
    NamesHere(rules, path);
    FoldedPrefix(rules.fold, r, p);
    var rest := SkipFrom(p, |r|);
    SkippedIsProper(p, |r|);
    if root == "" {
      KeyOfEmpty(rules, root);
    }
    var out := JoinAll(root, Split(Join(rest, '/'), '/'));
    NamesOfJoined(rules, root, rest, out);
    SameIsSameNames(rules, out, path);
  }

  lemma {:induction false} NamesOfJoined(rules: PathRules, root: string, rest: seq<string>, out: string)
    requires !rules.windowsNames && Proper(rest) && root != ""
    requires out == JoinAll(root, Split(Join(rest, '/'), '/'))
    ensures Names(rules, out) == FoldAll(rules.fold, NamesOf(Components(root)) + rest)
    ensures NamesOf(Components(out)) == NamesOf(Components(root)) + rest
    ensures Rooted(rules, out) == Rooted(rules, root)
  {
    JoinRest(root, rest);
    NamesHere(rules, out);
    ComponentsResolve(root);
    ComponentsResolve(out);
  }

  /** Joining a relative path, split again, appends its names. */
  lemma {:induction false} JoinRest(root: string, rest: seq<string>)
    requires Proper(rest) && root != ""
    ensures var out := JoinAll(root, Split(Join(rest, '/'), '/'));
      Resolve(Split(out, '/')) == Resolve(Split(root, '/')) + rest && IsAbsolute(out) == IsAbsolute(root)
  {
    if rest == [] {
      SplitPlain("", '/');
      assert [""][..0] == [];
      assert JoinAll(root, [""]) == root;
      assert Resolve(Split(root, '/')) + [] == Resolve(Split(root, '/'));
    } else {
      PlainIsFree(rest);
      SplitOfJoin(rest, '/');
      JoinAllResolves(root, rest);
    }
  }

  /** And the other way: the relative form of a joined path is what was joined. */
  lemma {:induction false} JoinedIsRelative(rules: PathRules, root: string, rest: seq<string>)
    requires !rules.windowsNames && KeyOf(rules, root) != "" && Proper(rest)
    ensures RelativeTo(rules, root, JoinAll(root, Split(Join(rest, '/'), '/'))) == Some(Join(rest, '/'))
  {
    if root == "" {
      KeyOfEmpty(rules, root);
    }
    var out := JoinAll(root, Split(Join(rest, '/'), '/'));
    var r := NamesOf(Components(root));
    NamesOfJoined(rules, root, rest, out);
    NamesHere(rules, root);
    FoldAllAppend(rules.fold, r, rest);
    WithinIsPrefix(rules, root, out);
    EmptyKey(rules, root);
    assert (r + rest)[|r|..] == rest;
  }

  lemma {:induction false} EmptyKey(rules: PathRules, path: string)
    ensures KeyOf(rules, path) == "" <==> !Rooted(rules, path) && Names(rules, path) == []
  {
    NamesArePlain(rules, path);
    JoinedStart(Names(rules, path));
  }
}
