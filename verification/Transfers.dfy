/** The plan of a move or a copy, which rule refuses it, and why its target is a good one. */
module Transfers {
  import opened Outcome
  import opened Pieces
  import opened Paths
  import opened PathLaws

  datatype Refusal = IsRoot | OutsideProject | InsideItself | NoName | AlreadyExists

  // ---------- a path, its folder and its name ----------

  /** Components as a path yields them. */
  ghost predicate WellFormed(c: seq<Component>) {
    (forall i :: 0 <= i < |c| && (c[i].RootDir? || c[i].CurDir?) ==> i == 0) &&
    (forall i :: 0 <= i < |c| && c[i].Normal? ==> Proper([c[i].name]))
  }

  lemma {:induction false} PiecesGiveNames(pieces: seq<string>)
    requires FreeOf(pieces, '/')
    ensures forall i :: 0 <= i < |ComponentsOf(pieces)| ==>
      var c := ComponentsOf(pieces)[i]; c == ParentDir || (c.Normal? && Proper([c.name]))
  {
    if pieces != [] {
      var init := pieces[..|pieces| - 1];
      assert forall i :: 0 <= i < |init| ==> init[i] == pieces[i];
      PiecesGiveNames(init);
    }
  }

  lemma {:induction false} ComponentsWellFormed(path: string)
    ensures WellFormed(Components(path))
    ensures IsAbsolute(path) <==> Components(path) != [] && Components(path)[0] == RootDir
  {
    PiecesAreFree(path, '/');
    PiecesGiveNames(Split(path, '/'));
    var rest := ComponentsOf(Split(path, '/'));
    var lead := if IsAbsolute(path) then [RootDir] else if Split(path, '/')[0] == "." then [CurDir] else [];
    var c := Components(path);
    assert c == lead + rest;
    forall i | 0 <= i < |c|
      ensures i == 0 || !(c[i].RootDir? || c[i].CurDir?)
      ensures c[i].Normal? ==> Proper([c[i].name])
    {
      if i >= |lead| {
        assert c[i] == rest[i - |lead|];
      }
    }
  }

  lemma {:induction false} InitWellFormed(c: seq<Component>)
    requires WellFormed(c) && c != []
    ensures WellFormed(c[..|c| - 1])
  {
  }

  lemma {:induction false} Dots()
    ensures '/' !in "." && '/' !in ".." && "." != "" && ".." != ""
  {
  }

  lemma {:induction false} SpellAppend(init: seq<Component>, last: Component)
    ensures Spell(init + [last]) == SpellOne(Spell(init), last)
  {
    assert (init + [last])[..|init|] == init;
  }

  predicate SpellsOut(c: seq<Component>) {
    Resolve(Split(Spell(c), '/')) == NamesOf(c) && (IsAbsolute(Spell(c)) <==> c != [] && c[0] == RootDir)
  }

  lemma {:induction false} SpelledPiece(init: seq<Component>, last: Component, piece: string)
    requires SpellsOut(init) && piece != "" && '/' !in piece
    requires init == [] ==> !last.RootDir?
    requires Spell(init + [last]) == JoinPath(Spell(init), piece)
    requires NamesOf(init + [last]) == Push(NamesOf(init), piece)
    ensures SpellsOut(init + [last])
  {
    JoinPathResolves(Spell(init), piece);
    if init != [] {
      assert (init + [last])[0] == init[0];
    }
  }

  lemma {:induction false} SpelledStep(init: seq<Component>, last: Component)
    requires SpellsOut(init)
    requires (last.RootDir? ==> init == []) && (last.Normal? ==> Proper([last.name]))
    ensures SpellsOut(init + [last])
  {
    Dots();
    SpellAppend(init, last);
    NamesOfAppend(init, last);
    match last
    case RootDir => RootResolves();
    case CurDir => SpelledPiece(init, last, ".");
    case ParentDir => SpelledPiece(init, last, "..");
    case Normal(name) =>
      assert [name][0] == name;
      SpelledPiece(init, last, name);
  }

  /** Spelling components out and reading them back resolves to the same names. */
  lemma {:induction false} SpelledResolves(c: seq<Component>)
    requires WellFormed(c)
    ensures SpellsOut(c)
  {
    if c == [] {
      SplitPlain("", '/');
      assert [""][..0] == [];
    } else {
      var init, last := c[..|c| - 1], c[|c| - 1];
      InitWellFormed(c);
      SpelledResolves(init);
      SpelledStep(init, last);
      assert init + [last] == c;
    }
  }

  lemma {:induction false} RootResolves()
    ensures Resolve(Split("/", '/')) == []
  {
    SplitTrailing("/");
    assert "/"[..0] == "";
    SplitPlain("", '/');
    ResolveAppend([""], "");
    assert [""][..0] == [];
  }

  /** A path that ends in a name is that name in its folder. */
  lemma {:induction false} NameInParent(rules: PathRules, path: string)
    requires !rules.windowsNames && FileName(path).Some?
    ensures Parent(path).Some? && Proper([FileName(path).value])
    ensures Rooted(rules, path) == Rooted(rules, Parent(path).value)
    ensures Names(rules, path) == Names(rules, Parent(path).value) + [rules.fold(FileName(path).value)]
  {
    var c := Components(path);
    var init, name := c[..|c| - 1], c[|c| - 1].name;
    ComponentsWellFormed(path);
    InitWellFormed(c);
    SpelledResolves(init);
    ComponentsResolve(path);
    FoldAllAppend(rules.fold, NamesOf(init), [name]);
    assert FoldAll(rules.fold, [name]) == [rules.fold(name)];
    if init != [] {
      assert init[0] == c[0];
    }
  }

  /** A name put into a folder. */
  lemma {:induction false} NameInFolder(rules: PathRules, into: string, name: string)
    requires !rules.windowsNames && Proper([name])
    ensures Rooted(rules, JoinPath(into, name)) == Rooted(rules, into)
    ensures Names(rules, JoinPath(into, name)) == Names(rules, into) + [rules.fold(name)]
  {
    assert [name][0] == name;
    JoinPathResolves(into, name);
    FoldAllAppend(rules.fold, Resolve(Split(into, '/')), [name]);
    assert FoldAll(rules.fold, [name]) == [rules.fold(name)];
  }

  lemma {:induction false} DecimalIsPlain(n: nat)
    ensures forall i :: 0 <= i < |Decimal(n)| ==> '0' <= Decimal(n)[i] <= '9'
  {
    if n >= 10 {
      DecimalIsPlain(n / 10);
    }
  }

  lemma {:induction false} CandidateIsName(name: string, n: nat)
    requires Proper([name])
    ensures Proper([Candidate(name, n)])
  {
    assert [name][0] == name;
    var (stem, ext) := StemAndExt(name);
    var r := Candidate(name, n);
    DecimalIsPlain(n);
    if n > 0 {
      var middle := if n == 1 then " copy" else " copy " + Decimal(n);
      assert r == stem + middle + ext;
      assert r[|stem|] == middle[0] == ' ';
      assert '/' !in middle;
      forall i | 0 <= i < |r|
        ensures r[i] != '/'
      {
        if i < |stem| {
          assert r[i] == (stem + ext)[i];
        } else if i < |stem| + |middle| {
          assert r[i] == middle[i - |stem|];
        } else {
          assert r[i] == (stem + ext)[i - |middle|];
        }
      }
    }
  }

  // ---------- planning ----------

  /** The names below `into` that are taken are finitely many. */
  ghost function TakenNames(into: string, disk: set<string>): (taken: set<string>)
    ensures forall s :: JoinPath(into, s) in disk ==> s in taken
  {
    var taken := disk + (set p | p in disk && |into| <= |p| :: p[|into|..]) + (set p | p in disk && |into| < |p| :: p[|into| + 1..]);
    forall s | JoinPath(into, s) in disk
      ensures s in taken
    {
      var p := JoinPath(into, s);
      assert p == s || p[|into|..] == s || p[|into| + 1..] == s;
    }
    taken
  }

  /** Every name tried before the `n`th is taken. */
  ghost predicate FirstFree(into: string, name: string, n: nat, disk: set<string>) {
    forall k :: 0 <= k < n ==> JoinPath(into, Candidate(name, k)) in disk
  }

  /** A source that lies in `into` is found there under every name that the rules take for its own. */
  ghost predicate FoundUnderEveryName(rules: PathRules, from: string, into: string, disk: set<string>) {
    forall name :: Proper([name]) && Same(rules, from, JoinPath(into, name)) ==> JoinPath(into, name) in disk
  }

  /** The first three rules: the source is not the root, the target folder is in the project, and it is
      not in the source. */
  predicate Allowed(rules: PathRules, root: string, from: string, into: string) {
    !Same(rules, from, root) && IsWithin(rules, root, into) && !IsWithin(rules, from, into)
  }

  predicate SameFolder(rules: PathRules, from: string, into: string) {
    Parent(from).Some? && Same(rules, Parent(from).value, into)
  }

  /** `r` is the path to go to, `None` for a move that stays, or the first rule that is broken. */
  method PlanTransfer(rules: PathRules, root: string, from: string, into: string, copy: bool, disk: set<string>)
    returns (r: Result<Option<string>, Refusal>)
    requires !rules.windowsNames
    ensures r == Err(IsRoot) <==> Same(rules, from, root)
    ensures r == Err(OutsideProject) <==> !Same(rules, from, root) && !IsWithin(rules, root, into)
    ensures r == Err(InsideItself) <==>
      !Same(rules, from, root) && IsWithin(rules, root, into) && IsWithin(rules, from, into)
    ensures r == Err(NoName) <==> Allowed(rules, root, from, into) && FileName(from).None?
    ensures r == Ok(None) <==>
      Allowed(rules, root, from, into) && FileName(from).Some? && !copy && SameFolder(rules, from, into)
    ensures r == Err(AlreadyExists) <==>
      Allowed(rules, root, from, into) && FileName(from).Some? && !copy && !SameFolder(rules, from, into) &&
      JoinPath(into, FileName(from).value) in disk
    ensures r.Ok? && r.value.Some? ==>
      var to := r.value.value;
      to !in disk && IsWithin(rules, root, to) &&
      (!copy ==> to == JoinPath(into, FileName(from).value) && !IsWithin(rules, from, to)) &&
      (copy ==> exists n: nat :: FirstFree(into, FileName(from).value, n, disk) && to == JoinPath(into, Candidate(FileName(from).value, n))) &&
      (IsWithin(rules, from, to) ==> Same(rules, from, to)) &&
      (FoundUnderEveryName(rules, from, into, disk) ==> !IsWithin(rules, from, to))
  {
    if Same(rules, from, root) {
      return Err(IsRoot);
    }
    if !IsWithin(rules, root, into) {
      return Err(OutsideProject);
    }
    if !TransferAllowed(rules, from, into) {
      return Err(InsideItself);
    }
    var named := FileName(from);
    if named.None? {
      return Err(NoName);
    }
    var name := named.value;
    NameInParent(rules, from);
    var sameFolder := SameFolder(rules, from, into);
    if copy {
      var unique, n := CopyName(name, s => JoinPath(into, s) in disk, TakenNames(into, disk));
      CandidateIsName(name, n);
      Lands(rules, root, from, into, unique);
      return Ok(Some(JoinPath(into, unique)));
    }
    if sameFolder {
      return Ok(None);
    }
    var to := JoinPath(into, name);
    if to in disk {
      return Err(AlreadyExists);
    }
    Lands(rules, root, from, into, name);
    MovesOut(rules, from, into);
    return Ok(Some(to));
  }

  /** A name put into an allowed folder is inside the project, and inside the source only by being it. */
  lemma {:induction false} Lands(rules: PathRules, root: string, from: string, into: string, name: string)
    requires !rules.windowsNames && Proper([name])
    requires IsWithin(rules, root, into) && !IsWithin(rules, from, into)
    ensures IsWithin(rules, root, JoinPath(into, name))
    ensures IsWithin(rules, from, JoinPath(into, name)) ==> Same(rules, from, JoinPath(into, name))
  {
    var to := JoinPath(into, name);
    NameInFolder(rules, into, name);
    WithinIsPrefix(rules, root, into);
    WithinIsPrefix(rules, root, to);
    WithinIsPrefix(rules, from, into);
    WithinIsPrefix(rules, from, to);
    SameIsSameNames(rules, from, to);
  }

  /** A move to another folder never lands on the item itself. */
  lemma {:induction false} MovesOut(rules: PathRules, from: string, into: string)
    requires !rules.windowsNames && FileName(from).Some? && Parent(from).Some? && !SameFolder(rules, from, into)
    requires !IsWithin(rules, from, into) && Proper([FileName(from).value])
    ensures !IsWithin(rules, from, JoinPath(into, FileName(from).value))
  {
    var name := FileName(from).value;
    var to := JoinPath(into, name);
    NameInFolder(rules, into, name);
    NameInParent(rules, from);
    WithinIsPrefix(rules, from, into);
    WithinIsPrefix(rules, from, to);
    SameIsSameNames(rules, Parent(from).value, into);
    if IsWithin(rules, from, to) {
      LastOfPrefix(Names(rules, Parent(from).value), Names(rules, into), rules.fold(name));
    }
  }

  lemma {:induction false} LastOfPrefix<T>(a: seq<T>, b: seq<T>, x: T)
    requires a + [x] <= b + [x] && !(a + [x] <= b)
    ensures a == b
  {
    if |a| >= |b| {
      assert (a + [x])[..|a|] == (b + [x])[..|b|];
    }
  }

  // ---------- names and folders ----------

  lemma {:induction false} OneMoreComponent(path: string, piece: string)
    requires '/' !in piece
    ensures Components(path + ['/'] + piece) == [RootDir] + ComponentsOf(Split(path, '/') + [piece]) ||
      Components(path + ['/'] + piece) == ComponentsOf(Split(path, '/') + [piece]) ||
      Components(path + ['/'] + piece) == [CurDir] + ComponentsOf(Split(path, '/') + [piece])
  {
    SplitAppend(path, '/', piece);
    SplitPlain(piece, '/');
    assert [] + ComponentsOf(Split(path, '/') + [piece]) == ComponentsOf(Split(path, '/') + [piece]);
  }

  /** What stands behind the last slash is a path's name, unless it is dots. */
  lemma {:induction false} FileNameIs(path: string, name: string)
    requires Proper([name])
    ensures FileName(path + "/" + name) == Some(name)
    ensures FileName(path + "/..") == None
  {
    assert [name][0] == name;
    assert path + "/" + name == path + ['/'] + name && path + "/.." == path + ['/'] + "..";
    OneMoreComponent(path, name);
    OneMoreComponent(path, "..");
    var pieces := Split(path, '/');
    assert (pieces + [name])[..|pieces|] == pieces && (pieces + [".."])[..|pieces|] == pieces;
  }

  /** A move stays in its folder exactly when the item's names are the target's and its own. */
  lemma {:induction false} SameFolderMeans(rules: PathRules, from: string, into: string)
    requires !rules.windowsNames && FileName(from).Some?
    ensures SameFolder(rules, from, into) <==>
      Rooted(rules, into) == Rooted(rules, from) && Names(rules, from) == Names(rules, into) + [rules.fold(FileName(from).value)]
  {
    NameInParent(rules, from);
    SameIsSameNames(rules, Parent(from).value, into);
    SameFront(Names(rules, Parent(from).value), Names(rules, into), rules.fold(FileName(from).value));
  }

  lemma {:induction false} SameFront<T>(a: seq<T>, b: seq<T>, x: T)
    ensures a == b <==> a + [x] == b + [x]
  {
    assert (a + [x])[..|a|] == a && (b + [x])[..|b|] == b;
  }
}
