/** What spellings mean, segment by segment, and how the names of copies are made. */
module PathSpellings {
  import opened Outcome
  import opened Chars
  import opened Pieces
  import opened Paths
  import opened PathLaws

  // ---------- separators ----------

  predicate BothSeparate(a: char, b: char) {
    (a == '/' || a == '\\') && (b == '/' || b == '\\')
  }

  /** Where names follow Windows, slashes and back slashes are spelled one for the other at will. */
  lemma {:induction false} EitherSeparates(rules: PathRules, a: string, b: string)
    requires rules.windowsNames && |a| == |b|
    requires forall i :: 0 <= i < |a| ==> a[i] == b[i] || BothSeparate(a[i], b[i])
    ensures Same(rules, a, b)
  {
    assert Unify(true, a) == Unify(true, b);
  }

  lemma {:induction false} UnifyAppend(windowsNames: bool, a: string, b: string)
    ensures Unify(windowsNames, a + b) == Unify(windowsNames, a) + Unify(windowsNames, b)
  {
  }

  lemma {:induction false} UnifyPlain(windowsNames: bool, s: string)
    requires windowsNames ==> '\\' !in s
    ensures Unify(windowsNames, s) == s
  {
  }

  /** A segment: no slash in it, nor a back slash where that separates. */
  predicate IsSegment(rules: PathRules, piece: string) {
    '/' !in piece && (rules.windowsNames ==> '\\' !in piece)
  }

  /** One more segment behind a path: nothing and a dot change nothing, two dots take the last name off, and
      anything else is one more name. */
  lemma {:induction false} SegmentMeans(rules: PathRules, path: string, piece: string)
    requires IsSegment(rules, piece)
    ensures var (before, after) := (Names(rules, path), Names(rules, path + "/" + piece));
      after ==
      if piece == "" || piece == "." then before
      else if piece == ".." then (if before == [] then [] else before[..|before| - 1])
      else before + [rules.fold(piece)]
    ensures Rooted(rules, path + "/" + piece) == (path == "" || Rooted(rules, path))
  {
    var head := Unify(rules.windowsNames, path);
    UnifySegment(rules.windowsNames, path, piece);
    ResolveSegment(head, piece);
    PushFolds(rules.fold, Resolve(Split(head, '/')), piece);
  }

  lemma {:induction false} UnifySegment(windowsNames: bool, path: string, piece: string)
    requires windowsNames ==> '\\' !in piece
    ensures var unified := Unify(windowsNames, path + "/" + piece);
      unified == Unify(windowsNames, path) + ['/'] + piece &&
      IsAbsolute(unified) == (path == "" || IsAbsolute(Unify(windowsNames, path)))
  {
    UnifyAppend(windowsNames, path + "/", piece);
    UnifyAppend(windowsNames, path, "/");
    UnifyPlain(windowsNames, piece);
    UnifyPlain(windowsNames, "/");
  }

  lemma {:induction false} ResolveSegment(head: string, piece: string)
    requires '/' !in piece
    ensures Resolve(Split(head + ['/'] + piece, '/')) == Push(Resolve(Split(head, '/')), piece)
  {
    SplitAppend(head, '/', piece);
    SplitPlain(piece, '/');
    ResolveAppend(Split(head, '/'), piece);
  }

  lemma {:induction false} PushFolds(f: string -> string, stack: seq<string>, piece: string)
    ensures FoldAll(f, Push(stack, piece)) ==
      if piece == "" || piece == "." then FoldAll(f, stack)
      else if piece == ".." then (if stack == [] then [] else FoldAll(f, stack)[..|stack| - 1])
      else FoldAll(f, stack) + [f(piece)]
  {
  }

  /** A single segment that is no dots is one name, */
  lemma {:induction false} NameMeans(rules: PathRules, name: string)
    requires IsSegment(rules, name) && name != "" && name != "." && name != ".."
    ensures Names(rules, name) == [rules.fold(name)] && !Rooted(rules, name)
    ensures Names(rules, "/" + name) == [rules.fold(name)] && Rooted(rules, "/" + name)
  {
    UnifyPlain(rules.windowsNames, name);
    SplitPlain(name, '/');
    ResolveAppend([], name);
    assert [] + [name] == [name];
    assert FoldAll(rules.fold, [name]) == [rules.fold(name)];
    SegmentMeans(rules, "", name);
    NoNames(rules);
    assert "" + "/" + name == "/" + name;
    UnifyAppend(rules.windowsNames, "/", name);
  }

  lemma {:induction false} NoNames(rules: PathRules)
    ensures Names(rules, "") == []
  {
    SplitPlain("", '/');
    ResolveAppend([], "");
    assert [] + [""] == [""];
  }

  /** and two names in one folder are one entry exactly when they fold alike. */
  lemma {:induction false} SiblingsAreSame(rules: PathRules, folder: string, a: string, b: string)
    requires IsSegment(rules, a) && a != "" && a != "." && a != ".."
    requires IsSegment(rules, b) && b != "" && b != "." && b != ".."
    ensures Same(rules, folder + "/" + a, folder + "/" + b) <==> rules.fold(a) == rules.fold(b)
  {
    SegmentMeans(rules, folder, a);
    SegmentMeans(rules, folder, b);
    SameIsSameNames(rules, folder + "/" + a, folder + "/" + b);
    OneMoreDiffers(Names(rules, folder), rules.fold(a), rules.fold(b));
  }

  lemma {:induction false} OneMoreDiffers<T>(s: seq<T>, x: T, y: T)
    ensures s + [x] == s + [y] <==> x == y
  {
    assert (s + [x])[|s|] == x && (s + [y])[|s|] == y;
  }

  // ---------- copies ----------

  /** The digits of a number, the first not zero unless it is the only one. */
  lemma {:induction false} DecimalSays(n: nat)
    ensures AllDigits(Decimal(n)) && Value(Decimal(n)) == n
    ensures n > 0 ==> Decimal(n)[0] != '0'
  {
    var s := Decimal(n);
    if n < 10 {
      assert s[..0] == "" && Digit(s[0]) == n;
    } else {
      DecimalSays(n / 10);
      assert s[..|s| - 1] == Decimal(n / 10) && Digit(s[|s| - 1]) == n % 10;
    }
  }

  lemma {:induction false} LastIndexIs(s: string, c: char, i: nat)
    requires i < |s| && s[i] == c && c !in s[i + 1..]
    ensures LastIndexOf(s, c) == Some(i)
  {
    if i < |s| - 1 {
      var init := s[..|s| - 1];
      assert s[|s| - 1] == s[i + 1..][|s| - 2 - i];
      assert init[i + 1..] == s[i + 1..][..|s| - 2 - i];
      LastIndexIs(init, c, i);
    }
  }

  lemma {:induction false} NoIndex(s: string, c: char)
    requires c !in s
    ensures LastIndexOf(s, c) == None
  {
    if s != "" {
      NoIndex(s[..|s| - 1], c);
    }
  }

  /** The `n`th copy of a name: ` copy` and from the second on the number stand behind the stem, before the
      last dot and what follows it. */
  lemma {:induction false} CopyOfNamed(stem: string, ext: string, n: nat)
    requires stem != "" && '.' !in ext && n > 0
    ensures var number := if n == 1 then "" else " " + Decimal(n);
      Candidate(stem + "." + ext, n) == stem + " copy" + number + "." + ext
  {
    var name := stem + "." + ext;
    assert name[|stem| + 1..] == ext;
    LastIndexIs(name, '.', |stem|);
    assert name[..|stem|] == stem && name[|stem|..] == "." + ext;
    Together(stem, if n == 1 then "" else Decimal(n), "." + ext, ext);
  }

  lemma {:induction false} Together(stem: string, number: string, dotted: string, ext: string)
    requires dotted == "." + ext
    ensures stem + " copy" + dotted == stem + " copy" + "" + "." + ext
    ensures stem + " copy " + number + dotted == stem + " copy" + (" " + number) + "." + ext
  {
    assert " copy " == " copy" + " ";
  }

  /** A name without a dot, or with only a leading one, is all stem. */
  lemma {:induction false} CopyOfUnnamed(name: string, n: nat)
    requires name != "" && '.' !in name[1..] && n > 0
    ensures Candidate(name, n) == name + " copy" + if n == 1 then "" else " " + Decimal(n)
    ensures Candidate(name, 0) == name
  {
    if name[0] == '.' {
      LastIndexIs(name, '.', 0);
    } else {
      assert name == [name[0]] + name[1..];
      NoIndex(name, '.');
    }
    AllStem(name, Decimal(n));
  }

  lemma {:induction false} AllStem(stem: string, number: string)
    ensures stem + " copy" + "" == stem + " copy"
    ensures stem + " copy " + number + "" == stem + " copy" + (" " + number)
  {
    assert " copy " == " copy" + " ";
  }

  // ---------- relative paths ----------

  /** A path has a relative form exactly within the root, */
  lemma {:induction false} RelativeInside(rules: PathRules, root: string, path: string)
    ensures RelativeTo(rules, root, path).Some? <==> IsWithin(rules, root, path)
  {
  }

  /** and a segment is joined with one slash, or takes the place of a path if it begins with one. */
  lemma {:induction false} JoinMeans(path: string, name: string)
    ensures JoinPath(path, name) ==
      if |name| > 0 && name[0] == '/' then name
      else if path == "" || path[|path| - 1] == '/' then path + name
      else path + "/" + name
  {
  }
}
