/**
 * Comparison keys of paths, the tests made on them as strings, relative paths and their joining, and the
 * names of copies.
 */
module Paths {
  import opened Outcome
  import opened Pieces

  /** Case folding and Unicode normalisation of one name: whatever they do, a name stays a name. */
  ghost predicate IsFold(f: string -> string) {
    forall s :: s != "" && '/' !in s ==> f(s) != "" && '/' !in f(s)
  }

  datatype AnyRules = AnyRules(windowsNames: bool, fold: string -> string)

  /** Whether back slashes separate too, and what is done to a name before it is compared. */
  type PathRules = r: AnyRules | IsFold(r.fold) ghost witness AnyRules(false, s => s)

  function Unify(windowsNames: bool, raw: string): (u: string)
    ensures |u| == |raw|
  {
    if windowsNames then seq(|raw|, i requires 0 <= i < |raw| => if raw[i] == '\\' then '/' else raw[i]) else raw
  }

  predicate IsAbsolute(unified: string) {
    unified != "" && unified[0] == '/'
  }

  /** One more segment of a path: empty and `.` are nothing, `..` takes one off. */
  function Push(stack: seq<string>, segment: string): seq<string> {
    if segment == "" || segment == "." then stack
    else if segment == ".." then (if stack == [] then [] else stack[..|stack| - 1])
    else stack + [segment]
  }

  function Resolve(pieces: seq<string>): (stack: seq<string>) {
    if pieces == [] then [] else Push(Resolve(pieces[..|pieces| - 1]), pieces[|pieces| - 1])
  }

  function FoldAll(f: string -> string, segments: seq<string>): (r: seq<string>)
    ensures |r| == |segments|
  {
    seq(|segments|, i requires 0 <= i < |segments| => f(segments[i]))
  }

  /** The folded names a path resolves to. */
  function Names(rules: PathRules, path: string): seq<string> {
    FoldAll(rules.fold, Resolve(Split(Unify(rules.windowsNames, path), '/')))
  }

  predicate Rooted(rules: PathRules, path: string) {
    IsAbsolute(Unify(rules.windowsNames, path))
  }

  function KeyText(rooted: bool, names: seq<string>): string {
    (if rooted then "/" else "") + Join(names, '/')
  }

  /** The comparison key. */
  function KeyOf(rules: PathRules, path: string): string {
    KeyText(Rooted(rules, path), Names(rules, path))
  }

  method Key(rules: PathRules, path: string) returns (key: string)
    ensures key == KeyOf(rules, path)
  {
    var unified := Unify(rules.windowsNames, path);
    var absolute := IsAbsolute(unified);
    var pieces := Split(unified, '/');
    var segments := ResolveAll(pieces);
    var names := FoldAll(rules.fold, segments);
    key := Join(names, '/');
    if absolute {
      key := "/" + key;
    }
    assert "" + Join(names, '/') == Join(names, '/');
  }

  /** The segment stack. */
  method ResolveAll(pieces: seq<string>) returns (segments: seq<string>)
    ensures segments == Resolve(pieces)
  {
    segments := [];
    for i := 0 to |pieces|
      invariant segments == Resolve(pieces[..i])
    {
      assert pieces[..i + 1][..i] == pieces[..i];
      if pieces[i] == "" || pieces[i] == "." {
      } else if pieces[i] == ".." {
        if segments != [] {
          segments := segments[..|segments| - 1];
        }
      } else {
        segments := segments + [pieces[i]];
      }
    }
    assert pieces[..|pieces|] == pieces;
  }

  predicate Same(rules: PathRules, a: string, b: string) {
    KeyOf(rules, a) == KeyOf(rules, b)
  }

  predicate KeyWithin(a: string, p: string) {
    if a == "" || p == "" then false
    else if a == p then true
    else
      var prefix := if a[|a| - 1] == '/' then a else a + "/";
      prefix <= p
  }

  /** Its key is the ancestor's key, or begins with that and a slash. */
  predicate IsWithin(rules: PathRules, ancestor: string, path: string) {
    KeyWithin(KeyOf(rules, ancestor), KeyOf(rules, path))
  }

  predicate Overlaps(rules: PathRules, a: string, b: string) {
    IsWithin(rules, a, b) || IsWithin(rules, b, a)
  }

  predicate TransferAllowed(rules: PathRules, source: string, destination: string) {
    !IsWithin(rules, source, destination)
  }

  // ---------- components, as the standard library reads a Unix path ----------

  datatype Component = RootDir | CurDir | ParentDir | Normal(name: string)

  function ComponentOf(piece: string): Component {
    if piece == ".." then ParentDir else Normal(piece)
  }

  function ComponentsOf(pieces: seq<string>): seq<Component> {
    if pieces == [] then []
    else
      var init, last := ComponentsOf(pieces[..|pieces| - 1]), pieces[|pieces| - 1];
      if last == "" || last == "." then init else init + [ComponentOf(last)]
  }

  /** Repeated separators and `.` do not count, except a leading `.`. */
  function Components(path: string): seq<Component> {
    var pieces := Split(path, '/');
    (if IsAbsolute(path) then [RootDir] else if pieces[0] == "." then [CurDir] else []) + ComponentsOf(pieces)
  }

  /** One more component of a path: a name is added, `..` takes one off, the others are nothing. */
  function Walk(stack: seq<string>, c: Component): seq<string> {
    match c
    case Normal(name) => stack + [name]
    case ParentDir => if stack == [] then [] else stack[..|stack| - 1]
    case _ => stack
  }

  function NamesOf(components: seq<Component>): (stack: seq<string>) {
    if components == [] then [] else Walk(NamesOf(components[..|components| - 1]), components[|components| - 1])
  }

  method NormalComponents(path: string) returns (out: seq<string>)
    ensures out == NamesOf(Components(path))
  {
    out := [];
    var components := Components(path);
    for i := 0 to |components|
      invariant out == NamesOf(components[..i])
    {
      assert components[..i + 1][..i] == components[..i];
      match components[i]
      case Normal(name) => out := out + [name];
      case ParentDir => if out != [] { out := out[..|out| - 1]; }
      case _ =>
    }
    assert components[..|components|] == components;
  }

  /** The path's own name, if it ends in one. */
  function FileName(path: string): Option<string> {
    var c := Components(path);
    if c != [] && c[|c| - 1].Normal? then Some(c[|c| - 1].name) else None
  }

  function SpellOne(path: string, c: Component): string {
    match c
    case RootDir => "/"
    case CurDir => JoinPath(path, ".")
    case ParentDir => JoinPath(path, "..")
    case Normal(name) => JoinPath(path, name)
  }

  function Spell(components: seq<Component>): string {
    if components == [] then "" else SpellOne(Spell(components[..|components| - 1]), components[|components| - 1])
  }

  /** The folder a path is in, where it has one. */
  function Parent(path: string): Option<string> {
    var c := Components(path);
    if c == [] || c[|c| - 1].RootDir? then None else Some(Spell(c[..|c| - 1]))
  }

  /** A path with one more name; an absolute one replaces it. */
  function JoinPath(path: string, name: string): string {
    if IsAbsolute(name) then name
    else if path == "" || path[|path| - 1] == '/' then path + name
    else path + "/" + name
  }

  // ---------- relative paths ----------

  function SkipFrom<T>(s: seq<T>, n: nat): seq<T> {
    if n <= |s| then s[n..] else []
  }

  /** The names of `path` behind those of `root`, where the latter are a prefix after folding. */
  function RelativeTo(rules: PathRules, root: string, path: string): Option<string> {
    if !IsWithin(rules, root, path) then None
    else Some(Join(SkipFrom(NamesOf(Components(path)), |NamesOf(Components(root))|), '/'))
  }

  function JoinAll(root: string, names: seq<string>): string {
    if names == [] then root
    else
      var out, last := JoinAll(root, names[..|names| - 1]), names[|names| - 1];
      if last == "" then out else JoinPath(out, last)
  }

  /** A root-relative path joined onto `root`. */
  method JoinRelative(root: string, rel: string) returns (out: string)
    ensures out == JoinAll(root, Split(rel, '/'))
  {
    out := root;
    var segments := Split(rel, '/');
    for i := 0 to |segments|
      invariant out == JoinAll(root, segments[..i])
    {
      assert segments[..i + 1][..i] == segments[..i];
      if segments[i] != "" {
        out := JoinPath(out, segments[i]);
      }
    }
    assert segments[..|segments|] == segments;
  }

  // ---------- copies ----------

  function DigitChar(d: nat): char
    requires d < 10
  {
    ('0' as int + d) as char
  }

  function Decimal(n: nat): (s: string)
    ensures s != ""
  {
    if n < 10 then [DigitChar(n)] else Decimal(n / 10) + [DigitChar(n % 10)]
  }

  /** The last position of `c`, or none. */
  function LastIndexOf(s: string, c: char): (r: Option<nat>)
    ensures r.Some? ==> r.value < |s| && s[r.value] == c
  {
    if s == "" then None
    else if s[|s| - 1] == c then Some(|s| - 1)
    else LastIndexOf(s[..|s| - 1], c)
  }

  /** A name's stem and its extension, dot included; a leading dot starts no extension. */
  function StemAndExt(name: string): (r: (string, string))
    ensures r.0 + r.1 == name
  {
    match LastIndexOf(name, '.')
    case None => (name, "")
    case Some(i) => if i == 0 then (name, "") else (name[..i], name[i..])
  }

  /** The `n`th name tried for a copy. */
  function Candidate(name: string, n: nat): string {
    var (stem, ext) := StemAndExt(name);
    if n == 0 then name
    else if n == 1 then stem + " copy" + ext
    else stem + " copy " + Decimal(n) + ext
  }

  /** The first candidate that does not exist. Candidates differ, so the search ends within one more step
      than there are names in `taken`. */
  method CopyName(name: string, exists_: string -> bool, ghost taken: set<string>) returns (r: string, ghost n: nat)
    requires forall s :: exists_(s) ==> s in taken
    ensures r == Candidate(name, n) && !exists_(r) && n <= |taken|
    ensures forall k :: 0 <= k < n ==> exists_(Candidate(name, k))
  {
    if !exists_(name) {
      return name, 0;
    }
    var (stem, ext) := StemAndExt(name);
    var i := 1;
    TriedAreTaken(name, exists_, taken, 1);
    while true
      invariant 1 <= i <= |taken| && forall k :: 0 <= k < i ==> exists_(Candidate(name, k))
      decreases |taken| - i
    {
      var candidate := if i == 1 then stem + " copy" + ext else stem + " copy " + Decimal(i) + ext;
      if !exists_(candidate) {
        return candidate, i;
      }
      assert candidate == Candidate(name, i);
      TriedAreTaken(name, exists_, taken, i + 1);
      i := i + 1;
    }
  }

  lemma {:induction false} DecimalInjective(m: nat, n: nat)
    requires Decimal(m) == Decimal(n)
    ensures m == n
  {
    if m >= 10 && n >= 10 {
      var a, b := Decimal(m / 10), Decimal(n / 10);
      assert Decimal(m)[..|Decimal(m)| - 1] == a && Decimal(n)[..|Decimal(n)| - 1] == b;
      assert Decimal(m)[|Decimal(m)| - 1] == DigitChar(m % 10) && Decimal(n)[|Decimal(n)| - 1] == DigitChar(n % 10);
      DecimalInjective(m / 10, n / 10);
    }
  }

  lemma {:induction false} Wedged(a: string, x: string, y: string, b: string)
    requires a + x + b == a + y + b
    ensures x == y
  {
    var s, t := a + x + b, a + y + b;
    assert |x| == |y|;
    assert s[|a|..|a| + |x|] == x && t[|a|..|a| + |y|] == y;
  }

  /** No two candidates are the same name. */
  lemma {:induction false} CandidatesDiffer(name: string, m: nat, n: nat)
    requires m < n
    ensures Candidate(name, m) != Candidate(name, n)
  {
    var (stem, ext) := StemAndExt(name);
    if m >= 2 && Candidate(name, m) == Candidate(name, n) {
      Wedged(stem + " copy ", Decimal(m), Decimal(n), ext);
      DecimalInjective(m, n);
    }
  }

  lemma {:induction false} TriedAreTaken(name: string, exists_: string -> bool, taken: set<string>, n: nat)
    requires forall s :: exists_(s) ==> s in taken
    requires forall k :: 0 <= k < n ==> exists_(Candidate(name, k))
    ensures n <= |taken|
  {
    var tried := TriedSet(name, n);
    assert tried <= taken;
    Fewer(tried, taken);
  }

  ghost function TriedSet(name: string, n: nat): (s: set<string>)
    ensures |s| == n
    ensures forall x :: x in s <==> exists k :: 0 <= k < n && Candidate(name, k) == x
  {
    if n == 0 then {}
    else
      (forall k | 0 <= k < n - 1 ensures Candidate(name, k) != Candidate(name, n - 1) { CandidatesDiffer(name, k, n - 1); }
       TriedSet(name, n - 1) + {Candidate(name, n - 1)})
  }

  lemma {:induction false} Fewer<T>(a: set<T>, b: set<T>)
    requires a <= b
    ensures |a| <= |b|
  {
    assert b == a + (b - a);
  }
}
