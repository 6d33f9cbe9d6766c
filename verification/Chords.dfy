/** Chords as they are written in a key bindings file: reading and printing them. */
module Chords {
  import opened Outcome
  import opened Pieces
  import opened Chars
  import opened Paths

  datatype Chord = Chord(ctrl: bool, shift: bool, alt: bool, key: string)

  datatype Modifiers = Modifiers(ctrl: bool, shift: bool, alt: bool)

  const NONE := Modifiers(false, false, false)

  /** Names that are no keys. */
  const MODIFIER_NAMES: set<string> := {"ctrl", "control", "shift", "alt", "meta", "cmd", "command", "option"}

  /** One written modifier, added to those read so far. */
  function WithModifier(m: Modifiers, part: string): Option<Modifiers> {
    var word := Lower(part);
    if word in {"ctrl", "control", "cmd", "command", "meta", "super"} then Some(m.(ctrl := true))
    else if word == "shift" then Some(m.(shift := true))
    else if word in {"alt", "option", "opt"} then Some(m.(alt := true))
    else None
  }

  /** The modifiers of a chord; parts that are empty once trimmed do not count. */
  function ReadModifiers(parts: seq<string>): Option<Modifiers> {
    if parts == [] then Some(NONE)
    else
      var before, part := ReadModifiers(parts[..|parts| - 1]), Trim(parts[|parts| - 1]);
      if before.None? || part == "" then before else WithModifier(before.value, part)
  }

  function Alias(word: string): string {
    if word == "esc" then "Escape"
    else if word == "return" then "Enter"
    else if word == "del" then "Delete"
    else if word == "up" then "ArrowUp"
    else if word == "down" then "ArrowDown"
    else if word == "left" then "ArrowLeft"
    else if word == "right" then "ArrowRight"
    else if word == "pgup" then "PageUp"
    else if word == "pgdn" || word == "pgdown" then "PageDown"
    else if word == "space" || word == "spacebar" then "Space"
    else ""
  }

  /** A key's token: a lone character and a name's first letter are capital, some names have short forms. */
  function NormaliseKey(key: string): string
    requires key != ""
  {
    if |key| > 1 && Alias(Lower(key)) != "" then Alias(Lower(key)) else [ToAsciiUpper(key[0])] + key[1..]
  }

  /** A token cut in two: what stands for the modifiers, and what stands for the key, which `+` itself can be. */
  function Halves(token: string): (string, string) {
    if |token| >= 2 && token[|token| - 2..] == "++" then (token[..|token| - 2], "+")
    else if token == "+" then ("", "+")
    else
      match LastIndexOf(token, '+')
      case None => ("", token)
      case Some(i) => (token[..i], token[i + 1..])
  }

  predicate IsKey(key: string) {
    key != "" && Lower(key) !in MODIFIER_NAMES
  }

  /** `None` if some modifier is not known or nothing is left to be the key. */
  function ParseChord(token: string): Option<Chord> {
    var (mods, rest) := Halves(Trim(token));
    var m, key := ReadModifiers(Split(mods, '+')), Trim(rest);
    if m.None? || !IsKey(key) then None
    else Some(Chord(m.value.ctrl, m.value.shift, m.value.alt, NormaliseKey(key)))
  }

  method Parse(token: string) returns (r: Option<Chord>)
    ensures r == ParseChord(token)
  {
    var (mods, rest) := Halves(Trim(token));
    var parts := Split(mods, '+');
    var m := NONE;
    for i := 0 to |parts|
      invariant ReadModifiers(parts[..i]) == Some(m)
    {
      assert parts[..i + 1][..i] == parts[..i];
      var part := Trim(parts[i]);
      if part != "" {
        var read := WithModifier(m, part);
        if read.None? {
          UnknownStays(parts, i + 1);
          return None;
        }
        m := read.value;
      }
    }
    assert parts[..|parts|] == parts;
    var key := Trim(rest);
    if !IsKey(key) {
      return None;
    }
    return Some(Chord(m.ctrl, m.shift, m.alt, NormaliseKey(key)));
  }

  lemma {:induction false} UnknownStays(parts: seq<string>, n: nat)
    requires n <= |parts| && ReadModifiers(parts[..n]).None?
    ensures ReadModifiers(parts).None?
    decreases |parts|
  {
    if n < |parts| {
      var init := parts[..|parts| - 1];
      assert init[..n] == parts[..n];
      UnknownStays(init, n);
    } else {
      assert parts[..n] == parts;
    }
  }

  /** How a chord is printed: modifiers in one order. */
  function Print(c: Chord): string {
    (if c.ctrl then "Ctrl+" else "") + (if c.shift then "Shift+" else "") + (if c.alt then "Alt+" else "") + c.key
  }

  /** Whether a chord may be bound at all: some keys alone are the interface's own. */
  predicate Bindable(c: Chord) {
    c.ctrl || c.alt || c.shift || c.key !in {"Escape", "Space", "Enter", "Tab", "Backspace"}
  }

  // ---------- printing and parsing undo each other ----------

  /** Keys as parsing leaves them. */
  predicate IsToken(key: string) {
    IsKey(key) && Trimmed(key) && NormaliseKey(key) == key && ('+' in key ==> key == "+")
  }

  lemma {:induction false} LowerUpper(c: char)
    ensures ToAsciiLower(ToAsciiUpper(c)) == ToAsciiLower(c)
    ensures ToAsciiUpper(ToAsciiUpper(c)) == ToAsciiUpper(c)
    ensures IsWhitespace(ToAsciiUpper(c)) <==> IsWhitespace(c)
    ensures ToAsciiUpper(c) == '+' <==> c == '+'
  {
  }

  lemma {:induction false} LowerIsLower(a: string, b: string)
    requires |a| == |b| && forall i :: 0 <= i < |a| ==> ToAsciiLower(a[i]) == ToAsciiLower(b[i])
    ensures Lower(a) == Lower(b)
  {
  }

  /** A name that is no alias and no modifier, but is its own long form. */
  predicate IsLongForm(a: string, low: string) {
    Lower(a) == low && |a| > 1 && 'A' <= a[0] <= 'Z' && IsAsciiLower(a[|a| - 1]) && low !in MODIFIER_NAMES &&
    (Alias(low) == "" || Alias(low) == a) && '+' !in a
  }

  lemma {:induction false} LongForms(a: string)
    requires a in ["Escape", "Enter", "Delete", "ArrowUp", "ArrowDown"]
    ensures IsLongForm(a, Lower(a))
  {
    var low := Lower(a);
    if a == "Escape" {
      assert low == "escape" && low[0] == 'e';
    } else if a == "Enter" {
      assert low == "enter" && low[0] == 'e';
    } else if a == "Delete" {
      assert low == "delete" && low[0] == 'd';
    } else if a == "ArrowUp" {
      assert low == "arrowup" && low[0] == 'a';
    } else {
      assert low == "arrowdown" && low[0] == 'a';
    }
  }

  lemma {:induction false} MoreLongForms(a: string)
    requires a in ["ArrowLeft", "ArrowRight"]
    ensures IsLongForm(a, Lower(a))
  {
    var low := Lower(a);
    if a == "ArrowLeft" {
      assert low == "arrowleft" && low[0] == 'a';
    } else {
      assert low == "arrowright" && low[0] == 'a';
    }
  }

  lemma {:induction false} LastLongForms(a: string)
    requires a in ["PageUp", "PageDown", "Space"]
    ensures IsLongForm(a, Lower(a))
  {
    var low := Lower(a);
    if a == "PageUp" {
      assert low == "pageup" && low[0] == 'p' && low[1] == 'a';
    } else if a == "PageDown" {
      assert low == "pagedown" && low[0] == 'p';
    } else {
      assert low == "space" && low[0] == 's' && low[1] == 'p';
    }
  }

  lemma {:induction false} AliasIsToken(word: string)
    requires Alias(word) != ""
    ensures IsToken(Alias(word))
  {
    var a := Alias(word);
    if a in ["Escape", "Enter", "Delete", "ArrowUp", "ArrowDown"] {
      LongForms(a);
    } else if a in ["ArrowLeft", "ArrowRight"] {
      MoreLongForms(a);
    } else {
      LastLongForms(a);
    }
    assert [ToAsciiUpper(a[0])] + a[1..] == a;
  }

  /** A key's normal form is a token. */
  lemma {:induction false} NormalisedIsToken(key: string)
    requires IsKey(key) && Trimmed(key) && ('+' in key ==> key == "+")
    ensures IsToken(NormaliseKey(key))
  {
    if |key| > 1 && Alias(Lower(key)) != "" {
      AliasIsToken(Lower(key));
    } else {
      var r := [ToAsciiUpper(key[0])] + key[1..];
      LowerUpper(key[0]);
      LowerIsLower(r, key);
      assert r[1..] == key[1..];
      if '+' in r {
        var i :| 0 <= i < |r| && r[i] == '+';
        assert key[i] == '+';
      }
    }
  }

  /** What stands behind the last `+` holds none. */
  lemma {:induction false} HalvesKey(token: string)
    ensures var (_, key) := Halves(token); '+' in key ==> key == "+"
  {
    BehindLast(token, '+');
  }

  lemma {:induction false} BehindLast(s: string, c: char)
    ensures LastIndexOf(s, c).None? ==> c !in s
    ensures LastIndexOf(s, c).Some? ==> c !in s[LastIndexOf(s, c).value + 1..]
  {
    if s != "" && s[|s| - 1] != c {
      var init := s[..|s| - 1];
      BehindLast(init, c);
      assert s == init + [s[|s| - 1]];
      match LastIndexOf(init, c)
      case None =>
      case Some(i) => assert s[i + 1..] == init[i + 1..] + [s[|s| - 1]];
    }
  }

  lemma {:induction false} LastIndexOfAppend(a: string, c: char, b: string)
    requires c !in b
    ensures LastIndexOf(a + [c] + b, c) == Some(|a|)
  {
    var s := a + [c] + b;
    if b == "" {
      assert s[|s| - 1] == c;
    } else {
      var init := b[..|b| - 1];
      assert s[..|s| - 1] == a + [c] + init && s[|s| - 1] == b[|b| - 1];
      LastIndexOfAppend(a, c, init);
    }
  }

  lemma {:induction false} LastIndexOfNone(s: string, c: char)
    requires c !in s
    ensures LastIndexOf(s, c) == None
  {
    if s != "" {
      LastIndexOfNone(s[..|s| - 1], c);
    }
  }

  lemma {:induction false} TrimIsPart(s: string)
    ensures forall c :: c in Trim(s) ==> c in s
  {
    TrimStartIsPart(s);
    TrimEndKeepsFront(TrimStart(s));
  }

  lemma {:induction false} TrimStartIsPart(s: string)
    ensures forall c :: c in TrimStart(s) ==> c in s
  {
    if s != "" && IsWhitespace(s[0]) {
      TrimStartIsPart(s[1..]);
    }
  }

  /** Every chord that parses has a token for its key. */
  lemma {:induction false} ParsedIsToken(token: string)
    requires ParseChord(token).Some?
    ensures IsToken(ParseChord(token).value.key)
  {
    var (mods, rest) := Halves(Trim(token));
    HalvesKey(Trim(token));
    var key := Trim(rest);
    TrimTrims(rest);
    TrimIsPart(rest);
    if '+' in key {
      assert rest == "+";
      TrimmedStays(rest);
    }
    NormalisedIsToken(key);
  }

  /** The modifiers' names as they are printed. */
  function Words(c: Chord): (words: seq<string>)
    ensures FreeOf(words, '+')
    ensures forall i :: 0 <= i < |words| ==> words[i] != "" && Trimmed(words[i])
  {
    (if c.ctrl then ["Ctrl"] else []) + (if c.shift then ["Shift"] else []) + (if c.alt then ["Alt"] else [])
  }

  lemma {:induction false} ReadOneMore(parts: seq<string>, part: string)
    requires ReadModifiers(parts).Some? && part != "" && Trimmed(part)
    ensures ReadModifiers(parts + [part]) == WithModifier(ReadModifiers(parts).value, part)
  {
    assert (parts + [part])[..|parts|] == parts;
    TrimmedStays(part);
  }

  lemma {:induction false} LowerWords()
    ensures Lower("Ctrl") == "ctrl" && Lower("Shift") == "shift" && Lower("Alt") == "alt"
  {
    assert Lower("Ctrl")[0] == 'c';
    assert Lower("Shift")[0] == 's';
    assert Lower("Alt")[0] == 'a';
  }

  lemma {:induction false} WordsRead(c: Chord)
    ensures ReadModifiers(Words(c)) == Some(Modifiers(c.ctrl, c.shift, c.alt))
  {
    var a := if c.ctrl then ["Ctrl"] else [];
    var b := a + if c.shift then ["Shift"] else [];
    LowerWords();
    WordRead([], NONE, "Ctrl", c.ctrl);
    assert [] + a == a;
    WordRead(a, Modifiers(c.ctrl, false, false), "Shift", c.shift);
    WordRead(b, Modifiers(c.ctrl, c.shift, false), "Alt", c.alt);
  }

  lemma {:induction false} WordRead(parts: seq<string>, mods: Modifiers, word: string, there: bool)
    requires ReadModifiers(parts) == Some(mods) && word != "" && Trimmed(word)
    ensures ReadModifiers(parts + if there then [word] else []) == if there then WithModifier(mods, word) else Some(mods)
  {
    if there {
      ReadOneMore(parts, word);
    } else {
      assert parts + [] == parts;
    }
  }

  lemma {:induction false} JoinFew(a: string, b: string, d: string)
    ensures Join([a, b], '+') == a + "+" + b
    ensures Join([a, b, d], '+') == a + "+" + (b + "+" + d)
  {
    assert [a, b][1..] == [b];
    assert [b, d][1..] == [d];
    assert [a, b, d][1..] == [b, d];
    assert Join([b, d], '+') == b + "+" + d;
  }

  /** Printed text is the joined words, a `+` and the key. */
  lemma {:induction false} PrintIsJoined(c: Chord)
    ensures Print(c) == if Words(c) == [] then c.key else Join(Words(c), '+') + "+" + c.key
  {
    JoinFew("Ctrl", "Shift", "Alt");
    JoinFew("Ctrl", "Alt", "");
    JoinFew("Shift", "Alt", "");
    if c.ctrl && c.shift && c.alt {
      assert Words(c) == ["Ctrl", "Shift", "Alt"];
    } else if c.ctrl && c.shift {
      assert Words(c) == ["Ctrl", "Shift"];
    } else if c.ctrl && c.alt {
      assert Words(c) == ["Ctrl", "Alt"];
    } else if c.shift && c.alt {
      assert Words(c) == ["Shift", "Alt"];
    }
  }

  lemma {:induction false} PrintIsTrimmed(c: Chord)
    requires IsToken(c.key)
    ensures Trimmed(Print(c))
  {
    var p := Print(c);
    assert p[|p| - 1] == c.key[|c.key| - 1];
    assert p[0] == 'C' || p[0] == 'S' || p[0] == 'A' || p[0] == c.key[0];
  }

  lemma {:induction false} LoneHalves(key: string)
    requires key != "" && ('+' in key ==> key == "+")
    ensures Halves(key) == ("", key)
  {
    if key != "+" {
      LastIndexOfNone(key, '+');
      NoDoublePlus(key);
    }
  }

  lemma {:induction false} NoDoublePlus(s: string)
    requires s != "" && s[|s| - 1] != '+'
    ensures |s| >= 2 ==> s[|s| - 2..] != "++"
  {
    if |s| >= 2 {
      assert s[|s| - 2..][1] == s[|s| - 1];
    }
  }

  lemma {:induction false} PlusHalves(mods: string)
    ensures Halves(mods + "++") == (mods, "+")
  {
    var p := mods + "++";
    assert p[|p| - 2..] == "++" && p[..|p| - 2] == mods;
  }

  lemma {:induction false} KeyHalves(mods: string, key: string)
    requires key != "" && '+' !in key
    ensures Halves(mods + ['+'] + key) == (mods, key)
  {
    var p := mods + ['+'] + key;
    LastIndexOfAppend(mods, '+', key);
    assert p[|p| - 1] == key[|key| - 1];
    NoDoublePlus(p);
    assert |p| >= 2;
    assert p[..|mods|] == mods && p[|mods| + 1..] == key;
  }

  lemma {:induction false} PrintHalves(c: Chord)
    requires IsToken(c.key)
    ensures Halves(Print(c)) == (Join(Words(c), '+'), c.key)
  {
    PrintIsJoined(c);
    var joined := Join(Words(c), '+');
    if Words(c) == [] {
      LoneHalves(c.key);
    } else if c.key == "+" {
      assert joined + "+" + "+" == joined + "++";
      PlusHalves(joined);
    } else {
      KeyHalves(joined, c.key);
    }
  }

  lemma {:induction false} WordsSplit(c: Chord)
    ensures ReadModifiers(Split(Join(Words(c), '+'), '+')) == Some(Modifiers(c.ctrl, c.shift, c.alt))
  {
    if Words(c) == [] {
      SplitPlain("", '+');
      assert [""][..0] == [];
    } else {
      SplitOfJoin(Words(c), '+');
      WordsRead(c);
    }
  }

  /** Exactly the chords whose key is a token come back from their printed form. */
  lemma {:induction false} PrintedParsesBack(c: Chord)
    ensures ParseChord(Print(c)) == Some(c) <==> IsToken(c.key)
  {
    if IsToken(c.key) {
      PrintIsTrimmed(c);
      TrimmedStays(Print(c));
      PrintHalves(c);
      WordsSplit(c);
      TrimmedStays(c.key);
    }
    if ParseChord(Print(c)) == Some(c) {
      ParsedIsToken(Print(c));
    }
  }

  /** So however a chord was written, printing it and reading it again gives it back. */
  lemma {:induction false} ParsedPrintsBack(token: string)
    requires ParseChord(token).Some?
    ensures ParseChord(Print(ParseChord(token).value)) == ParseChord(token)
  {
    ParsedIsToken(token);
    PrintedParsesBack(ParseChord(token).value);
  }
}
