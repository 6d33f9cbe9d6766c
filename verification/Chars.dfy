/** The character classes the rules ask about. */
module Chars {

  /** Unicode white space. */
  predicate IsWhitespace(c: char) {
    '\U{9}' <= c <= '\U{d}' || c == ' ' || c == '\U{85}' || c == '\U{a0}' || c == '\U{1680}' ||
    '\U{2000}' <= c <= '\U{200a}' || c == '\U{2028}' || c == '\U{2029}' || c == '\U{202f}' || c == '\U{205f}' ||
    c == '\U{3000}'
  }

  predicate IsAsciiDigit(c: char) {
    '0' <= c <= '9'
  }

  predicate AllDigits(s: string) {
    forall i :: 0 <= i < |s| ==> IsAsciiDigit(s[i])
  }

  function Digit(c: char): nat {
    if IsAsciiDigit(c) then c as int - '0' as int else 0
  }

  /** What a run of digits says. */
  function Value(digits: string): nat {
    if digits == "" then 0 else 10 * Value(digits[..|digits| - 1]) + Digit(digits[|digits| - 1])
  }

  /** The control characters of Unicode. */
  predicate IsControl(c: char) {
    c < ' ' || '\U{7f}' <= c <= '\U{9f}'
  }

  predicate IsAsciiUpper(c: char) {
    'A' <= c <= 'Z'
  }

  predicate IsAsciiLower(c: char) {
    'a' <= c <= 'z'
  }

  function ToAsciiLower(c: char): char {
    if IsAsciiUpper(c) then (c as int + 32) as char else c
  }

  function ToAsciiUpper(c: char): char {
    if IsAsciiLower(c) then (c as int - 32) as char else c
  }

  function Lower(s: string): (r: string)
    ensures |r| == |s|
  {
    seq(|s|, i requires 0 <= i < |s| => ToAsciiLower(s[i]))
  }

  function TrimStart(s: string): (r: string)
    ensures |r| <= |s|
  {
    if s != "" && IsWhitespace(s[0]) then TrimStart(s[1..]) else s
  }

  function TrimEnd(s: string): (r: string)
    ensures |r| <= |s|
  {
    if s != "" && IsWhitespace(s[|s| - 1]) then TrimEnd(s[..|s| - 1]) else s
  }

  function Trim(s: string): (r: string)
    ensures |r| <= |s|
  {
    TrimEnd(TrimStart(s))
  }

  predicate Trimmed(s: string) {
    s == "" || (!IsWhitespace(s[0]) && !IsWhitespace(s[|s| - 1]))
  }

  lemma {:induction false} TrimmedStays(s: string)
    requires Trimmed(s)
    ensures Trim(s) == s
  {
  }

  lemma {:induction false} TrimEndKeepsFront(s: string)
    ensures TrimEnd(s) <= s
    ensures TrimEnd(s) != "" ==> !IsWhitespace(TrimEnd(s)[|TrimEnd(s)| - 1])
  {
    if s != "" && IsWhitespace(s[|s| - 1]) {
      TrimEndKeepsFront(s[..|s| - 1]);
    }
  }

  lemma {:induction false} TrimStartCleans(s: string)
    ensures TrimStart(s) != "" ==> !IsWhitespace(TrimStart(s)[0])
  {
    if s != "" && IsWhitespace(s[0]) {
      TrimStartCleans(s[1..]);
    }
  }

  lemma {:induction false} TrimTrims(s: string)
    ensures Trimmed(Trim(s))
  {
    TrimStartCleans(s);
    TrimEndKeepsFront(TrimStart(s));
  }

  predicate AllWhitespace(s: string) {
    forall i :: 0 <= i < |s| ==> IsWhitespace(s[i])
  }

  /** Trimming takes white space off both ends and nothing else. */
  lemma {:induction false} TrimIs(s: string) returns (front: string, back: string)
    ensures s == front + Trim(s) + back && AllWhitespace(front) && AllWhitespace(back)
  {
    front := TrimStartIs(s);
    back := TrimEndIs(TrimStart(s));
    assert front + (Trim(s) + back) == front + Trim(s) + back;
  }

  lemma {:induction false} TrimStartIs(s: string) returns (front: string)
    ensures s == front + TrimStart(s) && AllWhitespace(front)
  {
    front := "";
    if s != "" && IsWhitespace(s[0]) {
      var rest := TrimStartIs(s[1..]);
      front := [s[0]] + rest;
      assert s == [s[0]] + s[1..];
    }
  }

  lemma {:induction false} TrimEndIs(s: string) returns (back: string)
    ensures s == TrimEnd(s) + back && AllWhitespace(back)
  {
    back := "";
    if s != "" && IsWhitespace(s[|s| - 1]) {
      var rest := TrimEndIs(s[..|s| - 1]);
      back := rest + [s[|s| - 1]];
      assert s == s[..|s| - 1] + [s[|s| - 1]];
    }
  }

  const CAPITALS: string := "ABCDEFGHIJKLMNOPQRSTUVWXYZ"
  const SMALLS: string := "abcdefghijklmnopqrstuvwxyz"

  /** Letter by letter, lower case and upper case are each other's; nothing else changes. */
  lemma {:induction false} CasesAre(k: nat, c: char)
    requires k < 26
    ensures ToAsciiLower(CAPITALS[k]) == SMALLS[k] && ToAsciiUpper(SMALLS[k]) == CAPITALS[k]
    ensures c !in CAPITALS ==> ToAsciiLower(c) == c
    ensures c !in SMALLS ==> ToAsciiUpper(c) == c
  {
    assert CAPITALS[k] as int == 65 + k && SMALLS[k] as int == 97 + k;
    if IsAsciiUpper(c) {
      assert CAPITALS[c as int - 65] == c;
    }
    if IsAsciiLower(c) {
      assert SMALLS[c as int - 97] == c;
    }
  }

  /** The control characters are two blocks of 32 and DEL. */
  lemma {:induction false} ControlsAre(c: char)
    ensures IsControl(c) <==> c as int == 127 || (c as int / 128 <= 1 && c as int % 128 < 32)
  {
  }

  /** Digits say what they do in the decimal system. */
  lemma {:induction false} ValueIs(digits: string, k: nat)
    requires k < 10
    ensures Value("") == 0 && Value(digits + ["0123456789"[k]]) == 10 * Value(digits) + k
  {
    var s := digits + ["0123456789"[k]];
    assert s[..|s| - 1] == digits && "0123456789"[k] as int == '0' as int + k;
  }
}
