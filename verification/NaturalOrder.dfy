/** The order names are listed in: without regard to case, and with runs of digits by their value. */
module NaturalOrder {
  import opened Chars

  datatype Ordering = Less | Equal | Greater

  function Flip(o: Ordering): Ordering {
    match o
    case Less => Greater
    case Equal => Equal
    case Greater => Less
  }

  function Then(o: Ordering, p: Ordering): Ordering {
    if o.Equal? then p else o
  }

  /** A lower-case form per character: digits are their own, and nothing else's starts with a digit. */
  ghost predicate IsLower(f: char -> string) {
    forall c :: f(c) != "" && (IsAsciiDigit(c) ==> f(c) == [c]) && (!IsAsciiDigit(c) ==> !IsAsciiDigit(f(c)[0]))
  }

  // ---------- the comparison, step by step ----------

  function CompareNat(m: nat, n: nat): Ordering {
    if m < n then Less else if m == n then Equal else Greater
  }

  function CompareChar(a: char, b: char): Ordering {
    if a < b then Less else if a == b then Equal else Greater
  }

  /** Texts, character by character. */
  function CompareText(a: string, b: string): Ordering {
    if a == "" && b == "" then Equal
    else if a == "" then Less
    else if b == "" then Greater
    else Then(CompareChar(a[0], b[0]), CompareText(a[1..], b[1..]))
  }

  function TrimZeros(s: string): (r: string)
    ensures |r| <= |s|
  {
    if s != "" && s[0] == '0' then TrimZeros(s[1..]) else s
  }

  function CompareRuns(a: string, b: string): Ordering {
    Then(CompareNat(|TrimZeros(a)|, |TrimZeros(b)|), CompareText(TrimZeros(a), TrimZeros(b)))
  }

  /** Where the run of digits that starts at `i` ends. */
  function RunEnd(s: string, i: nat): (k: nat)
    requires i <= |s|
    ensures i <= k <= |s| && AllDigits(s[i..k])
    ensures i < |s| && IsAsciiDigit(s[i]) ==> i < k
    decreases |s| - i
  {
    if i < |s| && IsAsciiDigit(s[i]) then
      var k := RunEnd(s, i + 1);
      assert s[i..k] == [s[i]] + s[i + 1..k];
      k
    else i
  }

  // ---------- what it amounts to ----------

  /** What a name is compared as. */
  datatype Token = Num(value: nat) | Letter(form: string)

  function TokensFrom(lower: char -> string, s: string, i: nat): seq<Token>
    requires i <= |s|
    decreases |s| - i
  {
    if i == |s| then []
    else if IsAsciiDigit(s[i]) then [Num(Value(s[i..RunEnd(s, i)]))] + TokensFrom(lower, s, RunEnd(s, i))
    else [Letter(lower(s[i]))] + TokensFrom(lower, s, i + 1)
  }

  function Tokens(lower: char -> string, s: string): seq<Token> {
    TokensFrom(lower, s, 0)
  }

  /** Numbers stand where digits do: after the characters before `0`, before those after `9`. */
  function CompareToken(x: Token, y: Token): Ordering {
    match (x, y)
    case (Num(m), Num(n)) => CompareNat(m, n)
    case (Letter(a), Letter(b)) => CompareText(a, b)
    case (Num(_), Letter(b)) => if b != "" && b[0] > '9' then Less else Greater
    case (Letter(a), Num(_)) => if a != "" && a[0] > '9' then Greater else Less
  }

  function CompareTokens(a: seq<Token>, b: seq<Token>): Ordering {
    if a == [] && b == [] then Equal
    else if a == [] then Less
    else if b == [] then Greater
    else Then(CompareToken(a[0], b[0]), CompareTokens(a[1..], b[1..]))
  }

  function NaturalOrdering(lower: char -> string, a: string, b: string): Ordering {
    CompareTokens(Tokens(lower, a), Tokens(lower, b))
  }

  // ---------- runs of digits compare by value ----------

  function Pow10(n: nat): (p: nat)
    ensures p >= 1
  {
    if n == 0 then 1 else 10 * Pow10(n - 1)
  }

  lemma {:induction false} ValueIsBelow(s: string)
    ensures Value(s) < Pow10(|s|)
  {
    if s != "" {
      ValueIsBelow(s[..|s| - 1]);
    }
  }

  lemma {:induction false} ValueIsAbove(s: string)
    requires AllDigits(s) && s != "" && s[0] != '0'
    ensures Value(s) >= Pow10(|s| - 1)
  {
    if |s| == 1 {
      assert s[..0] == "";
      assert Value(s) == Digit(s[0]);
    } else {
      ValueIsAbove(s[..|s| - 1]);
    }
  }

  lemma {:induction false} ValueSnoc(s: string, c: char)
    ensures Value(s + [c]) == 10 * Value(s) + Digit(c)
  {
    assert (s + [c])[..|s|] == s;
  }

  /** A leading zero does not count. */
  lemma {:induction false} ValueOfZero(s: string)
    ensures Value("0" + s) == Value(s)
  {
    if s == "" {
      ValueSnoc("", '0');
      assert "" + ['0'] == "0" + "";
    } else {
      var init, last := s[..|s| - 1], s[|s| - 1];
      ValueOfZero(init);
      ValueSnoc("0" + init, last);
      assert ("0" + init) + [last] == "0" + s;
    }
  }

  lemma {:induction false} TrimmedValue(s: string)
    requires AllDigits(s)
    ensures Value(TrimZeros(s)) == Value(s) && AllDigits(TrimZeros(s))
    ensures TrimZeros(s) != "" ==> TrimZeros(s)[0] != '0'
  {
    if s != "" && s[0] == '0' {
      TrimmedValue(s[1..]);
      ValueOfZero(s[1..]);
      assert s == "0" + s[1..];
    }
  }

  lemma {:induction false} CompareTextSnoc(a: string, x: char, b: string, y: char)
    requires |a| == |b|
    ensures CompareText(a + [x], b + [y]) == Then(CompareText(a, b), CompareChar(x, y))
  {
    if a == "" {
      assert "" + [x] == [x] && "" + [y] == [y];
      assert [x][1..] == "" && [y][1..] == "";
    } else {
      assert (a + [x])[1..] == a[1..] + [x] && (b + [y])[1..] == b[1..] + [y];
      CompareTextSnoc(a[1..], x, b[1..], y);
    }
  }

  lemma {:induction false} SameLengthByValue(a: string, b: string)
    requires |a| == |b| && AllDigits(a) && AllDigits(b)
    ensures CompareText(a, b) == CompareNat(Value(a), Value(b))
  {
    if a != "" {
      var (s, x) := (a[..|a| - 1], a[|a| - 1]);
      var (t, y) := (b[..|b| - 1], b[|b| - 1]);
      SameLengthByValue(s, t);
      CompareTextSnoc(s, x, t, y);
      assert a == s + [x] && b == t + [y];
    }
  }

  lemma {:induction false} Pow10Grows(m: nat, n: nat)
    requires m <= n
    ensures Pow10(m) <= Pow10(n)
  {
    if m < n {
      Pow10Grows(m, n - 1);
    }
  }

  lemma {:induction false} ShorterIsLess(a: string, b: string)
    requires AllDigits(b) && |a| < |b| && b[0] != '0'
    ensures Value(a) < Value(b)
  {
    ValueIsBelow(a);
    ValueIsAbove(b);
    Pow10Grows(|a|, |b| - 1);
  }

  /** Lengths without leading zeros first, digits then: that is the numbers' order, however long. */
  lemma {:induction false} RunsCompareByValue(a: string, b: string)
    requires AllDigits(a) && AllDigits(b)
    ensures CompareRuns(a, b) == CompareNat(Value(a), Value(b))
  {
    TrimmedValue(a);
    TrimmedValue(b);
    var s, t := TrimZeros(a), TrimZeros(b);
    if |s| < |t| {
      ShorterIsLess(s, t);
    } else if |t| < |s| {
      ShorterIsLess(t, s);
    } else {
      SameLengthByValue(s, t);
    }
  }

  // ---------- the loop ----------

  method DigitRun(s: string, i: nat) returns (run: string, next: nat)
    requires i < |s|
    ensures next == RunEnd(s, i) && run == s[i..next]
  {
    run := "";
    next := i;
    while next < |s| && IsAsciiDigit(s[next])
      invariant i <= next <= |s| && run == s[i..next] && RunEnd(s, next) == RunEnd(s, i)
    {
      run := run + [s[next]];
      next := next + 1;
    }
  }

  /** Compares two names as the sequences of their tokens. */
  method NaturalCmp(lower: char -> string, a: string, b: string) returns (r: Ordering)
    requires IsLower(lower)
    ensures r == NaturalOrdering(lower, a, b)
  {
    var i, j := 0, 0;
    while true
      invariant 0 <= i <= |a| && 0 <= j <= |b|
      invariant CompareTokens(TokensFrom(lower, a, i), TokensFrom(lower, b, j)) == NaturalOrdering(lower, a, b)
      decreases |a| - i
    {
      if i == |a| && j == |b| {
        return Equal;
      }
      if i == |a| {
        return Less;
      }
      if j == |b| {
        return Greater;
      }
      var x, y := a[i], b[j];
      if IsAsciiDigit(x) && IsAsciiDigit(y) {
        var na, k := DigitRun(a, i);
        var nb, m := DigitRun(b, j);
        RunsCompareByValue(na, nb);
        FirstDecides(Num(Value(na)), TokensFrom(lower, a, k), Num(Value(nb)), TokensFrom(lower, b, m));
        var ordering := CompareRuns(na, nb);
        if ordering != Equal {
          return ordering;
        }
        i, j := k, m;
      } else {
        StepByCharacter(lower, a, i, b, j);
        var ordering := CompareText(lower(x), lower(y));
        if ordering != Equal {
          return ordering;
        }
        i, j := i + 1, j + 1;
      }
    }
  }

  lemma {:induction false} FirstDecides(x: Token, a: seq<Token>, y: Token, b: seq<Token>)
    ensures CompareTokens([x] + a, [y] + b) == Then(CompareToken(x, y), CompareTokens(a, b))
  {
    assert ([x] + a)[1..] == a && ([y] + b)[1..] == b;
  }

  /** A step over characters that are not both digits. */
  lemma {:induction false} StepByCharacter(lower: char -> string, a: string, i: nat, b: string, j: nat)
    requires IsLower(lower) && i < |a| && j < |b| && !(IsAsciiDigit(a[i]) && IsAsciiDigit(b[j]))
    ensures var first := CompareText(lower(a[i]), lower(b[j]));
      var whole := CompareTokens(TokensFrom(lower, a, i), TokensFrom(lower, b, j));
      if first == Equal then whole == CompareTokens(TokensFrom(lower, a, i + 1), TokensFrom(lower, b, j + 1)) else whole == first
  {
    var x, y := a[i], b[j];
    if IsAsciiDigit(x) || IsAsciiDigit(y) {
      var s, t := TokensFrom(lower, a, i), TokensFrom(lower, b, j);
      FirstDecides(s[0], s[1..], t[0], t[1..]);
      assert [s[0]] + s[1..] == s && [t[0]] + t[1..] == t;
      assert lower(x)[0] != lower(y)[0];
    } else {
      FirstDecides(Letter(lower(x)), TokensFrom(lower, a, i + 1), Letter(lower(y)), TokensFrom(lower, b, j + 1));
    }
  }

  // ---------- a total preorder ----------

  lemma {:induction false} TextFlips(a: string, b: string)
    ensures CompareText(b, a) == Flip(CompareText(a, b))
    ensures CompareText(a, b) == Equal <==> a == b
  {
    if a != "" && b != "" {
      TextFlips(a[1..], b[1..]);
      assert a == [a[0]] + a[1..] && b == [b[0]] + b[1..];
    }
  }

  lemma {:induction false} TextChains(a: string, b: string, c: string)
    requires CompareText(a, b) == Less && CompareText(b, c) == Less
    ensures CompareText(a, c) == Less
  {
    if a != "" && b != "" && c != "" && a[0] == b[0] == c[0] {
      TextChains(a[1..], b[1..], c[1..]);
    }
  }

  /** Forms that stand clear of the digits. */
  predicate IsToken(t: Token) {
    t.Letter? ==> t.form != "" && !IsAsciiDigit(t.form[0])
  }

  predicate AreTokens(s: seq<Token>) {
    forall i :: 0 <= i < |s| ==> IsToken(s[i])
  }

  lemma {:induction false} TokensAreTokens(lower: char -> string, s: string, i: nat)
    requires IsLower(lower) && i <= |s|
    ensures AreTokens(TokensFrom(lower, s, i))
    decreases |s| - i
  {
    if i < |s| {
      TokensAreTokens(lower, s, if IsAsciiDigit(s[i]) then RunEnd(s, i) else i + 1);
    }
  }

  lemma {:induction false} TokenFlips(x: Token, y: Token)
    requires IsToken(x) && IsToken(y)
    ensures CompareToken(y, x) == Flip(CompareToken(x, y))
    ensures CompareToken(x, y) == Equal <==> x == y
  {
    if x.Letter? && y.Letter? {
      TextFlips(x.form, y.form);
    }
  }

  lemma {:induction false} TokenChains(x: Token, y: Token, z: Token)
    requires IsToken(x) && IsToken(y) && IsToken(z) && CompareToken(x, y) == Less && CompareToken(y, z) == Less
    ensures CompareToken(x, z) == Less
  {
    if x.Letter? && y.Letter? && z.Letter? {
      TextChains(x.form, y.form, z.form);
    }
  }

  lemma {:induction false} TokensFlip(a: seq<Token>, b: seq<Token>)
    requires AreTokens(a) && AreTokens(b)
    ensures CompareTokens(b, a) == Flip(CompareTokens(a, b))
    ensures CompareTokens(a, b) == Equal <==> a == b
  {
    if a != [] && b != [] {
      TokenFlips(a[0], b[0]);
      TokensFlip(a[1..], b[1..]);
      assert a == [a[0]] + a[1..] && b == [b[0]] + b[1..];
    }
  }

  lemma {:induction false} TokensChain(a: seq<Token>, b: seq<Token>, c: seq<Token>)
    requires AreTokens(a) && AreTokens(b) && AreTokens(c) && CompareTokens(a, b) == Less && CompareTokens(b, c) == Less
    ensures CompareTokens(a, c) == Less
  {
    if a != [] && b != [] && c != [] {
      TokenFlips(a[0], b[0]);
      TokenFlips(b[0], c[0]);
      if CompareToken(a[0], b[0]) == Less && CompareToken(b[0], c[0]) == Less {
        TokenChains(a[0], b[0], c[0]);
      } else if a[0] == b[0] == c[0] {
        TokensChain(a[1..], b[1..], c[1..]);
      }
    }
  }

  /** The natural order is total, turning the names around turns it around, and it ties exactly the
      names with the same tokens. */
  lemma {:induction false} OrderIsTotal(lower: char -> string, a: string, b: string)
    requires IsLower(lower)
    ensures NaturalOrdering(lower, b, a) == Flip(NaturalOrdering(lower, a, b))
    ensures NaturalOrdering(lower, a, b) == Equal <==> Tokens(lower, a) == Tokens(lower, b)
  {
    TokensAreTokens(lower, a, 0);
    TokensAreTokens(lower, b, 0);
    TokensFlip(Tokens(lower, a), Tokens(lower, b));
  }

  /** And it is transitive, ties included, so sorting by it is well defined. */
  lemma {:induction false} OrderIsTransitive(lower: char -> string, a: string, b: string, c: string)
    requires IsLower(lower) && NaturalOrdering(lower, a, b) != Greater && NaturalOrdering(lower, b, c) != Greater
    ensures NaturalOrdering(lower, a, c) != Greater
    ensures NaturalOrdering(lower, a, c) == Equal <==>
      NaturalOrdering(lower, a, b) == Equal && NaturalOrdering(lower, b, c) == Equal
  {
    OrderIsTotal(lower, a, b);
    OrderIsTotal(lower, b, c);
    OrderIsTotal(lower, a, c);
    TokensAreTokens(lower, a, 0);
    TokensAreTokens(lower, b, 0);
    TokensAreTokens(lower, c, 0);
    if NaturalOrdering(lower, a, b) == Less && NaturalOrdering(lower, b, c) == Less {
      TokensChain(Tokens(lower, a), Tokens(lower, b), Tokens(lower, c));
    }
  }

  // ---------- what decides ----------

  /** Cutting a name here cuts no run of digits. */
  predicate CutsNoRun(a: string, b: string) {
    a == "" || b == "" || !IsAsciiDigit(a[|a| - 1]) || !IsAsciiDigit(b[0])
  }

  lemma {:induction false} RunBehind(a: string, b: string, j: nat)
    requires j <= |b|
    ensures RunEnd(a + b, |a| + j) == |a| + RunEnd(b, j)
    decreases |b| - j
  {
    if j < |b| && IsAsciiDigit(b[j]) {
      RunBehind(a, b, j + 1);
    }
  }

  lemma {:induction false} RunBefore(a: string, b: string, i: nat)
    requires a != "" && i <= |a| && CutsNoRun(a, b) && (i == |a| ==> IsAsciiDigit(a[i - 1]))
    ensures RunEnd(a + b, i) == RunEnd(a, i)
    decreases |a| - i
  {
    if i < |a| && IsAsciiDigit(a[i]) {
      RunBefore(a, b, i + 1);
    }
  }

  /** The token at a place, and the place behind it. */
  function TokenAt(lower: char -> string, s: string, i: nat): Token
    requires i < |s|
  {
    if IsAsciiDigit(s[i]) then Num(Value(s[i..RunEnd(s, i)])) else Letter(lower(s[i]))
  }

  function NextAt(s: string, i: nat): (k: nat)
    requires i < |s|
    ensures i < k <= |s|
  {
    if IsAsciiDigit(s[i]) then RunEnd(s, i) else i + 1
  }

  lemma {:induction false} TokensUnfold(lower: char -> string, s: string, i: nat)
    requires i < |s|
    ensures TokensFrom(lower, s, i) == [TokenAt(lower, s, i)] + TokensFrom(lower, s, NextAt(s, i))
  {
  }

  lemma {:induction false} TokenBehind(lower: char -> string, a: string, b: string, j: nat)
    requires j < |b|
    ensures TokenAt(lower, a + b, |a| + j) == TokenAt(lower, b, j) && NextAt(a + b, |a| + j) == |a| + NextAt(b, j)
  {
    if IsAsciiDigit(b[j]) {
      RunBehind(a, b, j);
      assert (a + b)[|a| + j..|a| + RunEnd(b, j)] == b[j..RunEnd(b, j)];
    }
  }

  lemma {:induction false} TokensBehind(lower: char -> string, a: string, b: string, j: nat)
    requires j <= |b|
    ensures TokensFrom(lower, a + b, |a| + j) == TokensFrom(lower, b, j)
    decreases |b| - j
  {
    if j < |b| {
      TokensBehind(lower, a, b, NextAt(b, j));
      OneTokenBehind(lower, a, b, j);
    }
  }

  lemma {:induction false} OneTokenBehind(lower: char -> string, a: string, b: string, j: nat)
    requires j < |b| && TokensFrom(lower, a + b, |a| + NextAt(b, j)) == TokensFrom(lower, b, NextAt(b, j))
    ensures TokensFrom(lower, a + b, |a| + j) == TokensFrom(lower, b, j)
  {
    TokenBehind(lower, a, b, j);
    TokensUnfold(lower, b, j);
    TokensUnfold(lower, a + b, |a| + j);
  }

  lemma {:induction false} TokenBefore(lower: char -> string, a: string, b: string, i: nat)
    requires i < |a| && CutsNoRun(a, b)
    ensures TokenAt(lower, a + b, i) == TokenAt(lower, a, i) && NextAt(a + b, i) == NextAt(a, i)
  {
    if IsAsciiDigit(a[i]) {
      RunBefore(a, b, i);
      assert (a + b)[i..RunEnd(a, i)] == a[i..RunEnd(a, i)];
    }
  }

  lemma {:induction false} TokensBefore(lower: char -> string, a: string, b: string, i: nat)
    requires i <= |a| && CutsNoRun(a, b)
    ensures TokensFrom(lower, a + b, i) == TokensFrom(lower, a, i) + Tokens(lower, b)
    decreases |a| - i
  {
    if i == |a| {
      TokensBehind(lower, a, b, 0);
      assert [] + Tokens(lower, b) == Tokens(lower, b);
    } else {
      TokenBefore(lower, a, b, i);
      TokensUnfold(lower, a, i);
      TokensUnfold(lower, a + b, i);
      TokensBefore(lower, a, b, NextAt(a, i));
      Behind(TokenAt(lower, a, i), TokensFrom(lower, a, NextAt(a, i)), Tokens(lower, b));
    }
  }

  lemma {:induction false} Behind<T>(x: T, a: seq<T>, b: seq<T>)
    ensures [x] + (a + b) == [x] + a + b
  {
  }

  lemma {:induction false} FrontDropped(c: seq<Token>, a: seq<Token>, b: seq<Token>)
    requires AreTokens(c)
    ensures CompareTokens(c + a, c + b) == CompareTokens(a, b)
  {
    if c == [] {
      assert c + a == a && c + b == b;
    } else {
      TokenFlips(c[0], c[0]);
      FrontDropped(c[1..], a, b);
      FirstDecides(c[0], c[1..] + a, c[0], c[1..] + b);
      assert c + a == [c[0]] + (c[1..] + a) && c + b == [c[0]] + (c[1..] + b);
    }
  }

  /** What two names begin with alike plays no part, */
  lemma {:induction false} FrontIsIgnored(lower: char -> string, c: string, a: string, b: string)
    requires IsLower(lower) && CutsNoRun(c, a) && CutsNoRun(c, b)
    ensures NaturalOrdering(lower, c + a, c + b) == NaturalOrdering(lower, a, b)
  {
    TokensBefore(lower, c, a, 0);
    TokensBefore(lower, c, b, 0);
    TokensAreTokens(lower, c, 0);
    FrontDropped(Tokens(lower, c), Tokens(lower, a), Tokens(lower, b));
  }

  /** a name that ends first comes first, */
  lemma {:induction false} ShorterComesFirst(lower: char -> string, c: string, b: string)
    requires IsLower(lower) && b != "" && CutsNoRun(c, b)
    ensures NaturalOrdering(lower, c, c + b) == Less && NaturalOrdering(lower, c + b, c) == Greater
  {
    FrontIsIgnored(lower, c, "", b);
    FrontIsIgnored(lower, c, b, "");
    assert c + "" == c;
  }

  lemma {:induction false} NumberFirst(lower: char -> string, m: string, rest: string)
    requires m != "" && AllDigits(m) && CutsNoRun(m, rest)
    ensures Tokens(lower, m + rest) == [Num(Value(m))] + Tokens(lower, rest)
  {
    WholeRun(m, 0);
    TokensBefore(lower, m, rest, 0);
    assert m[0..|m|] == m && TokensFrom(lower, m, |m|) == [];
  }

  lemma {:induction false} WholeRun(m: string, i: nat)
    requires AllDigits(m) && i <= |m|
    ensures RunEnd(m, i) == |m|
    decreases |m| - i
  {
    if i < |m| {
      WholeRun(m, i + 1);
    }
  }

  /** numbers in the same place compare by value, before anything behind them, */
  lemma {:induction false} NumbersByValue(lower: char -> string, c: string, m: string, n: string, a: string, b: string)
    requires IsLower(lower) && m != "" && AllDigits(m) && n != "" && AllDigits(n)
    requires CutsNoRun(c, m) && CutsNoRun(c, n) && CutsNoRun(m, a) && CutsNoRun(n, b)
    ensures NaturalOrdering(lower, c + (m + a), c + (n + b)) ==
      if Value(m) < Value(n) then Less else if Value(m) > Value(n) then Greater else NaturalOrdering(lower, a, b)
  {
    FrontIsIgnored(lower, c, m + a, n + b);
    NumberFirst(lower, m, a);
    NumberFirst(lower, n, b);
    FirstDecides(Num(Value(m)), Tokens(lower, a), Num(Value(n)), Tokens(lower, b));
  }

  lemma {:induction false} LetterFirst(lower: char -> string, x: char, rest: string)
    requires !IsAsciiDigit(x)
    ensures Tokens(lower, [x] + rest) == [Letter(lower(x))] + Tokens(lower, rest)
  {
    TokensBefore(lower, [x], rest, 0);
    assert TokensFrom(lower, [x], 1) == [];
  }

  /** other characters by their lower-case form, */
  lemma {:induction false} LettersByForm(lower: char -> string, c: string, x: char, y: char, a: string, b: string)
    requires IsLower(lower) && !IsAsciiDigit(x) && !IsAsciiDigit(y)
    ensures NaturalOrdering(lower, c + ([x] + a), c + ([y] + b)) ==
      if lower(x) == lower(y) then NaturalOrdering(lower, a, b) else CompareText(lower(x), lower(y))
  {
    FrontIsIgnored(lower, c, [x] + a, [y] + b);
    LetterFirst(lower, x, a);
    LetterFirst(lower, y, b);
    FirstDecides(Letter(lower(x)), Tokens(lower, a), Letter(lower(y)), Tokens(lower, b));
    TextFlips(lower(x), lower(y));
  }

  /** and a number comes before a character whose form stands behind the digits, and behind any other. */
  lemma {:induction false} NumberOrLetter(lower: char -> string, c: string, m: string, y: char, a: string, b: string)
    requires IsLower(lower) && m != "" && AllDigits(m) && !IsAsciiDigit(y) && CutsNoRun(c, m) && CutsNoRun(m, a)
    ensures NaturalOrdering(lower, c + (m + a), c + ([y] + b)) == if lower(y)[0] > '9' then Less else Greater
  {
    FrontIsIgnored(lower, c, m + a, [y] + b);
    NumberFirst(lower, m, a);
    LetterFirst(lower, y, b);
    FirstDecides(Num(Value(m)), Tokens(lower, a), Letter(lower(y)), Tokens(lower, b));
  }

  /** Forms compare as words do in a dictionary. */
  lemma {:induction false} FormsLikeWords(c: string, x: char, y: char, a: string, b: string)
    ensures CompareText(c + ([x] + a), c + ([y] + b)) == if x < y then Less else if y < x then Greater else CompareText(a, b)
    ensures a != "" ==> CompareText(c, c + a) == Less
  {
    if c == "" {
      assert c + ([x] + a) == [x] + a && c + ([y] + b) == [y] + b && c + a == a;
      assert ([x] + a)[1..] == a && ([y] + b)[1..] == b;
    } else {
      FormsLikeWords(c[1..], x, y, a, b);
      assert (c + ([x] + a))[1..] == c[1..] + ([x] + a) && (c + ([y] + b))[1..] == c[1..] + ([y] + b);
      assert (c + a)[1..] == c[1..] + a;
    }
  }
}
