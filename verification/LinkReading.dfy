/** How positions, file addresses and tokens are read, said in terms of the text alone. */
module LinkReading {
  import opened Outcome
  import opened Chars
  import opened Unicode
  import opened Pieces
  import opened Paths
  import opened PathSpellings
  import opened Sorting
  import opened Links
  import opened LinkLaws

  // ---------- positions ----------

  /** Digits that make a 32-bit number. */
  predicate Counts(s: string) {
    s != "" && AllDigits(s) && Value(s) < 4294967296
  }

  /** A colon and a number stand at the end. */
  predicate EndsInNumber(s: string) {
    exists i :: 0 <= i < |s| && s[i] == ':' && Counts(s[i + 1..])
  }

  lemma {:induction false} DigitsOnly(s: string, c: char)
    requires AllDigits(s) && !IsAsciiDigit(c)
    ensures c !in s
  {
  }

  /** One number taken off the end. */
  lemma {:induction false} OneSuffix(path: string, number: string, most: nat)
    requires Counts(number) && most > 0
    ensures var (rest, more) := Suffixes(path, most - 1);
      Suffixes(path + ":" + number, most) == (rest, [Value(number)] + more)
  {
    var s := path + ":" + number;
    DigitsOnly(number, ':');
    assert s[|path| + 1..] == number && s[..|path|] == path && s[|path|] == ':';
    LastIndexIs(s, ':', |path|);
  }

  lemma {:induction false} NoSuffix(path: string, most: nat)
    requires !EndsInNumber(path) || most == 0
    ensures Suffixes(path, most) == (path, [])
  {
    if most > 0 && LastIndexOf(path, ':').Some? {
      var i := LastIndexOf(path, ':').value;
      assert path[i] == ':' && !Counts(path[i + 1..]);
    }
  }

  lemma {:induction false} NotInBrackets(raw: string)
    requires raw == "" || raw[|raw| - 1] != ')'
    ensures Parenthesised(raw) == None
  {
  }

  lemma {:induction false} EndsInDigit(s: string, number: string)
    requires Counts(number)
    ensures (s + number)[|s + number| - 1] != ')'
  {
    assert (s + number)[|s + number| - 1] == number[|number| - 1];
  }

  /** `path:line:column`, whatever the path holds. */
  lemma {:induction false} LineAndColumn(path: string, line: string, column: string)
    requires path != "" && Counts(line) && Counts(column)
    ensures SplitPosition(path + ":" + line + ":" + column) == (path, Some(Value(line)), Some(Value(column)))
  {
    var raw := path + ":" + line + ":" + column;
    EndsInDigit(path + ":" + line + ":", column);
    NotInBrackets(raw);
    OneSuffix(path + ":" + line, column, 2);
    OneSuffix(path, line, 1);
    NoSuffix(path, 0);
    assert [Value(line)] + [] == [Value(line)] && [Value(column)] + [Value(line)] == [Value(column), Value(line)];
  }

  /** `path:line`, unless the path is a single byte, such as a drive's letter, or ends in a number itself. */
  lemma {:induction false} LineOnly(path: string, line: string)
    requires path != "" && Counts(line) && !EndsInNumber(path)
    ensures SplitPosition(path + ":" + line) ==
      if path[0] < '\U{80}' && |path| == 1 then (path + ":" + line, None, None) else (path, Some(Value(line)), None)
  {
    EndsInDigit(path + ":", line);
    NotInBrackets(path + ":" + line);
    OneSuffix(path, line, 2);
    NoSuffix(path, 1);
    OneByte(path);
    assert [Value(line)] + [] == [Value(line)];
  }

  lemma {:induction false} OneByte(s: string)
    requires s != ""
    ensures ByteLength(s) == 1 <==> |s| == 1 && s[0] < '\U{80}'
  {
    if |s| > 1 {
      SomeBytes(s[1..]);
    } else {
      assert s[1..] == "";
    }
  }

  lemma {:induction false} SomeBytes(s: string)
    requires s != ""
    ensures ByteLength(s) > 0
  {
  }

  /** `path(line)`, with white space around the number, */
  lemma {:induction false} LineInBrackets(path: string, line: string)
    requires path != "" && '(' !in line && ',' !in line && Counts(Trim(line))
    ensures SplitPosition(path + "(" + line + ")") == (path, Some(Value(Trim(line))), None)
  {
    assert line[..|line|] == line;
    IndexOfIs(line, ',', |line|);
    ReadInside(path, line, Value(Trim(line)), None);
  }

  /** and `path(line,column)`, where a column that is no number is left out. */
  lemma {:induction false} InBrackets(path: string, line: string, column: string)
    requires path != "" && '(' !in line && ',' !in line && '(' !in column && Counts(Trim(line))
    ensures SplitPosition(path + "(" + (line + "," + column) + ")") ==
      (path, Some(Value(Trim(line))), if Counts(Trim(column)) then Some(Value(Trim(column))) else None)
  {
    var at := if Counts(Trim(column)) then Some(Value(Trim(column))) else None;
    WithComma(line, column);
    ReadInside(path, line + "," + column, Value(Trim(line)), at);
  }

  lemma {:induction false} WithComma(line: string, column: string)
    requires ',' !in line
    ensures var both := line + "," + column;
      both[..|line|] == line && both[|line| + 1..] == column && IndexOf(both, ',') == |line|
  {
    var both := line + "," + column;
    assert both[..|line|] == line;
    IndexOfIs(both, ',', |line|);
  }

  lemma {:induction false} ReadInside(path: string, inner: string, line: nat, column: Option<nat>)
    requires path != "" && '(' !in inner
    requires var comma := IndexOf(inner, ',');
      Number(Trim(inner[..comma])) == Some(line) && column == if comma < |inner| then Number(Trim(inner[comma + 1..])) else None
    ensures SplitPosition(path + "(" + inner + ")") == (path, Some(line), column)
  {
    Inside(path, inner);
  }

  lemma {:induction false} Inside(path: string, inner: string)
    requires path != "" && '(' !in inner
    ensures var raw := path + "(" + inner + ")";
      raw[..|path|] == path && raw[|raw| - 1] == ')' && LastIndexOf(raw, '(') == Some(|path|) &&
      raw[|path| + 1..|raw| - 1] == inner
  {
    var raw := path + "(" + inner + ")";
    assert raw[|path| + 1..] == inner + ")";
    LastIndexIs(raw, '(', |path|);
  }

  /** The brackets at the end of `raw` that open at `open` begin with a number. */
  predicate BracketsCount(raw: string, open: nat) {
    0 < open < |raw| - 1 && raw[open] == '(' && raw[|raw| - 1] == ')' && '(' !in raw[open + 1..] &&
    exists k :: open < k < |raw| && (raw[k] == ',' || k == |raw| - 1) && ',' !in raw[open + 1..k] && Counts(Trim(raw[open + 1..k]))
  }

  /** Everything else is all path. */
  lemma {:induction false} NoPosition(raw: string)
    requires !EndsInNumber(raw) && forall open :: !BracketsCount(raw, open)
    ensures SplitPosition(raw) == (raw, None, None)
  {
    NoSuffix(raw, 2);
    if Parenthesised(raw).Some? {
      var open := LastIndexOf(raw, '(').value;
      LastIsLast(raw, '(');
      FirstPart(raw, open, raw[open + 1..|raw| - 1]);
    }
  }

  lemma {:induction false} FirstPart(raw: string, open: nat, inner: string)
    requires 0 < open < |raw| - 1 && raw[open] == '(' && raw[|raw| - 1] == ')' && '(' !in raw[open + 1..]
    requires inner == raw[open + 1..|raw| - 1] && Counts(Trim(inner[..IndexOf(inner, ',')]))
    ensures BracketsCount(raw, open)
  {
    var k := open + 1 + IndexOf(inner, ',');
    BeforeIndexOf(inner, ',');
    assert raw[open + 1..k] == inner[..IndexOf(inner, ',')];
    assert raw[k] == ',' || k == |raw| - 1;
  }

  lemma {:induction false} LastIsLast(s: string, c: char)
    ensures LastIndexOf(s, c).Some? ==> c !in s[LastIndexOf(s, c).value + 1..]
  {
    if s != "" && s[|s| - 1] != c {
      var init := s[..|s| - 1];
      LastIsLast(init, c);
      if LastIndexOf(init, c).Some? {
        var i := LastIndexOf(init, c).value;
        assert s[i + 1..] == init[i + 1..] + [s[|s| - 1]];
      }
    }
  }

  /** A number with nothing before it is a path as well. */
  lemma {:induction false} NothingBefore(line: string, column: string)
    requires Counts(line) && Counts(column)
    ensures SplitPosition(":" + line) == (":" + line, None, None)
    ensures SplitPosition(":" + line + ":" + column) == (":" + line + ":" + column, None, None)
  {
    assert "" + ":" + line == ":" + line;
    EndsInDigit(":", line);
    NotInBrackets(":" + line);
    OneSuffix("", line, 2);
    NoSuffix("", 1);
    EndsInDigit(":" + line + ":", column);
    NotInBrackets(":" + line + ":" + column);
    OneSuffix(":" + line, column, 2);
    OneSuffix("", line, 1);
    NoSuffix("", 0);
  }

  // ---------- escapes ----------

  const UPPER_HEX: string := "0123456789ABCDEF"
  const LOWER_HEX: string := "0123456789abcdef"

  /** A byte as a percent escape. */
  function Escape(b: Byte, upper: bool): string {
    var digits := if upper then UPPER_HEX else LOWER_HEX;
    ['%', digits[b / 16], digits[b % 16]]
  }

  function EscapeAll(b: seq<Byte>, upper: bool): string {
    if b == [] then "" else Escape(b[0], upper) + EscapeAll(b[1..], upper)
  }

  /** A text in which every percent sign, and every character that is not `kept`, is written as the escapes of
      its UTF-8 bytes. */
  function Escaped(s: string, kept: set<char>, upper: bool): string {
    if s == "" then ""
    else (if s[0] in kept && s[0] != '%' then [s[0]] else EscapeAll(Utf8Char(s[0] as int), upper)) + Escaped(s[1..], kept, upper)
  }

  lemma {:induction false} EncodeAppend(a: Text, b: Text)
    ensures EncodeUtf8(a + b) == EncodeUtf8(a) + EncodeUtf8(b)
  {
    if a == [] {
      assert a + b == b;
    } else {
      EncodeAppend(a[1..], b);
      assert a + b == [a[0]] + (a[1..] + b) && a == [a[0]] + a[1..];
      EncodeFirst(a[0], a[1..] + b);
      EncodeFirst(a[0], a[1..]);
      Reassociate(Utf8Char(a[0]), EncodeUtf8(a[1..]), EncodeUtf8(b));
    }
  }

  lemma {:induction false} Reassociate<T>(a: seq<T>, b: seq<T>, c: seq<T>)
    ensures a + b + c == a + (b + c)
  {
  }

  function Bytes(s: string): seq<Byte> {
    EncodeUtf8(Codes(s))
  }

  lemma {:induction false} BytesAppend(a: string, b: string)
    ensures Bytes(a + b) == Bytes(a) + Bytes(b)
  {
    assert Codes(a + b) == Codes(a) + Codes(b);
    EncodeAppend(Codes(a), Codes(b));
  }

  /** A text's length in bytes is that of its UTF-8 form. */
  lemma {:induction false} BytesCount(s: string)
    ensures ByteLength(s) == |Bytes(s)|
  {
    if s != "" {
      BytesCount(s[1..]);
      BytesAppend([s[0]], s[1..]);
      BytesOfOne(s[0]);
      assert s == [s[0]] + s[1..];
    }
  }

  lemma {:induction false} BytesOfOne(c: char)
    ensures Bytes([c]) == Utf8Char(c as int)
  {
    EncodeFirst(c as int, []);
    assert Codes([c]) == [c as int] + [];
    assert Utf8Char(c as int) + EncodeUtf8([]) == Utf8Char(c as int);
  }

  lemma {:induction false} PlainBytes(b: seq<Byte>, rest: seq<Byte>, decoded: seq<Byte>)
    requires PERCENT !in b && Unescaped(rest) == Some(decoded)
    ensures Unescaped(b + rest) == Some(b + decoded)
  {
    if b == [] {
      assert b + rest == rest && b + decoded == decoded;
    } else {
      PlainBytes(b[1..], rest, decoded);
      assert (b + rest)[0] == b[0] && (b + rest)[1..] == b[1..] + rest;
      assert [b[0]] + (b[1..] + decoded) == b + decoded;
    }
  }

  lemma {:induction false} HexDigitSays(n: int, upper: bool)
    requires 0 <= n < 16
    ensures var c := (if upper then UPPER_HEX else LOWER_HEX)[n] as int; c < 0x80 && HexValue(c) == Some(n)
  {
    var c := (if upper then UPPER_HEX else LOWER_HEX)[n];
    if n < 10 {
      assert c as int == 0x30 + n;
    } else {
      assert c as int == (if upper then 0x37 else 0x57) + n;
    }
  }

  lemma {:induction false} HexPair(b: Byte, e: seq<Byte>)
    requires |e| == 3 && HexValue(e[1]) == Some(b / 16) && HexValue(e[2]) == Some(b % 16)
    ensures b >= 0x20 && b != 0x7f ==> EscapedByte(e) == Some(b)
  {
  }

  lemma {:induction false} AsciiBytes(s: string)
    requires forall i :: 0 <= i < |s| ==> s[i] < '\U{80}'
    ensures Bytes(s) == Codes(s)
  {
    EncodeAscii(Codes(s));
  }

  lemma {:induction false} EscapeBytes(b: Byte, upper: bool)
    ensures var e := Bytes(Escape(b, upper));
      |e| == 3 && e[0] == 0x25 && (b >= 0x20 && b != 0x7f ==> EscapedByte(e) == Some(b))
  {
    HexDigitSays(b / 16, upper);
    HexDigitSays(b % 16, upper);
    var s := Escape(b, upper);
    AsciiBytes(s);
    HexPair(b, Bytes(s));
  }

  lemma {:induction false} OneEscape(b: Byte, upper: bool, rest: seq<Byte>, decoded: seq<Byte>)
    requires b >= 0x20 && b != 0x7f && Unescaped(rest) == Some(decoded)
    ensures Unescaped(Bytes(Escape(b, upper)) + rest) == Some([b] + decoded)
  {
    EscapeBytes(b, upper);
    var e := Bytes(Escape(b, upper));
    assert (e + rest)[3..] == rest && (e + rest)[..3] == e;
    UnescapedFirst(e + rest, b, decoded);
  }

  lemma {:induction false} EscapedBytes(b: seq<Byte>, upper: bool, rest: seq<Byte>, decoded: seq<Byte>)
    requires (forall i :: 0 <= i < |b| ==> !IsAsciiControl(b[i])) && Unescaped(rest) == Some(decoded)
    ensures Unescaped(Bytes(EscapeAll(b, upper)) + rest) == Some(b + decoded)
  {
    if b == [] {
      assert Bytes("") + rest == rest && b + decoded == decoded;
    } else {
      EscapedBytes(b[1..], upper, rest, decoded);
      EscapedNext(b[0], EscapeAll(b[1..], upper), upper, rest, b[1..] + decoded);
      assert [b[0]] + (b[1..] + decoded) == b + decoded;
    }
  }

  lemma {:induction false} EscapedNext(b: Byte, more: string, upper: bool, rest: seq<Byte>, decoded: seq<Byte>)
    requires !IsAsciiControl(b) && Unescaped(Bytes(more) + rest) == Some(decoded)
    ensures Unescaped(Bytes(Escape(b, upper) + more) + rest) == Some([b] + decoded)
  {
    OneEscape(b, upper, Bytes(more) + rest, decoded);
    BytesAppend(Escape(b, upper), more);
    assert Bytes(Escape(b, upper)) + Bytes(more) + rest == Bytes(Escape(b, upper)) + (Bytes(more) + rest);
  }

  lemma {:induction false} EscapedOne(c: char, keep: bool, upper: bool, rest: seq<Byte>, decoded: seq<Byte>)
    requires (keep ==> c != '%') && (keep || !IsAsciiControl(c as int)) && Unescaped(rest) == Some(decoded)
    ensures Unescaped(Bytes(if keep then [c] else EscapeAll(Utf8Char(c as int), upper)) + rest) == Some(Utf8Char(c as int) + decoded)
  {
    if keep {
      BytesOfOne(c);
      PlainBytes(Utf8Char(c as int), rest, decoded);
    } else {
      EscapedBytes(Utf8Char(c as int), upper, rest, decoded);
    }
  }

  lemma {:induction false} EscapedUnescapes(s: string, kept: set<char>, upper: bool)
    requires forall c :: c in s && IsAsciiControl(c as int) ==> c in kept
    ensures Unescaped(Bytes(Escaped(s, kept, upper))) == Some(Bytes(s))
  {
    if s != "" {
      EscapedUnescapes(s[1..], kept, upper);
      var keep := s[0] in kept && s[0] != '%';
      var rest := Escaped(s[1..], kept, upper);
      EscapedOne(s[0], keep, upper, Bytes(rest), Bytes(s[1..]));
      BytesAppend(if keep then [s[0]] else EscapeAll(Utf8Char(s[0] as int), upper), rest);
      BytesAppend([s[0]], s[1..]);
      BytesOfOne(s[0]);
      assert s == [s[0]] + s[1..];
    }
  }

  /** Whatever is escaped, in whichever case, decodes to the text it stands for. */
  lemma {:induction false} EscapedDecodes(s: string, kept: set<char>, upper: bool)
    requires forall c :: c in s && IsAsciiControl(c as int) ==> c in kept
    ensures PercentDecoded(Escaped(s, kept, upper)) == Some(s)
  {
    EscapedUnescapes(s, kept, upper);
    DecodeOfEncodeUtf8(Codes(s));
    assert Characters(Codes(s)) == s;
  }

  predicate IsHex(c: char) {
    c in UPPER_HEX || c in LOWER_HEX
  }

  lemma {:induction false} HexBytes(c: char)
    ensures var b := Bytes([c])[0]; HexValue(b).Some? <==> IsHex(c)
    ensures IsHex(c) ==> Bytes([c]) == [c as int]
  {
    BytesOfOne(c);
    if c < '\U{80}' {
      assert Utf8Char(c as int) == [c as int];
      assert HexValue(c as int).Some? <==> IsHex(c) by {
        HexDigits(c);
      }
    } else {
      HexDigits(c);
    }
  }

  lemma {:induction false} HexDigits(c: char)
    ensures IsHex(c) <==> '0' <= c <= '9' || 'A' <= c <= 'F' || 'a' <= c <= 'f'
  {
    if '0' <= c <= '9' {
      assert UPPER_HEX[c as int - 0x30] == c;
    } else if 'A' <= c <= 'F' {
      assert UPPER_HEX[c as int - 0x37] == c;
    } else if 'a' <= c <= 'f' {
      assert LOWER_HEX[c as int - 0x57] == c;
    }
  }

  /** Two hexadecimal digits that spell no ASCII control character. */
  predicate GoodEscape(rest: string) {
    |rest| >= 2 && IsHex(rest[0]) && IsHex(rest[1]) && rest[0] != '0' && rest[0] != '1' &&
    !(rest[0] == '7' && (rest[1] == 'f' || rest[1] == 'F'))
  }

  lemma {:induction false} NoBackwards(b: seq<Byte>, rest: seq<Byte>)
    requires Unescaped(b).Some? && Unescaped(rest).None?
    ensures Unescaped(b + rest).None?
  {
    if b == [] {
      assert b + rest == rest;
    } else {
      var n := if b[0] == PERCENT then 3 else 1;
      NoBackwards(b[n..], rest);
      assert (b + rest)[n..] == b[n..] + rest && (b + rest)[0] == b[0];
      if n == 3 {
        assert (b + rest)[1] == b[1] && (b + rest)[2] == b[2];
      }
    }
  }

  lemma {:induction false} FirstBytes(s: string)
    requires s != ""
    ensures Bytes(s) != [] && Bytes(s)[0] == Bytes([s[0]])[0]
    ensures IsHex(s[0]) ==> Bytes(s) == [s[0] as int] + Bytes(s[1..])
  {
    assert s == [s[0]] + s[1..];
    BytesAppend([s[0]], s[1..]);
    BytesOfOne(s[0]);
    HexBytes(s[0]);
  }

  lemma {:induction false} NoEscape(b: seq<Byte>)
    requires |b| < 3 || HexValue(b[1]).None? || HexValue(b[2]).None?
    ensures EscapedByte(b) == None
  {
  }

  lemma {:induction false} BadEscape(rest: string)
    requires !GoodEscape(rest)
    ensures EscapedByte([PERCENT] + Bytes(rest)) == None
  {
    var b := [PERCENT] + Bytes(rest);
    if rest == "" {
      NoEscape(b);
    } else if !IsHex(rest[0]) {
      FirstBytes(rest);
      HexBytes(rest[0]);
      assert b[1] == Bytes(rest)[0];
      NoEscape(b);
    } else {
      FirstBytes(rest);
      BadSecond(rest, b);
    }
  }

  lemma {:induction false} BadSecond(rest: string, b: seq<Byte>)
    requires rest != "" && IsHex(rest[0]) && !GoodEscape(rest) && b == [PERCENT] + ([rest[0] as int] + Bytes(rest[1..]))
    ensures EscapedByte(b) == None
  {
    if |rest| == 1 {
      NoEscape(b);
    } else {
      FirstBytes(rest[1..]);
      HexBytes(rest[1]);
      assert b[1] == rest[0] as int && b[2] == Bytes(rest[1..])[0];
      if IsHex(rest[1]) {
        HexDigits(rest[0]);
        HexDigits(rest[1]);
        assert b[2] == rest[1] as int;
      } else {
        NoEscape(b);
      }
    }
  }

  /** A percent sign that nothing sound follows spoils the whole text. */
  lemma {:induction false} BadEscapeIsRefused(front: string, rest: string)
    requires PercentDecoded(front).Some? && !GoodEscape(rest)
    ensures PercentDecoded(front + "%" + rest) == None
  {
    AroundPercent(front, rest);
    BadEscape(rest);
    NoBackwards(Bytes(front), [PERCENT] + Bytes(rest));
  }

  lemma {:induction false} AroundPercent(front: string, rest: string)
    ensures Bytes(front + "%" + rest) == Bytes(front) + ([PERCENT] + Bytes(rest))
  {
    BytesAppend(front + "%", rest);
    BytesAppend(front, "%");
    BytesOfOne('%');
    assert "%" == ['%'];
  }

  // ---------- file addresses ----------

  lemma {:induction false} SchemeDropped(scheme: string, rest: string)
    requires forall i :: 0 <= i < |scheme| ==> scheme[i] < '\U{80}'
    ensures DropBytes(scheme + rest, |scheme|) == Some(rest)
  {
    if scheme == "" {
      assert scheme + rest == rest;
    } else {
      var s := scheme + rest;
      SchemeDropped(scheme[1..], rest);
      assert s[1..] == scheme[1..] + rest && s[..1] == [scheme[0]];
      AsciiByteLength(s[..1]);
    }
  }

  lemma {:induction false} FileScheme(scheme: string)
    requires Lower(scheme) == "file:"
    ensures |scheme| == 5 && forall i :: 0 <= i < |scheme| ==> scheme[i] < '\U{80}'
  {
    forall i | 0 <= i < |scheme|
      ensures scheme[i] < '\U{80}'
    {
      assert ToAsciiLower(scheme[i]) == "file:"[i];
    }
  }

  /** A slash and a drive's letter stand at the front. */
  predicate NamesDrive(path: string) {
    |path| >= 3 && path[0] == '/' && path[2] == ':' && ('a' <= path[1] <= 'z' || 'A' <= path[1] <= 'Z')
  }

  /** This machine, which an empty host means as well. */
  predicate IsThisHost(host: string) {
    host == "" || Lower(host) == "localhost"
  }

  lemma {:induction false} HostSplit(host: string, path: string)
    requires '/' !in host && (path == "" || path[0] == '/')
    ensures WithoutHost("//" + host + path) == if IsThisHost(host) then path else "//" + host + path
  {
    var after := host + path;
    assert after[..|host|] == host && after[|host|..] == path && ("//" + host + path)[2..] == after;
    IndexOfIs(after, '/', |host|);
    assert "//" <= "//" + host + path;
  }

  /** What a file's address says behind its scheme is a host of this machine and a path, without the slash
      before a drive's letter, */
  lemma {:induction false} LocalAddress(scheme: string, rest: string, host: string, path: string)
    requires Lower(scheme) == "file:" && PercentDecoded(rest) == Some("//" + host + path)
    requires '/' !in host && IsThisHost(host) && (path == "" || path[0] == '/')
    ensures FileUriPath(scheme + rest) ==
      if path == "" || !ControlFree(path) then None else Some(if NamesDrive(path) then path[1..] else path)
  {
    FileScheme(scheme);
    SchemeDropped(scheme, rest);
    HostSplit(host, path);
    if NamesDrive(path) {
      assert ControlFree(path) == ControlFree(path[1..]) by {
        assert path == [path[0]] + path[1..];
      }
    }
  }

  /** or another host, which stays in front, */
  lemma {:induction false} NetworkAddress(scheme: string, rest: string, host: string, path: string)
    requires Lower(scheme) == "file:" && PercentDecoded(rest) == Some("//" + host + path)
    requires '/' !in host && !IsThisHost(host) && (path == "" || path[0] == '/')
    ensures FileUriPath(scheme + rest) == if ControlFree(host + path) then Some("//" + host + path) else None
  {
    var all := "//" + host + path;
    AddressIs(scheme, rest, all);
    NetworkStays(host, path, all);
  }

  lemma {:induction false} NetworkStays(host: string, path: string, all: string)
    requires all == "//" + host + path && '/' !in host && !IsThisHost(host) && (path == "" || path[0] == '/')
    ensures WithoutSlash(WithoutHost(all)) == all != "" && (ControlFree(all) <==> ControlFree(host + path))
  {
    HostSplit(host, path);
    assert all == "//" + (host + path);
    StaysNetwork(all, host + path);
  }

  lemma {:induction false} AddressIs(scheme: string, rest: string, decoded: string)
    requires Lower(scheme) == "file:" && PercentDecoded(rest) == Some(decoded)
    ensures var path := WithoutSlash(WithoutHost(decoded));
      FileUriPath(scheme + rest) == if path != "" && ControlFree(path) then Some(path) else None
  {
    FileScheme(scheme);
    SchemeDropped(scheme, rest);
  }

  lemma {:induction false} StaysNetwork(all: string, named: string)
    requires all == "//" + named
    ensures WithoutSlash(all) == all != "" && (ControlFree(all) <==> ControlFree(named))
  {
    assert all[1] == '/' && all[0] == '/';
    assert forall i :: 0 <= i < |named| ==> all[i + 2] == named[i];
    assert forall i :: 2 <= i < |all| ==> all[i] == named[i - 2];
  }

  /** or a path alone. */
  lemma {:induction false} BareAddress(scheme: string, rest: string, path: string)
    requires Lower(scheme) == "file:" && PercentDecoded(rest) == Some(path) && !("//" <= path)
    ensures FileUriPath(scheme + rest) ==
      if path == "" || !ControlFree(path) then None else Some(if NamesDrive(path) then path[1..] else path)
  {
    FileScheme(scheme);
    SchemeDropped(scheme, rest);
    if NamesDrive(path) {
      assert path == [path[0]] + path[1..];
    }
  }

  /** What does not decode names nothing. */
  lemma {:induction false} UndecodedAddress(scheme: string, rest: string)
    requires Lower(scheme) == "file:" && PercentDecoded(rest) == None
    ensures FileUriPath(scheme + rest) == None
  {
    FileScheme(scheme);
    SchemeDropped(scheme, rest);
  }

  // ---------- where a token begins and ends ----------

  const WHITE_SPACE: string :=
    "\U{9}\U{a}\U{b}\U{c}\U{d} \U{85}\U{a0}\U{1680}\U{2000}\U{2001}\U{2002}\U{2003}\U{2004}\U{2005}\U{2006}\U{2007}\U{2008}\U{2009}\U{200a}\U{2028}\U{2029}\U{202f}\U{205f}\U{3000}"

  /** White space, a quote, an angle bracket, a bar or a control character of ASCII. */
  predicate Parts(c: char) {
    c in WHITE_SPACE || c in "\"'`<>|" || c as int < 32
  }

  lemma {:induction false} WhiteSpaceIs(c: char)
    ensures IsWhitespace(c) <==> c in WHITE_SPACE
  {
    if '\U{9}' <= c <= '\U{d}' {
      assert WHITE_SPACE[c as int - 9] == c;
    } else if '\U{2000}' <= c <= '\U{200a}' {
      assert WHITE_SPACE[c as int - 0x2000 + 9] == c;
    } else {
      assert WHITE_SPACE[5] == ' ' && WHITE_SPACE[6] == '\U{85}' && WHITE_SPACE[7] == '\U{a0}' && WHITE_SPACE[8] == '\U{1680}';
      assert WHITE_SPACE[20] == '\U{2028}' && WHITE_SPACE[21] == '\U{2029}' && WHITE_SPACE[22] == '\U{202f}';
      assert WHITE_SPACE[23] == '\U{205f}' && WHITE_SPACE[24] == '\U{3000}';
    }
  }

  /** What parts tokens. */
  lemma {:induction false} BreaksPart(c: char)
    ensures IsBreak(c) <==> Parts(c)
  {
    WhiteSpaceIs(c);
    assert c in "\"'`<>|" <==> c == '"' || c == '\'' || c == '`' || c == '<' || c == '>' || c == '|';
  }

  /** A text whose last character belongs to the sentence around it: a stop, a closing bracket with too few opening
      ones, or, unless it is an address, a mark of emphasis. */
  predicate EndsOutside(s: string, url: bool) {
    s != "" &&
    var last := s[|s| - 1];
    last in ".,;!?:" ||
    (exists k :: 0 <= k < 3 && last == ")]}"[k] && multiset(s)[last] > multiset(s)["([{"[k]]) ||
    (!url && last in "*_")
  }

  lemma {:induction false} CountsIn(chars: string, start: nat, end: nat, c: char)
    requires start <= end <= |chars|
    ensures CountIn(chars, start, end, c) == multiset(chars[start..end])[c]
  {
    if start < end {
      CountsIn(chars, start, end - 1, c);
      assert chars[start..end] == chars[start..end - 1] + [chars[end - 1]];
    }
  }

  lemma {:induction false} DropsExactly(chars: string, start: nat, end: nat, url: bool)
    requires start < end <= |chars|
    ensures Drops(chars, start, end, url) <==> EndsOutside(chars[start..end], url)
  {
    var s := chars[start..end];
    forall k | 0 <= k < 3
      ensures Unbalanced(chars, start, end, "([{"[k], ")]}"[k]) <==> multiset(s)[")]}"[k]] > multiset(s)["([{"[k]]
    {
      CountsIn(chars, start, end, "([{"[k]);
      CountsIn(chars, start, end, ")]}"[k]);
    }
    BracketsAre(s[|s| - 1], chars, start, end);
  }

  lemma {:induction false} BracketsAre(last: char, chars: string, start: nat, end: nat)
    requires start < end <= |chars|
    ensures (exists k :: 0 <= k < 3 && last == ")]}"[k] && Unbalanced(chars, start, end, "([{"[k], ")]}"[k])) <==>
      (last == ')' && Unbalanced(chars, start, end, '(', ')')) ||
      (last == ']' && Unbalanced(chars, start, end, '[', ']')) ||
      (last == '}' && Unbalanced(chars, start, end, '{', '}'))
  {
    assert ")]}"[0] == ')' && ")]}"[1] == ']' && ")]}"[2] == '}';
    assert "([{"[0] == '(' && "([{"[1] == '[' && "([{"[2] == '{';
  }

  /** `core` is what is left of a token when opening brackets and separators are taken off its front, and then what
      does not belong to it off its end, one by one. */
  predicate Wrapped(opening: string, core: string, closing: string, url: bool) {
    (forall k :: 0 <= k < |opening| ==> opening[k] in "([{,;") && core != "" && core[0] !in "([{,;" && !EndsOutside(core, url) &&
    forall k :: 0 < k <= |closing| ==> EndsOutside(core + closing[..k], url)
  }

  lemma {:induction false} SkipsOpening(chars: string, from: nat, start: nat, to: nat)
    requires from <= start <= to <= |chars| && (forall k :: from <= k < start ==> chars[k] in "([{,;")
    requires start < to ==> chars[start] !in "([{,;"
    ensures SkipOpeners(chars, from, to) == start
    decreases start - from
  {
    assert forall c :: c in "([{,;" <==> c in {'(', '[', '{', ',', ';'};
    if from < start {
      SkipsOpening(chars, from + 1, start, to);
    }
  }

  lemma {:induction false} TrimsClosing(chars: string, start: nat, end: nat, limit: nat, url: bool)
    requires start < end <= limit <= |chars| && !EndsOutside(chars[start..end], url)
    requires forall k :: end < k <= limit ==> EndsOutside(chars[start..k], url)
    ensures TrimmedEnd(chars, start, limit, url) == end
    decreases limit
  {
    DropsExactly(chars, start, limit, url);
    if end < limit {
      TrimsClosing(chars, start, end, limit - 1, url);
    }
  }

  lemma {:induction false} CutThree(s: string, from: nat, a: string, b: string, c: string)
    requires from + |a + b + c| <= |s| && s[from..from + |a + b + c|] == a + b + c
    ensures s[from..from + |a|] == a && s[from + |a|..from + |a| + |b|] == b
    ensures forall k :: 0 <= k <= |c| ==> s[from + |a|..from + |a| + |b| + k] == b + c[..k]
  {
    var all := a + b + c;
    CutWithin(s, from, from + |all|, 0, |a|);
    assert all[0..|a|] == a;
    CutWithin(s, from, from + |all|, |a|, |a| + |b|);
    assert all[|a|..|a| + |b|] == b;
    forall k | 0 <= k <= |c|
      ensures s[from + |a|..from + |a| + |b| + k] == b + c[..k]
    {
      CutWithin(s, from, from + |all|, |a|, |a| + |b| + k);
      assert all[|a|..|a| + |b| + k] == b + c[..k];
    }
  }

  lemma {:induction false} CutWithin(s: string, i: nat, j: nat, k: nat, m: nat)
    requires i <= j <= |s| && k <= m <= j - i
    ensures s[i..j][k..m] == s[i + k..i + m]
  {
    var cut := s[i..j];
    forall q | 0 <= q < m - k
      ensures cut[k..m][q] == s[i + k..i + m][q]
    {
      assert cut[k + q] == s[i + (k + q)];
    }
  }

  lemma {:induction false} PartsAt(chars: string, from: nat, start: nat, end: nat, limit: nat, opening: string, core: string, closing: string)
    requires from <= limit <= |chars| && chars[from..limit] == opening + core + closing
    requires start == from + |opening| && end == start + |core| && limit == end + |closing|
    ensures chars[from..start] == opening && chars[start..end] == core && chars[start..limit] == core + closing
    ensures forall k :: 0 <= k <= |closing| ==> chars[start..end + k] == core + closing[..k]
  {
    assert limit == from + |opening + core + closing|;
    CutThree(chars, from, opening, core, closing);
    assert closing[..|closing|] == closing;
  }

  /** The start and the end of what is wrapped in a token. */
  lemma {:induction false} Unwraps(chars: string, from: nat, start: nat, end: nat, limit: nat, opening: string, core: string, closing: string, url: bool)
    requires from <= limit <= |chars| && chars[from..limit] == opening + core + closing
    requires start == from + |opening| && end == start + |core| && limit == end + |closing|
    requires Wrapped(opening, core, closing, url)
    ensures SkipOpeners(chars, from, limit) == start && TrimmedEnd(chars, start, limit, url) == end
    ensures chars[start..limit] == core + closing && chars[start..end] == core
  {
    PartsAt(chars, from, start, end, limit, opening, core, closing);
    UnwrapsAt(chars, from, start, end, limit, opening, core, closing, url);
  }

  lemma {:induction false} UnwrapsAt(chars: string, from: nat, start: nat, end: nat, limit: nat, opening: string, core: string, closing: string, url: bool)
    requires Wrapped(opening, core, closing, url) && from <= start <= end <= limit <= |chars| && limit == end + |closing|
    requires chars[from..start] == opening && chars[start..end] == core
    requires forall k :: 0 <= k <= |closing| ==> chars[start..end + k] == core + closing[..k]
    ensures SkipOpeners(chars, from, limit) == start && TrimmedEnd(chars, start, limit, url) == end
  {
    assert chars[start] == core[0];
    assert forall k :: from <= k < start ==> chars[k] == opening[k - from];
    SkipsOpening(chars, from, start, limit);
    forall k | end < k <= limit
      ensures EndsOutside(chars[start..k], url)
    {
      assert chars[start..end + (k - end)] == core + closing[..k - end];
    }
    TrimsClosing(chars, start, end, limit, url);
  }
}
