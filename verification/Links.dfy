/**
 * The grammar by which a line's links are found, quoted ones first and then token by token, and the
 * grammar of explicit links. An `Alphabet` says what letters are and what their lower case is.
 */
module Links {
  import opened Outcome
  import opened Chars
  import opened Unicode
  import opened Pieces
  import opened Paths
  import opened Sorting

  datatype Target = Web(url: string) | Scheme(address: string) | File(path: string, line: Option<nat>, column: Option<nat>)

  /** The characters from `start` up to `end` lead to `target`. */
  datatype Link = Link(start: nat, end: nat, target: Target)

  datatype Alphabet = Alphabet(letter: char -> bool, alphanumeric: char -> bool, lower: string -> string)

  const ALLOWED_SCHEMES: seq<string> := ["mailto:", "tel:"]

  predicate IsQuote(c: char) {
    c == '"' || c == '\'' || c == '`'
  }

  /** No token holds any of these. */
  predicate IsBreak(c: char) {
    IsWhitespace(c) || IsQuote(c) || c == '<' || c == '>' || c == '|' || c < ' '
  }

  function ByteLength(s: string): nat {
    if s == "" then 0
    else ByteLength(s[1..]) + if s[0] < '\U{80}' then 1 else if s[0] < '\U{800}' then 2 else if s[0] < '\U{10000}' then 3 else 4
  }

  predicate HasAt(s: string, part: string, i: nat) {
    i + |part| <= |s| && s[i..i + |part|] == part
  }

  predicate Contains(s: string, part: string) {
    exists i :: 0 <= i <= |s| && HasAt(s, part, i)
  }

  predicate StartsWith(s: string, part: string) {
    part <= s
  }

  // ---------- positions ----------

  /** A 32-bit decimal number. */
  function Number(s: string): Option<nat> {
    if s != "" && AllDigits(s) && Value(s) < 0x1_0000_0000 then Some(Value(s)) else None
  }

  /** Up to `most` `:number` suffixes off a path, the last one first. */
  function Suffixes(path: string, most: nat): (r: (string, seq<nat>))
    ensures r.0 <= path && |r.1| <= most
    decreases most
  {
    match LastIndexOf(path, ':')
    case None => (path, [])
    case Some(colon) =>
      var n := Number(path[colon + 1..]);
      if most == 0 || n.None? then (path, [])
      else
        var (rest, more) := Suffixes(path[..colon], most - 1);
        (rest, [n.value] + more)
  }

  /** The inside of a closing `(line)` or `(line,col)`, and where it opens. */
  function Parenthesised(raw: string): Option<(nat, nat, Option<nat>)> {
    match LastIndexOf(raw, '(')
    case None => None
    case Some(open) =>
      if raw[|raw| - 1] != ')' || open == 0 then None
      else
        var inner := raw[open + 1..|raw| - 1];
        var comma := IndexOf(inner, ',');
        var line := Number(Trim(inner[..comma]));
        if line.None? then None
        else Some((open, line.value, if comma < |inner| then Number(Trim(inner[comma + 1..])) else None))
  }

  /** A path without its position, and the position. */
  function SplitPosition(raw: string): (r: (string, Option<nat>, Option<nat>))
    ensures r.0 <= raw
    ensures r.0 == "" ==> raw == ""
  {
    match Parenthesised(raw)
    case Some((open, line, column)) => (raw[..open], Some(line), column)
    case None =>
      var (path, numbers) := Suffixes(raw, 2);
      if path == "" || (ByteLength(path) == 1 && |numbers| == 1) then (raw, None, None)
      else
        (path,
         if numbers == [] then None else Some(numbers[|numbers| - 1]),
         if |numbers| < 2 then None else Some(numbers[0]))
  }

  // ---------- what reads as a path ----------

  predicate ControlFree(s: string) {
    forall i :: 0 <= i < |s| ==> !IsControl(s[i])
  }

  predicate IsAsciiLetter(c: char) {
    IsAsciiUpper(c) || IsAsciiLower(c)
  }

  predicate IsAsciiAlphanumeric(c: char) {
    IsAsciiLetter(c) || IsAsciiDigit(c)
  }

  predicate IsSeparator(c: char) {
    c == '/' || c == '\\'
  }

  /** What stands behind the last separator. */
  function LastPart(path: string): string {
    if path == "" || IsSeparator(path[|path| - 1]) then "" else LastPart(path[..|path| - 1]) + [path[|path| - 1]]
  }

  predicate HasExtension(name: string) {
    match LastIndexOf(name, '.')
    case None => false
    case Some(dot) =>
      var ext := name[dot + 1..];
      dot > 0 && 1 <= |ext| <= 10 &&
      (forall i :: 0 <= i < |ext| ==> IsAsciiAlphanumeric(ext[i])) && (exists i :: 0 <= i < |ext| && IsAsciiLetter(ext[i]))
  }

  predicate IsExplicit(path: string) {
    (|path| >= 3 && IsAsciiLetter(path[0]) && path[1] == ':' && IsSeparator(path[2])) ||
    StartsWith(path, "~/") || StartsWith(path, "./") || StartsWith(path, "../") || StartsWith(path, ".\\") ||
    StartsWith(path, "..\\") || StartsWith(path, "\\\\") ||
    (StartsWith(path, "/") && |path| > 1 && !StartsWith(path, "//"))
  }

  predicate LooksLikePath(a: Alphabet, path: string, hasPosition: bool) {
    path != "" && ControlFree(path) && (exists i :: 0 <= i < |path| && a.letter(path[i])) &&
    if IsExplicit(path) then ByteLength(path) > 2
    else
      var separated := exists i :: 0 <= i < |path| && IsSeparator(path[i]);
      if hasPosition then HasExtension(LastPart(path)) || separated else separated && HasExtension(LastPart(path))
  }

  // ---------- file addresses ----------

  function HexValue(b: Byte): (r: Option<nat>)
    ensures r.Some? ==> r.value < 16
  {
    if 0x30 <= b <= 0x39 then Some(b - 0x30)
    else if 0x41 <= b <= 0x46 then Some(b - 0x41 + 10)
    else if 0x61 <= b <= 0x66 then Some(b - 0x61 + 10)
    else None
  }

  const PERCENT: Byte := 0x25

  /** The byte that `%xy` stands for, unless it is a control character. */
  function EscapedByte(b: seq<Byte>): (r: Option<Byte>)
    ensures r.Some? ==> |b| >= 3 && r.value >= 0x20 && r.value != 0x7f
  {
    if |b| < 3 || HexValue(b[1]).None? || HexValue(b[2]).None? then None
    else
      var v := HexValue(b[1]).value * 16 + HexValue(b[2]).value;
      if v < 0x20 || v == 0x7f then None else Some(v)
  }

  function Unescaped(b: seq<Byte>): Option<seq<Byte>> {
    if b == [] then Some([])
    else if b[0] == PERCENT then
      match EscapedByte(b)
      case None => None
      case Some(x) =>
        var rest := Unescaped(b[3..]);
        if rest.None? then None else Some([x] + rest.value)
    else
      var rest := Unescaped(b[1..]);
      if rest.None? then None else Some([b[0]] + rest.value)
  }

  function Codes(s: string): Text {
    seq(|s|, i requires 0 <= i < |s| => s[i] as int)
  }

  function Characters(t: Text): string {
    seq(|t|, i requires 0 <= i < |t| => t[i] as char)
  }

  /** `None` if an escape is malformed or an ASCII control, or the bytes are not UTF-8. */
  function PercentDecoded(s: string): Option<string> {
    match Unescaped(EncodeUtf8(Codes(s)))
    case None => None
    case Some(b) =>
      match DecodeUtf8(b)
      case Err(_) => None
      case Ok(t) => Some(Characters(t))
  }

  method PercentDecode(s: string) returns (r: Option<string>)
    ensures r == PercentDecoded(s)
  {
    var bytes := EncodeUtf8(Codes(s));
    var out: seq<Byte> := [];
    var i := 0;
    PrefixedNone(Unescaped(bytes));
    assert bytes[0..] == bytes;
    while i < |bytes|
      invariant 0 <= i <= |bytes|
      invariant Unescaped(bytes) == Prefixed(out, Unescaped(bytes[i..]))
    {
      if bytes[i] == PERCENT {
        var b := EscapedByte(bytes[i..]);
        if b.None? {
          return None;
        }
        assert bytes[i..][3..] == bytes[i + 3..];
        PrefixedMore(out, b.value, Unescaped(bytes[i + 3..]));
        out := out + [b.value];
        i := i + 3;
      } else {
        assert bytes[i..][1..] == bytes[i + 1..];
        PrefixedMore(out, bytes[i], Unescaped(bytes[i + 1..]));
        out := out + [bytes[i]];
        i := i + 1;
      }
    }
    assert bytes[|bytes|..] == [] && out + [] == out;
    var decoded := DecodeUtf8(out);
    return if decoded.Ok? then Some(Characters(decoded.value)) else None;
  }

  ghost function Prefixed(out: seq<Byte>, rest: Option<seq<Byte>>): Option<seq<Byte>> {
    if rest.None? then None else Some(out + rest.value)
  }

  lemma {:induction false} PrefixedNone(rest: Option<seq<Byte>>)
    ensures Prefixed([], rest) == rest
  {
    if rest.Some? {
      assert [] + rest.value == rest.value;
    }
  }

  lemma {:induction false} PrefixedMore(out: seq<Byte>, b: Byte, rest: Option<seq<Byte>>)
    ensures Prefixed(out, if rest.None? then None else Some([b] + rest.value)) == Prefixed(out + [b], rest)
  {
    if rest.Some? {
      assert out + ([b] + rest.value) == out + [b] + rest.value;
    }
  }

  /** A text without its first `n` bytes, if they are whole characters. */
  function DropBytes(s: string, n: nat): Option<string> {
    if n == 0 then Some(s)
    else if s == "" || ByteLength(s[..1]) > n then None
    else if ByteLength(s[..1]) == 0 then None
    else DropBytes(s[1..], n - ByteLength(s[..1]))
  }

  /** A host that is not this one stays, as a network path. */
  function WithoutHost(decoded: string): string {
    if !StartsWith(decoded, "//") then decoded
    else
      var after := decoded[2..];
      var host, path := after[..IndexOf(after, '/')], after[IndexOf(after, '/')..];
      if host == "" || Lower(host) == "localhost" then path else "//" + host + path
  }

  /** Without the slash before a drive's letter. */
  function WithoutSlash(path: string): string {
    if |path| >= 3 && path[0] == '/' && IsAsciiLetter(path[1]) && path[2] == ':' then path[1..] else path
  }

  /** Never empty, and free of control characters even when they were escaped. */
  function FileUriPath(uri: string): (r: Option<string>)
    ensures r.Some? ==> r.value != "" && ControlFree(r.value) && uri != ""
  {
    match DropBytes(uri, 5)
    case None => None
    case Some(rest) =>
      match PercentDecoded(rest)
      case None => None
      case Some(decoded) =>
        var path := WithoutSlash(WithoutHost(decoded));
        if path != "" && ControlFree(path) then Some(path) else None
  }

  // ---------- explicit links ----------

  /** `None` for every scheme but the web's, the allowed ones and `file:`, and for any control character. */
  function Classify(uri: string): Option<Target> {
    var u := Trim(uri);
    var lower := Lower(u);
    if !ControlFree(u) then None
    else if IsWeb(lower) then (if ByteLength(u) > SchemeLength(lower) then Some(Web(u)) else None)
    else if StartsWith(lower, "file:") then
      var (address, line, column) := SplitPosition(u);
      match FileUriPath(address)
      case None => None
      case Some(path) => Some(File(path, line, column))
    else if AllowedScheme(lower).Some? then Some(Scheme(u))
    else None
  }

  // ---------- tokens ----------

  function CountIn(chars: string, start: nat, end: nat, c: char): nat
    requires start <= end <= |chars|
  {
    if start == end then 0 else CountIn(chars, start, end - 1, c) + if chars[end - 1] == c then 1 else 0
  }

  predicate Unbalanced(chars: string, start: nat, end: nat, open: char, close: char)
    requires start <= end <= |chars|
  {
    CountIn(chars, start, end, close) > CountIn(chars, start, end, open)
  }

  /** Whether the last character of a token does not belong to a link. */
  predicate Drops(chars: string, start: nat, end: nat, url: bool)
    requires start < end <= |chars|
  {
    var last := chars[end - 1];
    last in {'.', ',', ';', '!', '?', ':'} ||
    (last == ')' && Unbalanced(chars, start, end, '(', ')')) ||
    (last == ']' && Unbalanced(chars, start, end, '[', ']')) ||
    (last == '}' && Unbalanced(chars, start, end, '{', '}')) ||
    (!url && (last == '*' || last == '_'))
  }

  function TrimmedEnd(chars: string, start: nat, end: nat, url: bool): (e: nat)
    requires start <= end <= |chars|
    ensures start <= e <= end
    ensures e < end ==> Drops(chars, start, end, url)
    ensures start < e ==> !Drops(chars, start, e, url)
  {
    if start < end && Drops(chars, start, end, url) then TrimmedEnd(chars, start, end - 1, url) else end
  }

  function SkipOpeners(chars: string, start: nat, end: nat): (s: nat)
    requires start <= end <= |chars|
    ensures start <= s <= end
    decreases end - start
  {
    if start < end && chars[start] in {'(', '[', '{', ',', ';'} then SkipOpeners(chars, start + 1, end) else start
  }

  predicate IsWeb(lower: string) {
    StartsWith(lower, "http://") || StartsWith(lower, "https://")
  }

  /** The length of a web address's scheme, separators included. */
  function SchemeLength(lower: string): nat {
    if StartsWith(lower, "http://") then 7 else 8
  }

  function AllowedScheme(lower: string): (r: Option<string>)
    ensures r.Some? ==> r.value in ALLOWED_SCHEMES && StartsWith(lower, r.value)
    ensures r.None? ==> forall i :: 0 <= i < |ALLOWED_SCHEMES| ==> !StartsWith(lower, ALLOWED_SCHEMES[i])
  {
    if StartsWith(lower, "mailto:") then Some(ALLOWED_SCHEMES[0])
    else if StartsWith(lower, "tel:") then Some(ALLOWED_SCHEMES[1])
    else None
  }

  /** Some other `scheme://`. */
  predicate IsOtherScheme(lower: string) {
    var colon := IndexOf(lower, ':');
    colon < |lower| && colon > 1 && StartsWith(lower[colon + 1..], "//") &&
    forall i :: 0 <= i < colon ==> IsAsciiAlphanumeric(lower[i]) || lower[i] in {'+', '-', '.'}
  }

  predicate IsEmail(a: Alphabet, text: string) {
    var at := IndexOf(text, '@');
    at < |text| && at > 0 && (forall i :: 0 <= i < at ==> a.alphanumeric(text[i]) || text[i] in {'.', '_', '%', '+', '-'}) &&
    var domain := text[at + 1..];
    '.' in domain && domain[0] != '.' && domain[|domain| - 1] != '.' &&
    forall i :: 0 <= i < |domain| ==> a.alphanumeric(domain[i]) || domain[i] == '.' || domain[i] == '-'
  }

  /** A link that is not empty, lies within a stretch of text, and, to a file, names one. */
  predicate IsLinkIn(link: Link, from: nat, to: nat) {
    from <= link.start < link.end <= to &&
    (link.target.File? ==> link.target.path != "" && ControlFree(link.target.path))
  }

  /** A file link for `raw`, if it reads as a path. */
  function PathLink(a: Alphabet, start: nat, raw: string): (r: Option<Link>)
    ensures r.Some? ==> IsLinkIn(r.value, start, start + |raw|) && r.value.start == start && r.value.target.File?
  {
    var (path, line, column) := SplitPosition(raw);
    if LooksLikePath(a, path, line.Some?) then Some(Link(start, start + |raw|, File(path, line, column))) else None
  }

  function WebLink(start: nat, url: string, schemeLength: nat): (r: Option<Link>)
    ensures r.Some? ==> IsLinkIn(r.value, start, start + |url|)
  {
    if ByteLength(url) > schemeLength then Some(Link(start, start + |url|, Web(url))) else None
  }

  function FileLink(start: nat, raw: string): (r: Option<Link>)
    ensures r.Some? ==> IsLinkIn(r.value, start, start + |raw|)
  {
    var (uri, line, column) := SplitPosition(raw);
    match FileUriPath(uri)
    case None => None
    case Some(path) => Some(Link(start, start + |raw|, File(path, line, column)))
  }

  function SchemeLink(start: nat, address: string, scheme: string): (r: Option<Link>)
    ensures r.Some? ==> IsLinkIn(r.value, start, start + |address|)
  {
    if |address| > |scheme| then Some(Link(start, start + |address|, Scheme(address))) else None
  }

  /** What the characters between two breaks lead to, the first kind that fits in a fixed order. */
  function TokenLink(a: Alphabet, chars: string, from: nat, to: nat): (r: Option<Link>)
    requires from <= to <= |chars|
    ensures r.Some? ==> IsLinkIn(r.value, from, to)
  {
    var start := SkipOpeners(chars, from, to);
    var lower := a.lower(chars[start..to]);
    var url, text := chars[start..TrimmedEnd(chars, start, to, true)], chars[start..TrimmedEnd(chars, start, to, false)];
    if IsWeb(lower) then WebLink(start, url, SchemeLength(lower))
    else if StartsWith(lower, "file:") then FileLink(start, url)
    else if AllowedScheme(lower).Some? then SchemeLink(start, text, AllowedScheme(lower).value)
    else if IsOtherScheme(lower) then None
    else if IsEmail(a, text) then Some(Link(start, start + |text|, Scheme("mailto:" + text)))
    else PathLink(a, start, text)
  }

  // ---------- finding ----------

  /** What a pair of quotes holds, as a link. */
  function QuotedLink(a: Alphabet, chars: string, open: nat, close: nat): (r: Option<Link>)
    requires open < close <= |chars|
    ensures r.Some? ==> IsLinkIn(r.value, open + 1, close) && r.value.start == open + 1 && r.value.target.File?
  {
    var inner := chars[open + 1..close];
    if ' ' in inner && !Contains(inner, "://") then PathLink(a, open + 1, inner) else None
  }

  function Optional<T>(o: Option<T>): seq<T> {
    if o.Some? then [o.value] else []
  }

  /** The place of `c` at or behind `i`. */
  function NextOf(chars: string, i: nat, c: char): (k: nat)
    requires i <= |chars|
    ensures i <= k <= |chars| && (k < |chars| ==> chars[k] == c)
    decreases |chars| - i
  {
    if i == |chars| || chars[i] == c then i else NextOf(chars, i + 1, c)
  }

  function QuotedFrom(a: Alphabet, chars: string, i: nat): seq<Link>
    requires i <= |chars|
    decreases |chars| - i
  {
    if i == |chars| then []
    else if !IsQuote(chars[i]) then QuotedFrom(a, chars, i + 1)
    else
      var close := NextOf(chars, i + 1, chars[i]);
      if close == |chars| then QuotedFrom(a, chars, i + 1)
      else Optional(QuotedLink(a, chars, i, close)) + QuotedFrom(a, chars, close + 1)
  }

  predicate Covered(links: seq<Link>, i: nat) {
    exists k :: 0 <= k < |links| && links[k].start <= i < links[k].end
  }

  function TokenEnd(chars: string, i: nat): (j: nat)
    requires i <= |chars|
    ensures i <= j <= |chars| && (forall k :: i <= k < j ==> !IsBreak(chars[k]))
    ensures i < |chars| && !IsBreak(chars[i]) ==> i < j
    ensures j < |chars| ==> IsBreak(chars[j])
    decreases |chars| - i
  {
    if i == |chars| || IsBreak(chars[i]) then i else TokenEnd(chars, i + 1)
  }

  function TokensFrom(a: Alphabet, chars: string, quoted: seq<Link>, i: nat): seq<Link>
    requires i <= |chars|
    decreases |chars| - i
  {
    if i == |chars| then []
    else if IsBreak(chars[i]) || Covered(quoted, i) then TokensFrom(a, chars, quoted, i + 1)
    else
      var j := TokenEnd(chars, i);
      Optional(TokenLink(a, chars, i, j)) + TokensFrom(a, chars, quoted, j)
  }

  /** By where they start. */
  function Earlier(): (Link, Link) -> bool {
    (x: Link, y: Link) => x.start < y.start
  }

  function LinksOf(a: Alphabet, chars: string): seq<Link> {
    var quoted := QuotedFrom(a, chars, 0);
    Sort(quoted + TokensFrom(a, chars, quoted, 0), Earlier())
  }

  method Quoted(a: Alphabet, chars: string) returns (out: seq<Link>)
    ensures out == QuotedFrom(a, chars, 0)
  {
    out := [];
    var i := 0;
    while i < |chars|
      invariant 0 <= i <= |chars|
      invariant out + QuotedFrom(a, chars, i) == QuotedFrom(a, chars, 0)
    {
      var close := if IsQuote(chars[i]) then NextOf(chars, i + 1, chars[i]) else |chars|;
      if close < |chars| {
        QuotedNext(a, chars, i, out);
        out := Pushed(out, QuotedLink(a, chars, i, close));
        i := close + 1;
      } else {
        i := i + 1;
      }
    }
    assert out + [] == out;
  }

  lemma {:induction false} QuotedNext(a: Alphabet, chars: string, i: nat, out: seq<Link>)
    requires i < |chars| && IsQuote(chars[i]) && NextOf(chars, i + 1, chars[i]) < |chars|
    ensures var close := NextOf(chars, i + 1, chars[i]);
      out + QuotedFrom(a, chars, i) == Pushed(out, QuotedLink(a, chars, i, close)) + QuotedFrom(a, chars, close + 1)
  {
    var close := NextOf(chars, i + 1, chars[i]);
    PutBehind(out, QuotedLink(a, chars, i, close), QuotedFrom(a, chars, close + 1));
  }

  function Pushed<T>(out: seq<T>, x: Option<T>): seq<T> {
    if x.Some? then out + [x.value] else out
  }

  lemma {:induction false} PutBehind(out: seq<Link>, link: Option<Link>, rest: seq<Link>)
    ensures out + (Optional(link) + rest) == Pushed(out, link) + rest
  {
  }

  /** Two passes, the second skipping what the first has covered, and a sort by start. */
  method Find(a: Alphabet, chars: string) returns (links: seq<Link>)
    ensures links == LinksOf(a, chars)
  {
    var quoted := Quoted(a, chars);
    var out := quoted;
    ghost var tokens: seq<Link> := [];
    assert quoted + [] == quoted;
    var i := 0;
    while i < |chars|
      invariant 0 <= i <= |chars| && out == quoted + tokens
      invariant tokens + TokensFrom(a, chars, quoted, i) == TokensFrom(a, chars, quoted, 0)
      invariant EndBy(tokens, i)
    {
      OnlyQuotedCover(quoted, tokens, i);
      if IsBreak(chars[i]) || Covered(out, i) {
        i := i + 1;
        continue;
      }
      var j := i;
      while j < |chars| && !IsBreak(chars[j])
        invariant i <= j <= |chars| && TokenEnd(chars, j) == TokenEnd(chars, i)
      {
        j := j + 1;
      }
      var link := TokenLink(a, chars, i, j);
      OneMoreToken(quoted, tokens, link, TokensFrom(a, chars, quoted, j), i, j);
      tokens := tokens + Optional(link);
      out := out + Optional(link);
      i := j;
    }
    assert tokens + [] == tokens;
    links := Sort(out, Earlier());
  }

  predicate EndBy(links: seq<Link>, i: nat) {
    forall k :: 0 <= k < |links| ==> links[k].end <= i
  }

  lemma {:induction false} OneMoreToken(quoted: seq<Link>, tokens: seq<Link>, link: Option<Link>, rest: seq<Link>, i: nat, j: nat)
    requires EndBy(tokens, i) && i <= j && (link.Some? ==> link.value.end <= j)
    ensures EndBy(tokens + Optional(link), j)
    ensures tokens + Optional(link) + rest == tokens + (Optional(link) + rest)
    ensures quoted + tokens + Optional(link) == quoted + (tokens + Optional(link))
  {
  }

  lemma {:induction false} OnlyQuotedCover(quoted: seq<Link>, tokens: seq<Link>, i: nat)
    requires EndBy(tokens, i)
    ensures Covered(quoted + tokens, i) <==> Covered(quoted, i)
  {
    if Covered(quoted, i) {
      var k :| 0 <= k < |quoted| && quoted[k].start <= i < quoted[k].end;
      assert (quoted + tokens)[k] == quoted[k];
    }
  }
}
