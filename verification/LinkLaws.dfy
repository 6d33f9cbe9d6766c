/** What links promise: clean spans that never overlap, and files whose paths hide nothing. */
module LinkLaws {
  import opened Outcome
  import opened Chars
  import opened Unicode
  import opened Pieces
  import opened Sorting
  import opened Links

  // ---------- spans ----------

  function Apart(): (Link, Link) -> bool {
    (x: Link, y: Link) => x.end <= y.start || y.end <= x.start
  }

  /** A link to a file that stands right behind a quote. */
  predicate InQuotes(chars: string, l: Link) {
    0 < l.start <= l.end < |chars| && IsQuote(chars[l.start - 1]) && l.target.File?
  }

  predicate AllFrom(links: seq<Link>, i: nat, n: nat) {
    forall k :: 0 <= k < |links| ==> IsLinkIn(links[k], i, n)
  }

  lemma {:induction false} PutBefore(l: Option<Link>, links: seq<Link>, i: nat, j: nat, n: nat)
    requires i <= j <= n && AllFrom(links, j, n) && Pairwise(links, Apart()) && (l.Some? ==> IsLinkIn(l.value, i, j))
    ensures AllFrom(Optional(l) + links, i, n) && Pairwise(Optional(l) + links, Apart())
  {
    if l.Some? {
      var all := Optional(l) + links;
      forall k | 0 <= k < |all|
        ensures IsLinkIn(all[k], i, n) && (k > 0 ==> Apart()(l.value, all[k]))
      {
        if k > 0 {
          assert all[k] == links[k - 1];
        }
      }
      forall p, q | 0 <= p < q < |all|
        ensures Apart()(all[p], all[q])
      {
        if p > 0 {
          assert all[p] == links[p - 1] && all[q] == links[q - 1];
        }
      }
    } else {
      assert Optional(l) + links == links;
    }
  }

  predicate AllInQuotes(chars: string, links: seq<Link>) {
    forall k :: 0 <= k < |links| ==> InQuotes(chars, links[k])
  }

  lemma {:induction false} MoreInQuotes(chars: string, l: Option<Link>, rest: seq<Link>)
    requires AllInQuotes(chars, rest) && (l.Some? ==> InQuotes(chars, l.value))
    ensures AllInQuotes(chars, Optional(l) + rest)
  {
    forall k | 0 <= k < |Optional(l) + rest|
      ensures InQuotes(chars, (Optional(l) + rest)[k])
    {
      if k >= |Optional(l)| {
        assert (Optional(l) + rest)[k] == rest[k - |Optional(l)|];
      }
    }
  }

  lemma {:induction false} QuotedIsInside(a: Alphabet, chars: string, i: nat, close: nat)
    requires i < close < |chars| && IsQuote(chars[i])
    ensures var l := QuotedLink(a, chars, i, close); l.Some? ==> IsLinkIn(l.value, i, close + 1) && InQuotes(chars, l.value)
  {
    if QuotedLink(a, chars, i, close).Some? {
      BehindQuote(chars, i, close, QuotedLink(a, chars, i, close).value);
    }
  }

  lemma {:induction false} BehindQuote(chars: string, i: nat, close: nat, l: Link)
    requires i < close < |chars| && IsQuote(chars[i]) && IsLinkIn(l, i + 1, close) && l.start == i + 1 && l.target.File?
    ensures IsLinkIn(l, i, close + 1) && InQuotes(chars, l)
  {
  }

  lemma {:induction false} QuotedAreApart(a: Alphabet, chars: string, i: nat)
    requires i <= |chars|
    ensures var q := QuotedFrom(a, chars, i); AllFrom(q, i, |chars|) && Pairwise(q, Apart()) && AllInQuotes(chars, q)
    decreases |chars| - i
  {
    if i < |chars| {
      if !IsQuote(chars[i]) || NextOf(chars, i + 1, chars[i]) == |chars| {
        QuotedAreApart(a, chars, i + 1);
      } else {
        var close := NextOf(chars, i + 1, chars[i]);
        QuotedAreApart(a, chars, close + 1);
        QuotedIsInside(a, chars, i, close);
        PutBefore(QuotedLink(a, chars, i, close), QuotedFrom(a, chars, close + 1), i, close + 1, |chars|);
        MoreInQuotes(chars, QuotedLink(a, chars, i, close), QuotedFrom(a, chars, close + 1));
      }
    }
  }

  /** A token cannot reach into what is quoted: the quote ends it. */
  lemma {:induction false} TokenIsApart(chars: string, quoted: seq<Link>, i: nat, t: Link)
    requires i < |chars| && !Covered(quoted, i) && IsLinkIn(t, i, TokenEnd(chars, i))
    requires AllInQuotes(chars, quoted)
    ensures forall k :: 0 <= k < |quoted| ==> Apart()(quoted[k], t)
  {
    forall k | 0 <= k < |quoted|
      ensures Apart()(quoted[k], t)
    {
      var l := quoted[k];
      assert !(l.start <= i < l.end);
      assert IsBreak(chars[l.start - 1]);
    }
  }

  lemma {:induction false} TokensAreApart(a: Alphabet, chars: string, quoted: seq<Link>, i: nat)
    requires i <= |chars| && AllInQuotes(chars, quoted)
    ensures var t := TokensFrom(a, chars, quoted, i);
      AllFrom(t, i, |chars|) && Pairwise(t, Apart()) &&
      forall k, m :: 0 <= k < |quoted| && 0 <= m < |t| ==> Apart()(quoted[k], t[m])
    decreases |chars| - i
  {
    if i < |chars| {
      if IsBreak(chars[i]) || Covered(quoted, i) {
        TokensAreApart(a, chars, quoted, i + 1);
      } else {
        var j := TokenEnd(chars, i);
        TokensAreApart(a, chars, quoted, j);
        var l, rest := TokenLink(a, chars, i, j), TokensFrom(a, chars, quoted, j);
        PutBefore(l, rest, i, j, |chars|);
        if l.Some? {
          TokenIsApart(chars, quoted, i, l.value);
        }
        OneMoreApart(quoted, l, rest);
      }
    }
  }

  lemma {:induction false} OneMoreApart(quoted: seq<Link>, l: Option<Link>, rest: seq<Link>)
    requires forall k, m :: 0 <= k < |quoted| && 0 <= m < |rest| ==> Apart()(quoted[k], rest[m])
    requires l.Some? ==> forall k :: 0 <= k < |quoted| ==> Apart()(quoted[k], l.value)
    ensures forall k, m :: 0 <= k < |quoted| && 0 <= m < |Optional(l) + rest| ==> Apart()(quoted[k], (Optional(l) + rest)[m])
  {
    forall k, m | 0 <= k < |quoted| && 0 <= m < |Optional(l) + rest|
      ensures Apart()(quoted[k], (Optional(l) + rest)[m])
    {
      if m >= |Optional(l)| {
        assert (Optional(l) + rest)[m] == rest[m - |Optional(l)|];
      }
    }
  }

  /** Spans within `n` characters, none empty, left to right without overlap. */
  predicate AreSpans(links: seq<Link>, n: nat) {
    AllFrom(links, 0, n) && forall i, j :: 0 <= i < j < |links| ==> links[i].end <= links[j].start
  }

  lemma {:induction false} SortedApartAreSpans(links: seq<Link>, n: nat)
    requires AllFrom(links, 0, n) && Sorted(links, Earlier()) && Pairwise(links, Apart())
    ensures AreSpans(links, n)
  {
    forall i, j | 0 <= i < j < |links|
      ensures links[i].end <= links[j].start
    {
      assert !Earlier()(links[j], links[i]);
      assert Apart()(links[i], links[j]);
      assert IsLinkIn(links[i], 0, n) && IsLinkIn(links[j], 0, n);
    }
  }

  lemma {:induction false} Together(quoted: seq<Link>, tokens: seq<Link>, n: nat)
    requires AllFrom(quoted, 0, n) && AllFrom(tokens, 0, n) && Pairwise(quoted, Apart()) && Pairwise(tokens, Apart())
    requires forall k, m :: 0 <= k < |quoted| && 0 <= m < |tokens| ==> Apart()(quoted[k], tokens[m])
    ensures AllFrom(quoted + tokens, 0, n) && Pairwise(quoted + tokens, Apart())
  {
  }

  /** The links of a line: in bounds, not empty, left to right and never overlapping; a file's path is
      never empty and free of control characters, percent-decoded or not. */
  lemma {:induction false} FoundAreSpans(a: Alphabet, chars: string)
    ensures AreSpans(LinksOf(a, chars), |chars|)
  {
    var quoted := QuotedFrom(a, chars, 0);
    var tokens := TokensFrom(a, chars, quoted, 0);
    QuotedAreApart(a, chars, 0);
    TokensAreApart(a, chars, quoted, 0);
    Together(quoted, tokens, |chars|);
    var all := quoted + tokens;
    assert IsSymmetric(Apart());
    SortKeepsPairwise(all, Earlier(), Apart());
    SortSorts(all, Earlier());
    SortKeepsMembers(all, Earlier());
    var links := LinksOf(a, chars);
    forall k | 0 <= k < |links|
      ensures IsLinkIn(links[k], 0, |chars|)
    {
      assert links[k] in all;
    }
    SortedApartAreSpans(links, |chars|);
  }

  // ---------- what a link says ----------

  /** A file link is what its text is read as: a path, or a file's address, and a position. */
  predicate ReadsAs(text: string, address: bool, target: Target) {
    var (path, line, column) := SplitPosition(text);
    target.File? && target.line == line && target.column == column &&
    if address then FileUriPath(path) == Some(target.path) else target.path == path
  }

  /** The whole of what a pair of quotes holds, with a space in it. */
  predicate FillsQuotes(chars: string, l: Link) {
    0 < l.start <= l.end < |chars| && IsQuote(chars[l.start - 1]) && chars[l.end] == chars[l.start - 1] &&
    ' ' in chars[l.start..l.end]
  }

  /** Web and scheme targets are the span's characters, with `mailto:` put before an email address; a file
      target is read from them. No span ends in something that trimming drops, but for one that fills
      its quotes. */
  predicate SaysItsSpan(chars: string, l: Link) {
    l.start < l.end <= |chars| &&
    var shown := chars[l.start..l.end];
    match l.target
    case Web(url) => url == shown && !Drops(chars, l.start, l.end, true)
    case Scheme(address) => (address == shown || (address == "mailto:" + shown && '@' in shown)) && !Drops(chars, l.start, l.end, false)
    case File(_, _, _) =>
      (ReadsAs(shown, false, l.target) && (FillsQuotes(chars, l) || !Drops(chars, l.start, l.end, false))) ||
      (ReadsAs(shown, true, l.target) && !Drops(chars, l.start, l.end, true))
  }

  lemma {:induction false} FileSays(a: Alphabet, chars: string, start: nat, to: nat, url: bool, l: Link)
    requires start <= to <= |chars|
    requires var text := chars[start..TrimmedEnd(chars, start, to, url)];
      (if url then FileLink(start, text) else PathLink(a, start, text)) == Some(l)
    ensures SaysItsSpan(chars, l)
  {
    assert l.start == start && l.end == TrimmedEnd(chars, start, to, url);
  }

  /** All between two quotes, with a space in it, and read as a path. */
  predicate ReadsQuoted(chars: string, open: nat, close: nat, l: Link)
    requires open < close <= |chars|
  {
    l.start == open + 1 < close == l.end && ' ' in chars[open + 1..close] && ReadsAs(chars[open + 1..close], false, l.target)
  }

  lemma {:induction false} QuotedReads(a: Alphabet, chars: string, open: nat, close: nat)
    requires open < close <= |chars|
    ensures var l := QuotedLink(a, chars, open, close); l.Some? ==> ReadsQuoted(chars, open, close, l.value)
  {
    PathReads(a, open + 1, chars[open + 1..close]);
  }

  lemma {:induction false} PathReads(a: Alphabet, start: nat, raw: string)
    ensures var l := PathLink(a, start, raw);
      l.Some? ==> l.value.start == start && l.value.end == start + |raw| && ReadsAs(raw, false, l.value.target)
  {
  }

  lemma {:induction false} ReadQuotedSays(chars: string, open: nat, close: nat, l: Link)
    requires open < close < |chars| && IsQuote(chars[open]) && chars[close] == chars[open]
    requires ReadsQuoted(chars, open, close, l)
    ensures SaysItsSpan(chars, l)
  {
  }

  lemma {:induction false} QuotedSay(a: Alphabet, chars: string, i: nat, l: Link)
    requires i <= |chars| && l in QuotedFrom(a, chars, i)
    ensures SaysItsSpan(chars, l)
    decreases |chars| - i
  {
    if !IsQuote(chars[i]) || NextOf(chars, i + 1, chars[i]) == |chars| {
      QuotedSay(a, chars, i + 1, l);
    } else {
      var close := NextOf(chars, i + 1, chars[i]);
      if l in QuotedFrom(a, chars, close + 1) {
        QuotedSay(a, chars, close + 1, l);
      } else {
        QuotedReads(a, chars, i, close);
        ReadQuotedSays(chars, i, close, l);
      }
    }
  }

  lemma {:induction false} SpanSays(chars: string, start: nat, to: nat, url: bool, l: Link)
    requires start <= to <= |chars|
    requires var text := chars[start..TrimmedEnd(chars, start, to, url)];
      text != "" && l.start == start && l.end == start + |text| &&
      ((url && l.target == Web(text)) ||
       (!url && (l.target == Scheme(text) || (l.target == Scheme("mailto:" + text) && '@' in text))))
    ensures SaysItsSpan(chars, l)
  {
    assert l.end == TrimmedEnd(chars, start, to, url);
  }

  lemma {:induction false} EmailHasAt(a: Alphabet, text: string)
    requires IsEmail(a, text)
    ensures '@' in text
  {
    assert text[IndexOf(text, '@')] == '@';
  }

  lemma {:induction false} TokenSays(a: Alphabet, chars: string, from: nat, to: nat)
    requires from <= to <= |chars|
    ensures TokenLink(a, chars, from, to).Some? ==> SaysItsSpan(chars, TokenLink(a, chars, from, to).value)
  {
    var start := SkipOpeners(chars, from, to);
    var lower := a.lower(chars[start..to]);
    var text := chars[start..TrimmedEnd(chars, start, to, false)];
    var r := TokenLink(a, chars, from, to);
    if r.Some? {
      if IsWeb(lower) {
        SpanSays(chars, start, to, true, r.value);
      } else if StartsWith(lower, "file:") {
        FileSays(a, chars, start, to, true, r.value);
      } else if r.value.target.File? {
        FileSays(a, chars, start, to, false, r.value);
      } else {
        if AllowedScheme(lower).None? {
          EmailHasAt(a, text);
        }
        SpanSays(chars, start, to, false, r.value);
      }
    }
  }

  lemma {:induction false} TokensSay(a: Alphabet, chars: string, quoted: seq<Link>, i: nat, l: Link)
    requires i <= |chars| && l in TokensFrom(a, chars, quoted, i)
    ensures SaysItsSpan(chars, l)
    decreases |chars| - i
  {
    if IsBreak(chars[i]) || Covered(quoted, i) {
      TokensSay(a, chars, quoted, i + 1, l);
    } else {
      var j := TokenEnd(chars, i);
      TokenSays(a, chars, i, j);
      if l in TokensFrom(a, chars, quoted, j) {
        TokensSay(a, chars, quoted, j, l);
      }
    }
  }

  /** What a link leads to is what it shows. */
  lemma {:induction false} LinksSayTheirSpans(a: Alphabet, chars: string, l: Link)
    requires l in LinksOf(a, chars)
    ensures SaysItsSpan(chars, l)
  {
    var quoted := QuotedFrom(a, chars, 0);
    var all := quoted + TokensFrom(a, chars, quoted, 0);
    SortKeepsMembers(all, Earlier());
    if l in quoted {
      QuotedSay(a, chars, 0, l);
    } else {
      TokensSay(a, chars, quoted, 0, l);
    }
  }

  // ---------- where a link may lead ----------

  predicate SchemeIsKept(lower: string, s: string, p: string) {
    StartsWith(lower, p) ==> |p| <= |s| && Lower(s[..|p|]) == p
  }

  predicate SchemesAreKept(lower: string, s: string) {
    SchemeIsKept(lower, s, "http://") && SchemeIsKept(lower, s, "https://") &&
    SchemeIsKept(lower, s, "mailto:") && SchemeIsKept(lower, s, "tel:")
  }

  /** Lower-casing makes none of the schemes out of other letters than their own. */
  ghost predicate KeepsSchemes(lower: string -> string) {
    forall s :: SchemesAreKept(lower(s), s)
  }

  /** A web address with something behind its scheme, or an address with an allowed scheme. */
  predicate MayLead(target: Target) {
    match target
    case Web(url) => IsWeb(Lower(url)) && |url| > SchemeLength(Lower(url))
    case Scheme(address) => AllowedScheme(Lower(address)).Some?
    case File(_, _, _) => true
  }

  lemma {:induction false} SchemeKept(s: string, n: nat, p: string)
    requires |p| <= n <= |s| && Lower(s[..|p|]) == p
    ensures StartsWith(Lower(s[..n]), p)
  {
    assert forall i :: 0 <= i < |p| ==> Lower(s[..n])[i] == Lower(s[..|p|])[i];
  }

  /** A text of which the scheme is not more than the beginning. */
  lemma {:induction false} MoreThanScheme(s: string, n: nat, p: string)
    requires |p| <= |s| && n <= |s| && Lower(s[..|p|]) == p && ByteLength(s[..n]) > |p|
    requires forall i :: 0 <= i < |p| ==> p[i] < '\U{80}'
    ensures n > |p|
  {
    if n <= |p| {
      forall i | 0 <= i < n
        ensures s[..n][i] < '\U{80}'
      {
        assert Lower(s[..|p|])[i] == p[i];
      }
      AsciiByteLength(s[..n]);
    }
  }

  lemma {:induction false} WebLength(lower: string)
    requires IsWeb(lower)
    ensures SchemeLength(lower) == if lower[4] == 's' then 8 else 7
  {
  }

  lemma {:induction false} WebMayLead(s: string, n: nat, p: string)
    requires p == "http://" || p == "https://"
    requires |p| <= |s| && n <= |s| && Lower(s[..|p|]) == p && ByteLength(s[..n]) > |p|
    ensures MayLead(Web(s[..n]))
  {
    MoreThanScheme(s, n, p);
    SchemeKept(s, n, p);
    assert Lower(s[..n])[4] == p[4];
    WebLength(Lower(s[..n]));
  }

  lemma {:induction false} SchemeMayLead(p: string, s: string, n: nat)
    requires p in ALLOWED_SCHEMES && |p| <= n <= |s| && Lower(s[..|p|]) == p
    ensures MayLead(Scheme(s[..n]))
  {
    SchemeKept(s, n, p);
    var i :| 0 <= i < |ALLOWED_SCHEMES| && ALLOWED_SCHEMES[i] == p;
  }

  lemma {:induction false} EmailMayLead(text: string)
    ensures MayLead(Scheme("mailto:" + text))
  {
    var address := "mailto:" + text;
    assert Lower(address)[..7] == "mailto:";
    assert StartsWith(Lower(address), ALLOWED_SCHEMES[0]);
  }

  lemma {:induction false} WebFound(lower: string, s: string, n: nat)
    requires SchemesAreKept(lower, s) && IsWeb(lower) && n <= |s| && ByteLength(s[..n]) > SchemeLength(lower)
    ensures MayLead(Web(s[..n]))
  {
    if StartsWith(lower, "http://") {
      WebMayLead(s, n, "http://");
    } else {
      WebMayLead(s, n, "https://");
    }
  }

  lemma {:induction false} SchemeFound(lower: string, s: string, n: nat)
    requires SchemesAreKept(lower, s) && AllowedScheme(lower).Some? && n <= |s| && n > |AllowedScheme(lower).value|
    ensures MayLead(Scheme(s[..n]))
  {
    SchemeMayLead(AllowedScheme(lower).value, s, n);
  }

  lemma {:induction false} TrimmedPart(chars: string, start: nat, to: nat, url: bool) returns (n: nat)
    requires start <= to <= |chars|
    ensures n <= to - start && chars[start..TrimmedEnd(chars, start, to, url)] == chars[start..to][..n]
  {
    n := TrimmedEnd(chars, start, to, url) - start;
  }

  /** The three kinds of unquoted links that lead to no file. */
  predicate IsAddress(lower: string, url: string, text: string, target: Target) {
    (IsWeb(lower) && ByteLength(url) > SchemeLength(lower) && target == Web(url)) ||
    (AllowedScheme(lower).Some? && |text| > |AllowedScheme(lower).value| && target == Scheme(text)) ||
    target == Scheme("mailto:" + text)
  }

  lemma {:induction false} TokenIsAddress(a: Alphabet, chars: string, from: nat, to: nat, start: nat)
    requires from <= to <= |chars| && start == SkipOpeners(chars, from, to)
    ensures var r := TokenLink(a, chars, from, to);
      r.Some? && !r.value.target.File? ==>
        IsAddress(a.lower(chars[start..to]), chars[start..TrimmedEnd(chars, start, to, true)],
                  chars[start..TrimmedEnd(chars, start, to, false)], r.value.target)
  {
  }

  lemma {:induction false} AddressMayLead(lower: string, s: string, n: nat, m: nat, target: Target)
    requires SchemesAreKept(lower, s) && n <= |s| && m <= |s| && IsAddress(lower, s[..n], s[..m], target)
    ensures MayLead(target)
  {
    if target.Web? {
      WebFound(lower, s, n);
    } else if target == Scheme("mailto:" + s[..m]) {
      EmailMayLead(s[..m]);
    } else {
      SchemeFound(lower, s, m);
    }
  }

  lemma {:induction false} TokenMayLead(a: Alphabet, chars: string, from: nat, to: nat)
    requires KeepsSchemes(a.lower) && from <= to <= |chars|
    ensures TokenLink(a, chars, from, to).Some? ==> MayLead(TokenLink(a, chars, from, to).value.target)
  {
    var start := SkipOpeners(chars, from, to);
    var s, r := chars[start..to], TokenLink(a, chars, from, to);
    TokenIsAddress(a, chars, from, to, start);
    if r.Some? && !r.value.target.File? {
      var n := TrimmedPart(chars, start, to, true);
      var m := TrimmedPart(chars, start, to, false);
      AddressMayLead(a.lower(s), s, n, m, r.value.target);
    }
  }

  lemma {:induction false} TokensMayLead(a: Alphabet, chars: string, quoted: seq<Link>, i: nat, l: Link)
    requires KeepsSchemes(a.lower) && i <= |chars| && l in TokensFrom(a, chars, quoted, i)
    ensures MayLead(l.target)
    decreases |chars| - i
  {
    if IsBreak(chars[i]) || Covered(quoted, i) {
      TokensMayLead(a, chars, quoted, i + 1, l);
    } else {
      var j := TokenEnd(chars, i);
      TokenMayLead(a, chars, i, j);
      if l in TokensFrom(a, chars, quoted, j) {
        TokensMayLead(a, chars, quoted, j, l);
      }
    }
  }

  /** Whatever a line holds, what is found in it leads to the web, to an allowed scheme or to a file. */
  lemma {:induction false} LinksMayLead(a: Alphabet, chars: string, l: Link)
    requires KeepsSchemes(a.lower) && l in LinksOf(a, chars)
    ensures MayLead(l.target)
  {
    var quoted := QuotedFrom(a, chars, 0);
    SortKeepsMembers(quoted + TokensFrom(a, chars, quoted, 0), Earlier());
    QuotedAreApart(a, chars, 0);
    if l in quoted {
      var k :| 0 <= k < |quoted| && quoted[k] == l;
      assert InQuotes(chars, quoted[k]);
    } else {
      TokensMayLead(a, chars, quoted, 0, l);
    }
  }

  // ---------- percent-decoding ----------

  lemma {:induction false} AsciiIsItsByte(t: Text, x: Scalar)
    requires x < 0x80
    ensures x in t <==> x in EncodeUtf8(t)
  {
    if t != [] {
      AsciiIsItsByte(t[1..], x);
      assert t == [t[0]] + t[1..];
      var b := Utf8Char(t[0]);
      assert x in b <==> x == t[0];
    }
  }

  lemma {:induction false} NotInCodes(s: string, c: char)
    requires c !in s
    ensures c as int !in Codes(s)
  {
    assert forall i :: 0 <= i < |s| ==> Codes(s)[i] == s[i] as int && s[i] != c;
  }

  lemma {:induction false} NothingToUnescape(b: seq<Byte>)
    requires PERCENT !in b
    ensures Unescaped(b) == Some(b)
  {
    if b != [] {
      NothingToUnescape(b[1..]);
      assert b == [b[0]] + b[1..];
    }
  }

  /** Text without a `%` decodes to itself. */
  lemma {:induction false} PlainDecodesToItself(s: string)
    requires '%' !in s
    ensures PercentDecoded(s) == Some(s)
  {
    var t := Codes(s);
    NotInCodes(s, '%');
    AsciiIsItsByte(t, PERCENT);
    NothingToUnescape(EncodeUtf8(t));
    DecodeOfEncodeUtf8(t);
    assert Characters(Codes(s)) == s;
  }

  predicate IsAsciiControl(x: int) {
    x < 0x20 || x == 0x7f
  }

  lemma {:induction false} UnescapedHasNoControl(b: seq<Byte>, x: Byte)
    requires IsAsciiControl(x) && x !in b && Unescaped(b).Some?
    ensures x !in Unescaped(b).value
  {
    if b != [] {
      var n := if b[0] == PERCENT then 3 else 1;
      assert forall k :: 0 <= k < |b[n..]| ==> b[n..][k] == b[n + k];
      UnescapedHasNoControl(b[n..], x);
    }
  }

  /** Decoding never brings in an ASCII control character. */
  lemma {:induction false} DecodingAddsNoAsciiControl(s: string, c: char)
    requires PercentDecoded(s).Some? && IsAsciiControl(c as int) && c !in s
    ensures c !in PercentDecoded(s).value
  {
    var x := c as int;
    var t := Codes(s);
    NotInCodes(s, c);
    AsciiIsItsByte(t, x);
    UnescapedHasNoControl(EncodeUtf8(t), x);
    var b := Unescaped(EncodeUtf8(t)).value;
    EncodeOfDecodeUtf8(b);
    AsciiIsItsByte(DecodeUtf8(b).value, x);
  }

  /** It can bring in one of the others, which is why a file's path is looked at once more. */
  lemma {:induction false} OtherControlsDecode()
    ensures PercentDecoded("%C2%85") == Some("\U{85}") && IsControl('\U{85}')
  {
    var t: Text := [0x25, 0x43, 0x32, 0x25, 0x38, 0x35];
    assert Codes("%C2%85") == t;
    assert EncodeUtf8(t) == t by {
      EncodeAscii(t);
    }
    var u: seq<Byte> := t[3..];
    assert u == [0x25, 0x38, 0x35] && u[3..] == [];
    UnescapedFirst(u, 0x85, []);
    assert [0x85 as Byte] + [] == [0x85];
    UnescapedFirst(t, 0xC2, [0x85]);
    assert [0xC2 as Byte] + [0x85] == [0xC2, 0x85];
    TwoByteControl();
    assert Characters([0x85]) == "\U{85}";
  }

  lemma {:induction false} UnescapedFirst(b: seq<Byte>, x: Byte, rest: seq<Byte>)
    requires b != [] && b[0] == PERCENT && EscapedByte(b) == Some(x) && Unescaped(b[3..]) == Some(rest)
    ensures Unescaped(b) == Some([x] + rest)
  {
  }

  lemma {:induction false} TwoByteControl()
    ensures DecodeUtf8([0xC2, 0x85]) == Ok([0x85])
  {
    var b: seq<Byte> := [0xC2, 0x85];
    assert b[2..] == [] && DecodeUtf8(b[2..]) == Ok([]);
    assert FirstUtf8(b) == Some(Step(0x85, 2));
    assert [0x85 as Scalar] + [] == [0x85];
  }

  lemma {:induction false} EncodeAscii(t: Text)
    requires forall i :: 0 <= i < |t| ==> t[i] < 0x80
    ensures EncodeUtf8(t) == t
  {
    if t != [] {
      EncodeAscii(t[1..]);
      assert t == [t[0]] + t[1..];
    }
  }

  // ---------- explicit links ----------

  predicate SafeTarget(uri: string, target: Target) {
    match target
    case Web(url) => url == uri && ControlFree(url) && IsWeb(Lower(url)) && |url| > SchemeLength(Lower(url))
    case Scheme(address) => address == uri && ControlFree(address) && AllowedScheme(Lower(address)).Some?
    case File(path, _, _) => path != "" && ControlFree(path) && StartsWith(Lower(uri), "file:")
  }

  /** What an explicit link may point at: an address with a host behind `http://` or `https://`, one
      of the allowed schemes, or a file; never with a control character, and nothing else at all. */
  lemma {:induction false} OnlySafeTargets(uri: string)
    ensures Classify(uri).Some? ==> SafeTarget(Trim(uri), Classify(uri).value)
  {
    var u := Trim(uri);
    if IsWeb(Lower(u)) && ByteLength(u) > SchemeLength(Lower(u)) {
      WebIsAscii(u);
    }
  }

  /** Behind an ASCII scheme, more bytes are more characters. */
  lemma {:induction false} WebIsAscii(u: string)
    requires IsWeb(Lower(u)) && ByteLength(u) > SchemeLength(Lower(u))
    ensures |u| > SchemeLength(Lower(u))
  {
    var n := SchemeLength(Lower(u));
    if |u| == n {
      forall i | 0 <= i < n
        ensures u[i] < '\U{80}'
      {
        assert Lower(u)[i] < '\U{80}';
      }
      AsciiByteLength(u);
    }
  }

  lemma {:induction false} AsciiByteLength(s: string)
    requires forall i :: 0 <= i < |s| ==> s[i] < '\U{80}'
    ensures ByteLength(s) == |s|
  {
    if s != "" {
      AsciiByteLength(s[1..]);
    }
  }
}
