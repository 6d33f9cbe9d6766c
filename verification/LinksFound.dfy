/** What is certain to be found in a line: each kind of link, wherever a token or a pair of quotes holds it. */
module LinksFound {
  import opened Outcome
  import opened Chars
  import opened Unicode
  import opened Pieces
  import opened Paths
  import opened PathSpellings
  import opened Sorting
  import opened Links
  import opened LinkLaws
  import opened LinkReading

  // ---------- lower case ----------

  predicate IsAscii(s: string) {
    forall i :: 0 <= i < |s| ==> s[i] < '\U{80}'
  }

  const SCHEMES: seq<string> := ["http://", "https://", "file:", "mailto:", "tel:"]

  predicate BeginsWith(s: string, p: string) {
    |p| <= |s| && s[..|p|] == p
  }

  predicate FrontIsLowered(lower: string -> string, p: string, s: string) {
    IsAscii(p) ==> BeginsWith(lower(p + s), Lower(p))
  }

  predicate AddsNoScheme(lower: string -> string, s: string) {
    (forall i :: 0 <= i < |SCHEMES| ==> BeginsWith(lower(s), SCHEMES[i]) ==> BeginsWith(Lower(s), SCHEMES[i])) &&
    (HasSlashes(lower(s)) ==> HasSlashes(s))
  }

  predicate BeginsAt(s: string, p: string, i: nat) {
    i + |p| <= |s| && s[i..i + |p|] == p
  }

  predicate HasSlashes(s: string) {
    exists i :: 0 <= i <= |s| && BeginsAt(s, "://", i)
  }

  /** Lower case is that of ASCII on an ASCII front, and makes neither a scheme nor its slashes out of anything else. */
  ghost predicate Lowers(lower: string -> string) {
    (forall p, s :: FrontIsLowered(lower, p, s)) && forall s :: AddsNoScheme(lower, s)
  }

  // ---------- tokens ----------

  /** Everything between two breaks, or a break and an end of the line. */
  predicate IsToken(chars: string, i: nat, j: nat) {
    i < j <= |chars| && (i > 0 ==> IsBreak(chars[i - 1])) && (j < |chars| ==> IsBreak(chars[j])) &&
    forall k :: i <= k < j ==> !IsBreak(chars[k])
  }

  lemma {:induction false} TokenRun(chars: string, i: nat, j: nat)
    requires i <= j <= |chars| && (j < |chars| ==> IsBreak(chars[j])) && forall k :: i <= k < j ==> !IsBreak(chars[k])
    ensures TokenEnd(chars, i) == j
    decreases j - i
  {
    if i < j {
      TokenRun(chars, i + 1, j);
    }
  }

  lemma {:induction false} TokenStops(chars: string, from: nat, i: nat)
    requires from < i <= |chars| && IsBreak(chars[i - 1])
    ensures TokenEnd(chars, from) < i
    decreases i - from
  {
    if !IsBreak(chars[from]) {
      TokenStops(chars, from + 1, i);
    }
  }

  lemma {:induction false} TokenIsFirst(a: Alphabet, chars: string, quoted: seq<Link>, i: nat, j: nat, l: Link)
    requires i < |chars| && !IsBreak(chars[i]) && !Covered(quoted, i) && j == TokenEnd(chars, i) && TokenLink(a, chars, i, j) == Some(l)
    ensures l in TokensFrom(a, chars, quoted, i)
  {
  }

  /** Where the search goes on from `i`. */
  function Next(chars: string, quoted: seq<Link>, i: nat): (j: nat)
    requires i < |chars|
    ensures i < j <= |chars|
  {
    if IsBreak(chars[i]) || Covered(quoted, i) then i + 1 else TokenEnd(chars, i)
  }

  lemma {:induction false} NextStops(chars: string, quoted: seq<Link>, from: nat, i: nat)
    requires from < i <= |chars| && IsBreak(chars[i - 1])
    ensures Next(chars, quoted, from) <= i
  {
    TokenStops(chars, from, i);
  }

  lemma {:induction false} OneBack(a: Alphabet, chars: string, quoted: seq<Link>, i: nat, j: nat, l: Link)
    requires i < |chars| && j == Next(chars, quoted, i) && l in TokensFrom(a, chars, quoted, j)
    ensures l in TokensFrom(a, chars, quoted, i)
  {
  }

  lemma {:induction false} IsReached(a: Alphabet, chars: string, quoted: seq<Link>, from: nat, i: nat, l: Link)
    requires from <= i <= |chars| && (i > 0 ==> IsBreak(chars[i - 1])) && l in TokensFrom(a, chars, quoted, i)
    ensures l in TokensFrom(a, chars, quoted, from)
    decreases i - from
  {
    if from < i {
      var next := Next(chars, quoted, from);
      NextStops(chars, quoted, from, i);
      IsReached(a, chars, quoted, next, i, l);
      OneBack(a, chars, quoted, from, next, l);
    }
  }

  /** A path in quotes has been found around this place. */
  predicate InQuotedPath(chars: string, links: seq<Link>, i: nat) {
    exists k :: 0 <= k < |links| && links[k].start <= i < links[k].end && FillsQuotes(chars, links[k]) && links[k].target.File?
  }

  /** Fills its quotes, with no `://` inside. */
  predicate IsQuotedPath(chars: string, l: Link) {
    FillsQuotes(chars, l) && l.target.File? && !Contains(chars[l.start..l.end], "://")
  }

  lemma {:induction false} NoSlashesQuoted(a: Alphabet, chars: string, open: nat, close: nat)
    requires open < close <= |chars| && Contains(chars[open + 1..close], "://")
    ensures QuotedLink(a, chars, open, close) == None
  {
  }

  lemma {:induction false} QuotedFills(chars: string, open: nat, close: nat, l: Link)
    requires open < close < |chars| && IsQuote(chars[open]) && chars[close] == chars[open] && ReadsQuoted(chars, open, close, l)
    requires !Contains(chars[open + 1..close], "://")
    ensures IsQuotedPath(chars, l)
  {
  }

  lemma {:induction false} QuotedFill(a: Alphabet, chars: string, i: nat, l: Link)
    requires i <= |chars| && l in QuotedFrom(a, chars, i)
    ensures IsQuotedPath(chars, l)
    decreases |chars| - i
  {
    if !IsQuote(chars[i]) || NextOf(chars, i + 1, chars[i]) == |chars| {
      QuotedFill(a, chars, i + 1, l);
    } else {
      var close := NextOf(chars, i + 1, chars[i]);
      var link := QuotedLink(a, chars, i, close);
      InRest(l, Optional(link), QuotedFrom(a, chars, close + 1));
      if l in QuotedFrom(a, chars, close + 1) {
        QuotedFill(a, chars, close + 1, l);
      } else {
        QuotedFillsOne(a, chars, i, close, l);
      }
    }
  }

  lemma {:induction false} QuotedFillsOne(a: Alphabet, chars: string, open: nat, close: nat, l: Link)
    requires open < close < |chars| && IsQuote(chars[open]) && chars[close] == chars[open] && QuotedLink(a, chars, open, close) == Some(l)
    ensures IsQuotedPath(chars, l)
  {
    QuotedReads(a, chars, open, close);
    if Contains(chars[open + 1..close], "://") {
      NoSlashesQuoted(a, chars, open, close);
    }
    QuotedFills(chars, open, close, l);
  }

  lemma {:induction false} InRest<T>(x: T, first: seq<T>, rest: seq<T>)
    ensures x in first || x in rest <==> x in first + rest
  {
  }

  /** `l` is what the characters from `i` up to `j` lead to. */
  predicate Leads(a: Alphabet, chars: string, i: nat, j: nat, l: Link) {
    i <= j <= |chars| && TokenLink(a, chars, i, j) == Some(l)
  }

  /** A link is found, unless it stands in quotes that hold a path. */
  predicate Found(a: Alphabet, chars: string, l: Link) {
    l in LinksOf(a, chars) || InQuotedPath(chars, LinksOf(a, chars), l.start)
  }

  lemma {:induction false} InAll(a: Alphabet, chars: string, l: Link)
    requires var quoted := QuotedFrom(a, chars, 0); l in quoted || l in TokensFrom(a, chars, quoted, 0)
    ensures l in LinksOf(a, chars)
  {
    var quoted := QuotedFrom(a, chars, 0);
    SortKeepsMembers(quoted + TokensFrom(a, chars, quoted, 0), Earlier());
  }

  /** What covers the front of a token covers all of it. */
  lemma {:induction false} CoversWhole(a: Alphabet, chars: string, i: nat, j: nat, l: Link, at: nat)
    requires IsToken(chars, i, j) && l in QuotedFrom(a, chars, 0) && l.start <= i < l.end && i <= at < j
    ensures InQuotedPath(chars, LinksOf(a, chars), at)
  {
    QuotedFill(a, chars, 0, l);
    InAll(a, chars, l);
    StaysCovered(chars, LinksOf(a, chars), l, at);
  }

  /** Every token's link is found, unless it stands in quotes that hold a path. */
  lemma {:induction false} TokenIsFound(a: Alphabet, chars: string, i: nat, j: nat, l: Link)
    requires IsToken(chars, i, j) && Leads(a, chars, i, j, l)
    ensures Found(a, chars, l)
  {
    TokenRun(chars, i, j);
    var quoted := QuotedFrom(a, chars, 0);
    if Covered(quoted, i) {
      var k :| 0 <= k < |quoted| && quoted[k].start <= i < quoted[k].end;
      CoversWhole(a, chars, i, j, quoted[k], l.start);
    } else {
      TokenIsFirst(a, chars, quoted, i, j, l);
      IsReached(a, chars, quoted, 0, i, l);
      InAll(a, chars, l);
    }
  }

  lemma {:induction false} StaysCovered(chars: string, links: seq<Link>, l: Link, i: nat)
    requires l in links && l.start <= i < l.end && FillsQuotes(chars, l) && l.target.File?
    ensures InQuotedPath(chars, links, i)
  {
    var k :| 0 <= k < |links| && links[k] == l;
  }

  /** No quoted path holds a token with `://` in it. */
  lemma {:induction false} NoneAround(a: Alphabet, chars: string, i: nat, j: nat)
    requires IsToken(chars, i, j) && HasSlashes(chars[i..j])
    ensures !Covered(QuotedFrom(a, chars, 0), i)
  {
    var quoted := QuotedFrom(a, chars, 0);
    if Covered(quoted, i) {
      var k :| 0 <= k < |quoted| && quoted[k].start <= i < quoted[k].end;
      var l := quoted[k];
      QuotedFill(a, chars, 0, l);
      SlashesWithin(chars, i, j, l.start, l.end);
    }
  }

  lemma {:induction false} SlashesWithin(s: string, i: nat, j: nat, from: nat, end: nat)
    requires from <= i <= j <= end <= |s| && HasSlashes(s[i..j])
    ensures Contains(s[from..end], "://")
  {
    var q :| 0 <= q <= j - i && BeginsAt(s[i..j], "://", q);
    CutWithin(s, i, j, q, q + 3);
    CutWithin(s, from, end, i + q - from, i + q - from + 3);
    assert HasAt(s[from..end], "://", i + q - from);
  }

  /** A token with `://` in it is found wherever it stands. */
  lemma {:induction false} SlashedIsFound(a: Alphabet, chars: string, i: nat, j: nat, l: Link)
    requires IsToken(chars, i, j) && HasSlashes(chars[i..j]) && Leads(a, chars, i, j, l)
    ensures l in LinksOf(a, chars)
  {
    TokenRun(chars, i, j);
    NoneAround(a, chars, i, j);
    TokenIsFirst(a, chars, QuotedFrom(a, chars, 0), i, j, l);
    IsReached(a, chars, QuotedFrom(a, chars, 0), 0, i, l);
    InAll(a, chars, l);
  }

  // ---------- addresses ----------

  lemma {:induction false} ManyBytes(s: string)
    ensures ByteLength(s) >= |s|
  {
    if s != "" {
      ManyBytes(s[1..]);
    }
  }

  lemma {:induction false} LowersToAscii(s: string, p: string)
    requires Lower(s) == p && IsAscii(p)
    ensures IsAscii(s) && forall i :: 0 <= i < |s| && !IsAsciiLower(p[i]) ==> s[i] == p[i]
  {
    forall i | 0 <= i < |s|
      ensures s[i] < '\U{80}' && (!IsAsciiLower(p[i]) ==> s[i] == p[i])
    {
      assert p[i] == ToAsciiLower(s[i]);
    }
  }

  /** A scheme at a token's front is seen in its lower case. */
  lemma {:induction false} SchemeIsSeen(lower: string -> string, core: string, closing: string, scheme: string)
    requires Lowers(lower) && IsAscii(scheme) && |scheme| <= |core| && Lower(core[..|scheme|]) == scheme
    ensures StartsWith(lower(core + closing), scheme)
  {
    var front, rest := core[..|scheme|], core[|scheme|..] + closing;
    LowersToAscii(front, scheme);
    assert core + closing == front + rest;
    assert FrontIsLowered(lower, front, rest);
  }

  lemma {:induction false} SlashesOfScheme(core: string, scheme: string)
    requires |scheme| <= |core| && Lower(core[..|scheme|]) == scheme && (scheme == "http://" || scheme == "https://")
    ensures core[|scheme| - 3..|scheme|] == "://"
  {
    LowersToAscii(core[..|scheme|], scheme);
    assert core[..|scheme|][|scheme| - 3..] == "://";
  }

  lemma {:induction false} SlashesInside(opening: string, core: string, closing: string, k: nat)
    requires k + 3 <= |core| && core[k..k + 3] == "://"
    ensures HasSlashes(opening + core + closing)
  {
    var all := opening + core + closing;
    CutThree(all, 0, opening, core, closing);
    assert all[0..|all|] == all;
    CutWithin(all, |opening|, |opening| + |core|, k, k + 3);
    assert BeginsAt(all, "://", |opening| + k);
  }

  /** A token that holds `core` and nothing else that belongs to a link. */
  predicate HoldsOnly(chars: string, i: nat, j: nat, opening: string, core: string, closing: string, url: bool) {
    IsToken(chars, i, j) && chars[i..j] == opening + core + closing && Wrapped(opening, core, closing, url)
  }

  lemma {:induction false} TokenUnwraps(chars: string, i: nat, j: nat, opening: string, core: string, closing: string, url: bool)
    requires HoldsOnly(chars, i, j, opening, core, closing, url)
    ensures var start := i + |opening|;
      SkipOpeners(chars, i, j) == start && start <= j && chars[start..j] == core + closing &&
      chars[start..TrimmedEnd(chars, start, j, url)] == core
  {
    assert j == i + |opening + core + closing|;
    Unwraps(chars, i, i + |opening|, i + |opening| + |core|, j, opening, core, closing, url);
  }

  /** What a token comes to when it is trimmed, and where. */
  predicate TrimsTo(chars: string, i: nat, j: nat, start: nat, core: string, url: bool) {
    i <= start <= j <= |chars| && SkipOpeners(chars, i, j) == start && chars[start..TrimmedEnd(chars, start, j, url)] == core
  }

  /** What wraps a token's core is trimmed off. */
  lemma {:induction false} Trims(chars: string, i: nat, j: nat, opening: string, core: string, closing: string, url: bool)
    requires HoldsOnly(chars, i, j, opening, core, closing, url)
    ensures TrimsTo(chars, i, j, i + |opening|, core, url) && chars[i + |opening|..j] == core + closing
  {
    TokenUnwraps(chars, i, j, opening, core, closing, url);
  }

  /** A token with a web address in it has slashes, so that it is found wherever it stands, */
  lemma {:induction false} WebSlashes(token: string, opening: string, core: string, closing: string, scheme: string)
    requires token == opening + core + closing
    requires (scheme == "http://" || scheme == "https://") && |core| > |scheme| && Lower(core[..|scheme|]) == scheme
    ensures HasSlashes(token)
  {
    SlashesOfScheme(core, scheme);
    SlashesInside(opening, core, closing, |scheme| - 3);
  }

  /** and it leads there. */
  lemma {:induction false} WebLeads(a: Alphabet, chars: string, i: nat, j: nat, start: nat, core: string, scheme: string)
    requires TrimsTo(chars, i, j, start, core, true)
    requires (scheme == "http://" || scheme == "https://") && |core| > |scheme| && StartsWith(a.lower(chars[start..j]), scheme)
    ensures Leads(a, chars, i, j, Link(start, start + |core|, Web(core)))
  {
    ManyBytes(core);
    var lower := a.lower(chars[start..j]);
    assert scheme == "https://" ==> lower[4] == 's';
    assert SchemeLength(lower) == |scheme|;
  }

  /** The address of a file leads to the path and the position that are read from it, */
  lemma {:induction false} AddressIsRead(start: nat, core: string, target: Target)
    requires ReadsAs(core, true, target)
    ensures FileLink(start, core) == Some(Link(start, start + |core|, target))
  {
  }

  lemma {:induction false} AddressLeads(a: Alphabet, chars: string, i: nat, j: nat, start: nat, core: string, l: Link)
    requires TrimsTo(chars, i, j, start, core, true) && StartsWith(a.lower(chars[start..j]), "file:") && FileLink(start, core) == Some(l)
    ensures Leads(a, chars, i, j, l)
  {
    var lower := a.lower(chars[start..j]);
    assert lower[0] == 'f';
  }

  /** an address with a scheme that is passed on to itself, */
  lemma {:induction false} SchemeLeads(a: Alphabet, chars: string, i: nat, j: nat, start: nat, core: string, scheme: string)
    requires TrimsTo(chars, i, j, start, core, false)
    requires (scheme == "mailto:" || scheme == "tel:") && |core| > |scheme| && StartsWith(a.lower(chars[start..j]), scheme)
    ensures Leads(a, chars, i, j, Link(start, start + |core|, Scheme(core)))
  {
    var lower := a.lower(chars[start..j]);
    assert lower[0] == scheme[0];
  }

  // ---------- email ----------

  /** A user of letters, digits and `._%+-`, and a domain of letters, digits and `.-` with a dot inside. */
  predicate IsMail(a: Alphabet, user: string, domain: string) {
    user != "" && (forall i :: 0 <= i < |user| ==> user[i] != '@' && (a.alphanumeric(user[i]) || user[i] in "._%+-")) &&
    '.' in domain && domain[0] != '.' && domain[|domain| - 1] != '.' &&
    forall i :: 0 <= i < |domain| ==> a.alphanumeric(domain[i]) || domain[i] in ".-"
  }

  lemma {:induction false} MailIsEmail(a: Alphabet, user: string, domain: string)
    requires '@' !in user
    ensures IsEmail(a, user + "@" + domain) <==> IsMail(a, user, domain)
  {
    var text := user + "@" + domain;
    assert text[..|user|] == user && text[|user| + 1..] == domain;
    IndexOfIs(text, '@', |user|);
    assert forall c :: c in "._%+-" <==> c in {'.', '_', '%', '+', '-'};
    assert forall c :: c in ".-" <==> c == '.' || c == '-';
    assert forall i :: 0 <= i < |user| ==> text[i] == user[i];
  }

  lemma {:induction false} NoMail(a: Alphabet, text: string)
    requires '@' !in text
    ensures !IsEmail(a, text)
  {
    IndexOfIs(text, '@', |text|);
  }

  // ---------- tokens without a scheme ----------

  /** None of the schemes stands at the front, and no other's slashes anywhere. */
  predicate Schemeless(s: string) {
    (forall i :: 0 <= i < |SCHEMES| ==> !BeginsWith(Lower(s), SCHEMES[i])) && !HasSlashes(s)
  }

  lemma {:induction false} NotOther(lower: string)
    requires !HasSlashes(lower)
    ensures !IsOtherScheme(lower)
  {
    if IsOtherScheme(lower) {
      var colon := IndexOf(lower, ':');
      assert lower[colon + 1..][..2] == "//";
      assert lower[colon..colon + 3] == [lower[colon]] + lower[colon + 1..][..2];
      assert BeginsAt(lower, "://", colon);
    }
  }

  predicate NoKindOfScheme(lower: string) {
    !IsWeb(lower) && !StartsWith(lower, "file:") && AllowedScheme(lower).None? && !IsOtherScheme(lower)
  }

  lemma {:induction false} StaysSchemeless(lower: string -> string, s: string)
    requires Lowers(lower) && Schemeless(s)
    ensures NoKindOfScheme(lower(s))
  {
    assert AddsNoScheme(lower, s);
    assert SCHEMES[0] == "http://" && SCHEMES[1] == "https://" && SCHEMES[2] == "file:" && SCHEMES[3] == "mailto:" && SCHEMES[4] == "tel:";
    NotOther(lower(s));
  }

  /** an email address to itself behind `mailto:`, */
  lemma {:induction false} EmailLeads(a: Alphabet, chars: string, i: nat, j: nat, start: nat, user: string, domain: string)
    requires TrimsTo(chars, i, j, start, user + "@" + domain, false) && NoKindOfScheme(a.lower(chars[start..j])) && IsMail(a, user, domain)
    ensures var core := user + "@" + domain; Leads(a, chars, i, j, Link(start, start + |core|, Scheme("mailto:" + core)))
  {
    MailIsEmail(a, user, domain);
    EmailOfToken(a, chars, i, j, start, user + "@" + domain);
  }

  lemma {:induction false} EmailOfToken(a: Alphabet, chars: string, i: nat, j: nat, start: nat, core: string)
    requires TrimsTo(chars, i, j, start, core, false) && NoKindOfScheme(a.lower(chars[start..j])) && IsEmail(a, core)
    ensures Leads(a, chars, i, j, Link(start, start + |core|, Scheme("mailto:" + core)))
  {
  }

  // ---------- paths ----------

  predicate Separates(c: char) {
    c in "/\\"
  }

  predicate IsLetter(c: char) {
    'a' <= c <= 'z' || 'A' <= c <= 'Z'
  }

  /** A name, a dot and an extension of one to ten ASCII letters and digits, one letter at least. */
  predicate EndsInExtension(path: string, dot: nat) {
    0 < dot < |path| - 1 && |path| - dot <= 11 && path[dot] == '.' && !Separates(path[dot - 1]) &&
    (forall i :: dot < i < |path| ==> IsLetter(path[i]) || '0' <= path[i] <= '9') &&
    exists i :: dot < i < |path| && IsLetter(path[i])
  }

  const FRONTS: seq<string> := ["~/", "./", "../", ".\\", "..\\", "\\\\"]

  /** From the root, the home folder, this folder or the one above, a drive or another machine. */
  predicate IsPlaced(path: string) {
    (exists i :: 0 <= i < |FRONTS| && BeginsWith(path, FRONTS[i])) ||
    (|path| > 1 && path[0] == '/' && path[1] != '/') ||
    (|path| > 2 && IsLetter(path[0]) && path[1] == ':' && Separates(path[2]))
  }

  /** With a letter and without control characters, and placed, or with a separator and an extension; when a position
      follows, one of these two is enough. */
  predicate NamesAFile(a: Alphabet, path: string, position: bool) {
    (exists i :: 0 <= i < |path| && a.letter(path[i])) && (forall i :: 0 <= i < |path| ==> !IsControl(path[i])) &&
    if IsPlaced(path) then ByteLength(path) > 2
    else
      var separated := exists i :: 0 <= i < |path| && Separates(path[i]);
      var extended := exists dot :: 0 <= dot < |path| && EndsInExtension(path, dot);
      if position then separated || extended else separated && extended
  }

  lemma {:induction false} PlacedIsExplicit(path: string)
    ensures IsExplicit(path) <==> IsPlaced(path)
  {
    assert FRONTS[0] == "~/" && FRONTS[1] == "./" && FRONTS[2] == "../" && FRONTS[3] == ".\\" && FRONTS[4] == "..\\" && FRONTS[5] == "\\\\";
    assert (exists i :: 0 <= i < |FRONTS| && BeginsWith(path, FRONTS[i])) <==>
      BeginsWith(path, FRONTS[0]) || BeginsWith(path, FRONTS[1]) || BeginsWith(path, FRONTS[2]) ||
      BeginsWith(path, FRONTS[3]) || BeginsWith(path, FRONTS[4]) || BeginsWith(path, FRONTS[5]);
  }

  /** What stands behind the last separator. */
  lemma {:induction false} LastPartIs(path: string, k: nat)
    requires k <= |path| && (k > 0 ==> Separates(path[k - 1])) && forall i :: k <= i < |path| ==> !Separates(path[i])
    ensures LastPart(path) == path[k..]
  {
    if k < |path| {
      LastPartIs(path[..|path| - 1], k);
      assert path[k..] == path[..|path| - 1][k..] + [path[|path| - 1]];
    }
  }

  function LastSeparated(path: string): (k: nat)
    ensures k <= |path| && (k > 0 ==> Separates(path[k - 1])) && forall i :: k <= i < |path| ==> !Separates(path[i])
  {
    if path == "" || Separates(path[|path| - 1]) then |path| else LastSeparated(path[..|path| - 1])
  }

  lemma {:induction false} ExtensionIsRead(path: string, dot: nat)
    requires EndsInExtension(path, dot)
    ensures HasExtension(LastPart(path))
  {
    var k := LastSeparated(path);
    LastPartIs(path, k);
    assert k < dot;
    assert path[k..][dot - k] == '.' && path[k..][dot - k + 1..] == path[dot + 1..];
    NameExtends(path[k..], dot - k, path[dot + 1..]);
  }

  lemma {:induction false} NameExtends(name: string, dot: nat, ext: string)
    requires 0 < dot < |name| && name[dot] == '.' && name[dot + 1..] == ext && 1 <= |ext| <= 10
    requires (forall i :: 0 <= i < |ext| ==> IsLetter(ext[i]) || '0' <= ext[i] <= '9') && exists i :: 0 <= i < |ext| && IsLetter(ext[i])
    ensures HasExtension(name)
  {
    assert '.' !in ext;
    LastIndexIs(name, '.', dot);
  }

  lemma {:induction false} ExtensionIsThere(path: string)
    requires HasExtension(LastPart(path))
    ensures exists dot :: 0 <= dot < |path| && EndsInExtension(path, dot)
  {
    var k := LastSeparated(path);
    LastPartIs(path, k);
    ExtensionBehind(path, k, path[k..]);
  }

  lemma {:induction false} ExtensionBehind(path: string, k: nat, name: string)
    requires k <= |path| && name == path[k..] && HasExtension(name) && forall i :: k <= i < |path| ==> !Separates(path[i])
    ensures exists dot :: 0 <= dot < |path| && EndsInExtension(path, dot)
  {
    var d := LastIndexOf(name, '.').value;
    ExtensionSays(name, d);
    assert name[d + 1..] == path[k + d + 1..] && name[d] == path[k + d];
    DotIsThere(path, k + d, name[d + 1..]);
  }

  lemma {:induction false} ExtensionSays(name: string, d: nat)
    requires HasExtension(name) && LastIndexOf(name, '.') == Some(d)
    ensures 0 < d && name[d] == '.' && IsExtension(name[d + 1..])
  {
  }

  predicate IsExtension(ext: string) {
    1 <= |ext| <= 10 && (forall i :: 0 <= i < |ext| ==> IsLetter(ext[i]) || '0' <= ext[i] <= '9') &&
    exists i :: 0 <= i < |ext| && IsLetter(ext[i])
  }

  lemma {:induction false} DotIsThere(path: string, dot: nat, ext: string)
    requires 0 < dot < |path| && path[dot] == '.' && !Separates(path[dot - 1]) && ext == path[dot + 1..] && IsExtension(ext)
    ensures EndsInExtension(path, dot)
  {
    forall i | dot < i < |path|
      ensures path[i] == ext[i - dot - 1]
    {
    }
    var i :| 0 <= i < |ext| && IsLetter(ext[i]);
    assert path[dot + 1 + i] == ext[i];
  }

  /** What reads as a path. */
  lemma {:induction false} LooksLikeNames(a: Alphabet, path: string, position: bool)
    ensures LooksLikePath(a, path, position) <==> NamesAFile(a, path, position)
  {
    PlacedIsExplicit(path);
    if HasExtension(LastPart(path)) {
      ExtensionIsThere(path);
    }
    if exists dot :: 0 <= dot < |path| && EndsInExtension(path, dot) {
      var dot :| 0 <= dot < |path| && EndsInExtension(path, dot);
      ExtensionIsRead(path, dot);
    }
    assert forall c :: Separates(c) <==> IsSeparator(c);
  }

  /** A file's path and its position, read from the text. */
  predicate NamesTarget(a: Alphabet, text: string, target: Target) {
    ReadsAs(text, false, target) && NamesAFile(a, target.path, target.line.Some?)
  }

  /** and a path to the file and the position it names. */
  lemma {:induction false} PathIsRead(a: Alphabet, start: nat, text: string, target: Target)
    requires NamesTarget(a, text, target)
    ensures PathLink(a, start, text) == Some(Link(start, start + |text|, target))
  {
    LooksLikeNames(a, target.path, target.line.Some?);
  }

  lemma {:induction false} PathLeads(a: Alphabet, chars: string, i: nat, j: nat, start: nat, core: string, l: Link)
    requires TrimsTo(chars, i, j, start, core, false) && NoKindOfScheme(a.lower(chars[start..j])) && '@' !in core
    requires PathLink(a, start, core) == Some(l)
    ensures Leads(a, chars, i, j, l)
  {
    NoMail(a, core);
  }

  // ---------- quotes ----------

  /** The next quote of its kind. */
  predicate ArePartners(chars: string, open: nat, close: nat) {
    open < close < |chars| && IsQuote(chars[open]) && chars[close] == chars[open] &&
    forall m :: open < m < close ==> chars[m] != chars[open]
  }

  /** No quote, or one of a kind that comes no more. */
  predicate IsAlone(chars: string, k: nat) {
    k < |chars| && (IsQuote(chars[k]) ==> forall m :: k < m < |chars| ==> chars[m] != chars[k])
  }

  /** Quotes paired from the left, each with the next of its kind, and none between the pairs that has a partner. */
  predicate ArePairs(chars: string, from: nat, pairs: seq<(nat, nat)>)
    decreases |pairs|
  {
    if pairs == [] then true
    else
      var (open, close) := pairs[0];
      from <= open && ArePartners(chars, open, close) && (forall k :: from <= k < open ==> IsAlone(chars, k)) &&
      ArePairs(chars, close + 1, pairs[1..])
  }

  lemma {:induction false} NextIs(chars: string, i: nat, k: nat, c: char)
    requires i <= k <= |chars| && (k < |chars| ==> chars[k] == c) && forall m :: i <= m < k ==> chars[m] != c
    ensures NextOf(chars, i, c) == k
    decreases k - i
  {
    if i < k {
      NextIs(chars, i + 1, k, c);
    }
  }

  /** Where the search for quotes goes on from `i`. */
  function Jump(chars: string, i: nat): (j: nat)
    requires i < |chars|
    ensures i < j <= |chars|
  {
    if !IsQuote(chars[i]) || NextOf(chars, i + 1, chars[i]) == |chars| then i + 1 else NextOf(chars, i + 1, chars[i]) + 1
  }

  predicate Reaches(chars: string, i: nat, j: nat)
    decreases j - i
  {
    i == j || (i < j <= |chars| && Jump(chars, i) <= j && Reaches(chars, Jump(chars, i), j))
  }

  lemma {:induction false} JumpBack(a: Alphabet, chars: string, i: nat, l: Link)
    requires i < |chars| && l in QuotedFrom(a, chars, Jump(chars, i))
    ensures l in QuotedFrom(a, chars, i)
  {
  }

  lemma {:induction false} ReachBack(a: Alphabet, chars: string, i: nat, j: nat, l: Link)
    requires i <= j <= |chars| && Reaches(chars, i, j) && l in QuotedFrom(a, chars, j)
    ensures l in QuotedFrom(a, chars, i)
    decreases j - i
  {
    if i < j {
      ReachBack(a, chars, Jump(chars, i), j, l);
      JumpBack(a, chars, i, l);
    }
  }

  lemma {:induction false} AloneReach(chars: string, from: nat, open: nat, end: nat)
    requires from <= open <= end <= |chars| && (forall k :: from <= k < open ==> IsAlone(chars, k)) && Reaches(chars, open, end)
    ensures Reaches(chars, from, end)
    decreases open - from
  {
    if from < open {
      assert IsAlone(chars, from);
      if IsQuote(chars[from]) {
        NextIs(chars, from + 1, |chars|, chars[from]);
      }
      AloneReach(chars, from + 1, open, end);
    }
  }

  lemma {:induction false} PairsReach(chars: string, from: nat, pairs: seq<(nat, nat)>, k: nat)
    requires ArePairs(chars, from, pairs) && k < |pairs|
    ensures from <= pairs[k].0 < |chars| && Reaches(chars, from, pairs[k].0) && ArePartners(chars, pairs[k].0, pairs[k].1)
    decreases k
  {
    var (open, close) := pairs[0];
    if k > 0 {
      PairsReach(chars, close + 1, pairs[1..], k - 1);
      NextIs(chars, open + 1, close, chars[open]);
      assert Jump(chars, open) == close + 1;
    }
    AloneReach(chars, from, open, pairs[k].0);
  }

  /** `l` is what a pair of quotes leads to. */
  predicate LeadsQuoted(a: Alphabet, chars: string, open: nat, close: nat, l: Link) {
    open < close <= |chars| && QuotedLink(a, chars, open, close) == Some(l)
  }

  lemma {:induction false} InFirst<T>(x: T, first: Option<T>, rest: seq<T>)
    requires first == Some(x)
    ensures x in Optional(first) + rest
  {
    assert (Optional(first) + rest)[0] == x;
  }

  lemma {:induction false} PairIsHere(a: Alphabet, chars: string, open: nat, close: nat)
    requires open < close < |chars| && IsQuote(chars[open]) && NextOf(chars, open + 1, chars[open]) == close
    ensures QuotedFrom(a, chars, open) == Optional(QuotedLink(a, chars, open, close)) + QuotedFrom(a, chars, close + 1)
  {
  }

  lemma {:induction false} FirstOfPair(a: Alphabet, chars: string, open: nat, close: nat, link: Option<Link>)
    requires open < close < |chars| && IsQuote(chars[open]) && NextOf(chars, open + 1, chars[open]) == close
    requires link == QuotedLink(a, chars, open, close)
    ensures link.Some? ==> link.value in QuotedFrom(a, chars, open)
  {
    PairIsHere(a, chars, open, close);
    if link.Some? {
      InFirst(link.value, link, QuotedFrom(a, chars, close + 1));
    }
  }

  lemma {:induction false} PartnersAreNext(chars: string, open: nat, close: nat)
    requires ArePartners(chars, open, close)
    ensures NextOf(chars, open + 1, chars[open]) == close
  {
    NextIs(chars, open + 1, close, chars[open]);
  }

  /** Every pair's link is found, */
  lemma {:induction false} PairIsFound(a: Alphabet, chars: string, pairs: seq<(nat, nat)>, k: nat, l: Link)
    requires ArePairs(chars, 0, pairs) && k < |pairs| && LeadsQuoted(a, chars, pairs[k].0, pairs[k].1, l)
    ensures l in LinksOf(a, chars)
  {
    var (open, close) := pairs[k];
    PairsReach(chars, 0, pairs, k);
    PartnersAreNext(chars, open, close);
    FirstOfPair(a, chars, open, close, QuotedLink(a, chars, open, close));
    ReachBack(a, chars, 0, open, l);
    InAll(a, chars, l);
  }

  /** and it is what stands between the quotes, read as a path, if there is a space in it and no `://`. */
  lemma {:induction false} QuotedLeads(a: Alphabet, chars: string, open: nat, close: nat, inner: string, l: Link)
    requires open < close <= |chars| && inner == chars[open + 1..close] && ' ' in inner && !HasSlashes(inner)
    requires PathLink(a, open + 1, inner) == Some(l)
    ensures LeadsQuoted(a, chars, open, close, l)
  {
    assert forall i :: HasAt(inner, "://", i) <==> BeginsAt(inner, "://", i);
  }

  // ---------- nothing else ----------

  /** What reads as a path names a file, */
  lemma {:induction false} PathLinkNames(a: Alphabet, start: nat, text: string, l: Link)
    requires PathLink(a, start, text) == Some(l)
    ensures l.start == start && l.end == start + |text| && NamesTarget(a, text, l.target)
  {
    var (path, line, column) := SplitPosition(text);
    LooksLikeNames(a, path, line.Some?);
  }

  /** and what reads as an address says its path. */
  lemma {:induction false} FileLinkReads(start: nat, text: string, l: Link)
    requires FileLink(start, text) == Some(l)
    ensures l.start == start && l.end == start + |text| && ReadsAs(text, true, l.target)
  {
  }

  /** A file link that is read from what it shows, as a path or as an address. */
  predicate IsRead(a: Alphabet, chars: string, l: Link) {
    l.start <= l.end <= |chars| &&
    (PathLink(a, l.start, chars[l.start..l.end]) == Some(l) || FileLink(l.start, chars[l.start..l.end]) == Some(l))
  }

  lemma {:induction false} ReadHere(a: Alphabet, chars: string, start: nat, end: nat, l: Link)
    requires start <= end <= |chars|
    requires PathLink(a, start, chars[start..end]) == Some(l) || FileLink(start, chars[start..end]) == Some(l)
    ensures IsRead(a, chars, l)
  {
    assert l.start == start && l.end == end;
  }

  lemma {:induction false} KindsOfToken(a: Alphabet, chars: string, i: nat, j: nat, start: nat, lower: string, url: string, text: string)
    requires i <= j <= |chars| && start == SkipOpeners(chars, i, j) && lower == a.lower(chars[start..j])
    requires url == chars[start..TrimmedEnd(chars, start, j, true)] && text == chars[start..TrimmedEnd(chars, start, j, false)]
    ensures TokenLink(a, chars, i, j) == Kind(a, start, lower, url, text)
  {
  }

  function Kind(a: Alphabet, start: nat, lower: string, url: string, text: string): Option<Link> {
    if IsWeb(lower) then WebLink(start, url, SchemeLength(lower))
    else if StartsWith(lower, "file:") then FileLink(start, url)
    else if AllowedScheme(lower).Some? then SchemeLink(start, text, AllowedScheme(lower).value)
    else if IsOtherScheme(lower) then None
    else if IsEmail(a, text) then Some(Link(start, start + |text|, Scheme("mailto:" + text)))
    else PathLink(a, start, text)
  }

  lemma {:induction false} FileOfKind(a: Alphabet, start: nat, lower: string, url: string, text: string, l: Link)
    requires Kind(a, start, lower, url, text) == Some(l) && l.target.File?
    ensures FileLink(start, url) == Some(l) || PathLink(a, start, text) == Some(l)
  {
  }

  lemma {:induction false} TokenIsRead(a: Alphabet, chars: string, i: nat, j: nat, l: Link)
    requires Leads(a, chars, i, j, l) && l.target.File?
    ensures IsRead(a, chars, l)
  {
    var start := SkipOpeners(chars, i, j);
    var url, text := chars[start..TrimmedEnd(chars, start, j, true)], chars[start..TrimmedEnd(chars, start, j, false)];
    KindsOfToken(a, chars, i, j, start, a.lower(chars[start..j]), url, text);
    FileOfKind(a, start, a.lower(chars[start..j]), url, text, l);
    if FileLink(start, url) == Some(l) {
      ReadHere(a, chars, start, TrimmedEnd(chars, start, j, true), l);
    } else {
      ReadHere(a, chars, start, TrimmedEnd(chars, start, j, false), l);
    }
  }

  lemma {:induction false} QuotedIsPath(a: Alphabet, chars: string, open: nat, close: nat, inner: string, l: Link)
    requires open < close <= |chars| && QuotedLink(a, chars, open, close) == Some(l) && inner == chars[open + 1..close]
    ensures PathLink(a, open + 1, inner) == Some(l)
  {
  }

  lemma {:induction false} AllQuotedAreRead(a: Alphabet, chars: string, i: nat, l: Link)
    requires i <= |chars| && l in QuotedFrom(a, chars, i)
    ensures IsRead(a, chars, l)
    decreases |chars| - i
  {
    if !IsQuote(chars[i]) || NextOf(chars, i + 1, chars[i]) == |chars| {
      AllQuotedAreRead(a, chars, i + 1, l);
    } else {
      var close := NextOf(chars, i + 1, chars[i]);
      InRest(l, Optional(QuotedLink(a, chars, i, close)), QuotedFrom(a, chars, close + 1));
      if l in QuotedFrom(a, chars, close + 1) {
        AllQuotedAreRead(a, chars, close + 1, l);
      } else {
        QuotedIsPath(a, chars, i, close, chars[i + 1..close], l);
        ReadHere(a, chars, i + 1, close, l);
      }
    }
  }

  lemma {:induction false} AllTokensAreRead(a: Alphabet, chars: string, quoted: seq<Link>, i: nat, l: Link)
    requires i <= |chars| && l in TokensFrom(a, chars, quoted, i) && l.target.File?
    ensures IsRead(a, chars, l)
    decreases |chars| - i
  {
    if IsBreak(chars[i]) || Covered(quoted, i) {
      AllTokensAreRead(a, chars, quoted, i + 1, l);
    } else {
      var j := TokenEnd(chars, i);
      InRest(l, Optional(TokenLink(a, chars, i, j)), TokensFrom(a, chars, quoted, j));
      if l in TokensFrom(a, chars, quoted, j) {
        AllTokensAreRead(a, chars, quoted, j, l);
      } else {
        TokenIsRead(a, chars, i, j, l);
      }
    }
  }

  /** Every file link that is found is read so from what it shows. */
  lemma {:induction false} FilesAreRead(a: Alphabet, chars: string, l: Link)
    requires l in LinksOf(a, chars) && l.target.File?
    ensures IsRead(a, chars, l)
  {
    var quoted := QuotedFrom(a, chars, 0);
    SortKeepsMembers(quoted + TokensFrom(a, chars, quoted, 0), Earlier());
    InRest(l, quoted, TokensFrom(a, chars, quoted, 0));
    if l in quoted {
      AllQuotedAreRead(a, chars, 0, l);
    } else {
      AllTokensAreRead(a, chars, quoted, 0, l);
    }
  }

  // ---------- other schemes ----------

  /** A scheme of two or more ASCII letters, digits, `+`, `-` and `.` that is not one of those followed. */
  predicate IsOtherName(name: string) {
    |name| > 1 && (forall i :: 0 <= i < |name| ==> IsLetter(name[i]) || '0' <= name[i] <= '9' || name[i] in "+-.") &&
    Lower(name) != "http" && Lower(name) != "https" && Lower(name) != "file" && Lower(name) != "mailto" && Lower(name) != "tel"
  }

  lemma {:induction false} UpToColon(s: string, scheme: string)
    requires ':' !in scheme && scheme + ":" <= s
    ensures s[..IndexOf(s, ':')] == scheme
  {
    assert s[..|scheme|] == scheme && s[|scheme|] == ':';
    IndexOfIs(s, ':', |scheme|);
  }

  lemma {:induction false} OtherIsNotFollowed(s: string, name: string, scheme: string)
    requires IndexOf(s, ':') == |name| && s[..|name|] == name && ':' !in scheme && name != scheme
    ensures !StartsWith(s, scheme + ":")
  {
    if StartsWith(s, scheme + ":") {
      UpToColon(s, scheme);
    }
  }

  lemma {:induction false} LowerName(name: string)
    requires IsOtherName(name)
    ensures IsAscii(name) && ':' !in Lower(name)
    ensures forall i :: 0 <= i < |name| ==> IsAsciiAlphanumeric(Lower(name)[i]) || Lower(name)[i] in {'+', '-', '.'}
  {
    assert forall c :: c in "+-." <==> c in {'+', '-', '.'};
  }

  lemma {:induction false} OtherIsKnown(lower: string, name: string)
    requires IsOtherName(name) && BeginsWith(lower, Lower(name) + "://")
    ensures !IsWeb(lower) && !StartsWith(lower, "file:") && AllowedScheme(lower).None? && IsOtherScheme(lower)
  {
    LowerName(name);
    SlashesBehind(lower, Lower(name));
    NoneIsFollowed(lower, Lower(name));
  }

  lemma {:induction false} SlashesBehind(lower: string, low: string)
    requires BeginsWith(lower, low + "://") && ':' !in low
    ensures IndexOf(lower, ':') == |low| < |lower| && lower[..|low|] == low && StartsWith(lower[|low| + 1..], "//")
  {
    var front := low + "://";
    assert lower[..|front|] == front && lower[|low|] == front[|low|];
    assert lower[..|low|] == front[..|low|];
    IndexOfIs(lower, ':', |low|);
    assert lower[|low| + 1..][..2] == front[|low| + 1..];
  }

  lemma {:induction false} NoneIsFollowed(lower: string, low: string)
    requires IndexOf(lower, ':') == |low| && lower[..|low|] == low
    requires low != "http" && low != "https" && low != "file" && low != "mailto" && low != "tel"
    ensures !IsWeb(lower) && !StartsWith(lower, "file:") && AllowedScheme(lower).None?
  {
    OtherIsNotFollowed(lower, low, "http");
    OtherIsNotFollowed(lower, low, "https");
    OtherIsNotFollowed(lower, low, "file");
    OtherIsNotFollowed(lower, low, "mailto");
    OtherIsNotFollowed(lower, low, "tel");
    NotWeb(lower);
  }

  lemma {:induction false} FrontOfFront(p: string, q: string, s: string)
    requires p <= q
    ensures q <= s ==> p <= s
  {
  }

  lemma {:induction false} NotWeb(lower: string)
    requires !StartsWith(lower, "http:") && !StartsWith(lower, "https:")
    ensures !IsWeb(lower)
  {
    FrontOfFront("http:", "http://", lower);
    FrontOfFront("https:", "https://", lower);
  }

  /** A token with another scheme leads nowhere, */
  lemma {:induction false} OtherSchemeLeadsNowhere(a: Alphabet, chars: string, i: nat, j: nat, start: nat, name: string, rest: string)
    requires Lowers(a.lower) && i <= start <= j <= |chars| && SkipOpeners(chars, i, j) == start
    requires chars[start..j] == name + "://" + rest && IsOtherName(name)
    ensures TokenLink(a, chars, i, j) == None
  {
    LowerName(name);
    var front := name + "://";
    assert FrontIsLowered(a.lower, front, rest);
    assert Lower(front) == Lower(name) + "://";
    OtherIsKnown(a.lower(front + rest), name);
  }

  /** and no link starts in a token with `://` in it that leads nowhere. */
  lemma {:induction false} NothingStartsThere(a: Alphabet, chars: string, i: nat, j: nat, l: Link)
    requires IsToken(chars, i, j) && HasSlashes(chars[i..j]) && TokenLink(a, chars, i, j) == None && l in LinksOf(a, chars)
    ensures l.start < i || j <= l.start
  {
    var quoted := QuotedFrom(a, chars, 0);
    FromEither(a, chars, l);
    TokenRun(chars, i, j);
    NoneAround(a, chars, i, j);
    if l in quoted {
      QuotedFill(a, chars, 0, l);
      QuotedElsewhere(quoted, chars, i, j, l);
    } else {
      QuotedAreApart(a, chars, 0);
      TokensElsewhere(a, chars, quoted, 0, i, j, l);
    }
  }

  lemma {:induction false} FromEither(a: Alphabet, chars: string, l: Link)
    requires l in LinksOf(a, chars)
    ensures var quoted := QuotedFrom(a, chars, 0); l in quoted || l in TokensFrom(a, chars, quoted, 0)
  {
    var quoted := QuotedFrom(a, chars, 0);
    SortKeepsMembers(quoted + TokensFrom(a, chars, quoted, 0), Earlier());
  }

  lemma {:induction false} QuotedElsewhere(quoted: seq<Link>, chars: string, i: nat, j: nat, l: Link)
    requires IsToken(chars, i, j) && l in quoted && FillsQuotes(chars, l) && !Covered(quoted, i)
    ensures l.start < i || j <= l.start
  {
    var k :| 0 <= k < |quoted| && quoted[k] == l;
    assert !(l.start <= i < l.end);
    if i < l.start < j {
      assert IsBreak(chars[l.start - 1]);
    }
  }

  lemma {:induction false} StartsHere(a: Alphabet, chars: string, quoted: seq<Link>, i: nat, l: Link)
    requires i < |chars| && l in TokensFrom(a, chars, quoted, i) && l !in TokensFrom(a, chars, quoted, Next(chars, quoted, i))
    ensures i <= l.start < Next(chars, quoted, i) && TokenLink(a, chars, i, TokenEnd(chars, i)) == Some(l)
  {
  }

  lemma {:induction false} TokensElsewhere(a: Alphabet, chars: string, quoted: seq<Link>, from: nat, i: nat, j: nat, l: Link)
    requires from <= i && IsToken(chars, i, j) && TokenEnd(chars, i) == j && TokenLink(a, chars, i, j) == None && !Covered(quoted, i)
    requires l in TokensFrom(a, chars, quoted, from) && AllInQuotes(chars, quoted)
    ensures l.start < i || j <= l.start
    decreases i - from
  {
    var next := Next(chars, quoted, from);
    if l !in TokensFrom(a, chars, quoted, next) {
      StartsHere(a, chars, quoted, from, l);
      if from < i {
        NextStops(chars, quoted, from, i);
      }
    } else if from < i {
      NextStops(chars, quoted, from, i);
      TokensElsewhere(a, chars, quoted, next, i, j, l);
    } else {
      StartsBehind(a, chars, quoted, j, l);
    }
  }

  lemma {:induction false} StartsBehind(a: Alphabet, chars: string, quoted: seq<Link>, j: nat, l: Link)
    requires j <= |chars| && l in TokensFrom(a, chars, quoted, j) && AllInQuotes(chars, quoted)
    ensures j <= l.start
  {
    TokensAreApart(a, chars, quoted, j);
    var t := TokensFrom(a, chars, quoted, j);
    var k :| 0 <= k < |t| && t[k] == l;
    assert IsLinkIn(t[k], j, |chars|);
  }

  /** A single letter before a colon, such as a drive's, is no scheme. */
  lemma {:induction false} LetterIsNoScheme(lower: string)
    requires |lower| > 1 && lower[0] != ':' && lower[1] == ':'
    ensures NoKindOfScheme(lower)
  {
    assert lower[..1] == [lower[0]];
    IndexOfIs(lower, ':', 1);
    NotWeb(lower);
  }

  // ---------- explicit links ----------

  /** An explicit web address leads to itself, if there is anything behind its scheme, */
  lemma {:induction false} ExplicitWeb(uri: string, scheme: string)
    requires ControlFree(Trim(uri)) && BeginsWith(Lower(Trim(uri)), scheme) && (scheme == "http://" || scheme == "https://")
    ensures Classify(uri) == if |Trim(uri)| > |scheme| then Some(Web(Trim(uri))) else None
  {
    var u := Trim(uri);
    WebScheme(Lower(u), scheme);
    ManyBytes(u);
    if ByteLength(u) > |scheme| {
      WebIsAscii(u);
    }
  }

  lemma {:induction false} WebScheme(lower: string, scheme: string)
    requires BeginsWith(lower, scheme) && (scheme == "http://" || scheme == "https://")
    ensures IsWeb(lower) && SchemeLength(lower) == |scheme|
  {
    if scheme == "https://" {
      assert lower[4] == 's';
    }
  }

  /** an address with a scheme that is passed on to itself, */
  lemma {:induction false} ExplicitScheme(uri: string, scheme: string)
    requires ControlFree(Trim(uri)) && BeginsWith(Lower(Trim(uri)), scheme) && (scheme == "mailto:" || scheme == "tel:")
    ensures Classify(uri) == Some(Scheme(Trim(uri)))
  {
    assert Lower(Trim(uri))[0] == scheme[0];
  }

  /** and a file's address to the path and the position read from it, if there are any. */
  lemma {:induction false} ExplicitFile(uri: string)
    requires ControlFree(Trim(uri)) && BeginsWith(Lower(Trim(uri)), "file:")
    ensures forall target :: ReadsAs(Trim(uri), true, target) ==> Classify(uri) == Some(target)
    ensures Classify(uri).Some? ==> ReadsAs(Trim(uri), true, Classify(uri).value)
  {
    assert Lower(Trim(uri))[0] == 'f';
  }

  /** Nothing else leads anywhere. */
  lemma {:induction false} NothingElseLeads(uri: string)
    requires !ControlFree(Trim(uri)) || forall i :: 0 <= i < |SCHEMES| ==> !BeginsWith(Lower(Trim(uri)), SCHEMES[i])
    ensures Classify(uri) == None
  {
    var lower := Lower(Trim(uri));
    assert SCHEMES[0] == "http://" && SCHEMES[1] == "https://" && SCHEMES[2] == "file:" && SCHEMES[3] == "mailto:" && SCHEMES[4] == "tel:";
  }
}
