/** Bare addresses in a paragraph made into links, and why nothing of the paragraph is lost by it. */
module Markdown {
  import opened Outcome
  import opened Links
  import opened LinkLaws

  datatype Style = Style(strong: bool, emphasis: bool, strike: bool, code: bool, kbd: bool, sup: bool, sub: bool)

  datatype Inline =
    | Text(text: string, style: Style, link: Option<string>)
    | Image(alt: string, src: string, title: string, link: Option<string>)
    | Break

  function AddressOf(target: Target): Option<string> {
    match target
    case Web(url) => Some(url)
    case Scheme(address) => Some(address)
    case File(_, _, _) => None
  }

  predicate CanLink(inline: Inline) {
    inline.Text? && inline.link.None? && !inline.style.code
  }

  function Plain(text: string, style: Style): seq<Inline> {
    if text == "" then [] else [Text(text, style, None)]
  }

  /** What a text becomes from `at` on, given the links found in it. */
  function LinkedFrom(text: string, style: Style, found: seq<Link>, at: nat): seq<Inline>
    requires AreSpans(found, |text|) && at <= |text| && (found != [] ==> at <= found[0].start)
    decreases |found|
  {
    if found == [] then Plain(text[at..], style)
    else
      var l := found[0];
      assert IsLinkIn(l, 0, |text|);
      TailAreSpans(found, |text|);
      match AddressOf(l.target)
      case None => LinkedFrom(text, style, found[1..], at)
      case Some(address) =>
        Plain(text[at..l.start], style) + [Text(text[l.start..l.end], style, Some(address))] +
        LinkedFrom(text, style, found[1..], l.end)
  }

  lemma {:induction false} TailAreSpans(found: seq<Link>, n: nat)
    requires AreSpans(found, n) && found != []
    ensures AreSpans(found[1..], n) && found[0].end <= n && forall k :: 0 <= k < |found[1..]| ==> found[0].end <= found[1..][k].start
    ensures found[0].start < found[0].end
  {
    assert IsLinkIn(found[0], 0, n);
  }

  function Linked(a: Alphabet, inline: Inline): seq<Inline> {
    if CanLink(inline) then
      FoundAreSpans(a, inline.text);
      LinkedFrom(inline.text, inline.style, LinksOf(a, inline.text), 0)
    else [inline]
  }

  function Autolinked(a: Alphabet, inlines: seq<Inline>): seq<Inline> {
    if inlines == [] then [] else Autolinked(a, inlines[..|inlines| - 1]) + Linked(a, inlines[|inlines| - 1])
  }

  method Autolink(a: Alphabet, inlines: seq<Inline>) returns (out: seq<Inline>)
    ensures out == Autolinked(a, inlines)
  {
    out := [];
    for n := 0 to |inlines|
      invariant out == Autolinked(a, inlines[..n])
    {
      assert inlines[..n + 1][..n] == inlines[..n];
      var pieces := LinkOne(a, inlines[n]);
      out := out + pieces;
    }
    assert inlines[..|inlines|] == inlines;
  }

  method LinkOne(a: Alphabet, inline: Inline) returns (out: seq<Inline>)
    ensures out == Linked(a, inline)
  {
    if !CanLink(inline) {
      return [inline];
    }
    var found := Find(a, inline.text);
    FoundAreSpans(a, inline.text);
    out := LinkText(inline.text, inline.style, found);
  }

  /** One text: a moving cursor over its links. */
  method LinkText(text: string, style: Style, found: seq<Link>) returns (out: seq<Inline>)
    requires AreSpans(found, |text|)
    ensures out == LinkedFrom(text, style, found, 0)
  {
    out := [];
    var at := 0;
    assert found[0..] == found;
    for k := 0 to |found|
      invariant 0 <= at <= |text| && AreSpans(found[k..], |text|)
      invariant forall m :: k <= m < |found| ==> at <= found[m].start
      invariant out + LinkedFrom(text, style, found[k..], at) == LinkedFrom(text, style, found, 0)
    {
      var l := found[k];
      LinkedNext(text, style, found, k, at, out);
      var address := AddressOf(l.target);
      if address.Some? {
        if l.start > at {
          out := out + [Text(text[at..l.start], style, None)];
        }
        out := out + [Text(text[l.start..l.end], style, address)];
        at := l.end;
      }
    }
    assert found[|found|..] == [];
    if at < |text| {
      out := out + [Text(text[at..], style, None)];
    } else {
      assert out + [] == out;
    }
  }

  lemma {:induction false} NextSpan(found: seq<Link>, k: nat, n: nat)
    requires k < |found| && AreSpans(found[k..], n)
    ensures found[k..][0] == found[k] && found[k..][1..] == found[k + 1..] && AreSpans(found[k + 1..], n)
    ensures forall m :: k < m < |found| ==> found[k].end <= found[m].start
  {
    assert found[k..][1..] == found[k + 1..];
    TailAreSpans(found[k..], n);
    assert forall m :: k < m < |found| ==> found[m] == found[k..][m - k];
  }

  /** The next link takes the cursor behind itself, if it is an address. */
  lemma {:induction false} LinkedNext(text: string, style: Style, found: seq<Link>, k: nat, at: nat, out: seq<Inline>)
    requires k < |found| && AreSpans(found[k..], |text|) && at <= found[k].start
    ensures found[k].start < found[k].end <= |text| && AreSpans(found[k + 1..], |text|)
    ensures forall m :: k < m < |found| ==> found[k].end <= found[m].start
    ensures var l := found[k];
      out + LinkedFrom(text, style, found[k..], at) ==
      match AddressOf(l.target)
      case None => out + LinkedFrom(text, style, found[k + 1..], at)
      case Some(address) =>
        (if l.start > at then out + [Text(text[at..l.start], style, None)] else out) +
        [Text(text[l.start..l.end], style, Some(address))] + LinkedFrom(text, style, found[k + 1..], l.end)
  {
    var l := found[k];
    NextSpan(found, k, |text|);
    TailAreSpans(found[k..], |text|);
    var address := AddressOf(l.target);
    if address.Some? {
      Regroup(out, Plain(text[at..l.start], style), [Text(text[l.start..l.end], style, address)],
              LinkedFrom(text, style, found[k + 1..], l.end));
      if l.start == at {
        assert out + Plain(text[at..l.start], style) == out;
      }
    }
  }

  lemma {:induction false} Regroup<T>(a: seq<T>, b: seq<T>, c: seq<T>, d: seq<T>)
    ensures a + (b + c + d) == a + b + c + d
  {
  }

  // ---------- conservation ----------

  /** What a reader sees: every character with its style, and everything that is not text. */
  datatype Seen = Letter(c: char, style: Style) | Object(inline: Inline)

  function Letters(text: string, style: Style): seq<Seen> {
    seq(|text|, i requires 0 <= i < |text| => Letter(text[i], style))
  }

  function SeenOf(inline: Inline): seq<Seen> {
    if inline.Text? then Letters(inline.text, inline.style) else [Object(inline)]
  }

  function Flat(inlines: seq<Inline>): seq<Seen> {
    if inlines == [] then [] else SeenOf(inlines[0]) + Flat(inlines[1..])
  }

  lemma {:induction false} FlatAppend(x: seq<Inline>, y: seq<Inline>)
    ensures Flat(x + y) == Flat(x) + Flat(y)
  {
    if x == [] {
      assert x + y == y;
    } else {
      assert (x + y)[1..] == x[1..] + y;
      FlatAppend(x[1..], y);
      Three(SeenOf(x[0]), Flat(x[1..]), Flat(y));
    }
  }

  lemma {:induction false} Three<T>(a: seq<T>, b: seq<T>, c: seq<T>)
    ensures a + b + c == a + (b + c)
  {
  }

  lemma {:induction false} FlatOne(inline: Inline)
    ensures Flat([inline]) == SeenOf(inline)
  {
    assert [inline][1..] == [];
  }

  lemma {:induction false} FlatPlain(text: string, style: Style)
    ensures Flat(Plain(text, style)) == Letters(text, style)
  {
    if text != "" {
      FlatOne(Text(text, style, None));
    }
  }

  lemma {:induction false} LettersCut(text: string, style: Style, at: nat, start: nat, end: nat)
    requires at <= start <= end <= |text|
    ensures Letters(text[at..start], style) + Letters(text[start..end], style) + Letters(text[end..], style) ==
      Letters(text[at..], style)
  {
  }

  lemma {:induction false} LinkedConserves(text: string, style: Style, found: seq<Link>, at: nat)
    requires AreSpans(found, |text|) && at <= |text| && (found != [] ==> at <= found[0].start)
    ensures Flat(LinkedFrom(text, style, found, at)) == Letters(text[at..], style)
    decreases |found|
  {
    if found == [] {
      FlatPlain(text[at..], style);
    } else {
      var l := found[0];
      TailAreSpans(found, |text|);
      match AddressOf(l.target)
      case None => LinkedConserves(text, style, found[1..], at);
      case Some(address) =>
        LinkedConserves(text, style, found[1..], l.end);
        var before, shown, rest := Plain(text[at..l.start], style), Text(text[l.start..l.end], style, Some(address)),
          LinkedFrom(text, style, found[1..], l.end);
        FlatPlain(text[at..l.start], style);
        FlatOne(shown);
        FlatAppend(before + [shown], rest);
        FlatAppend(before, [shown]);
        LettersCut(text, style, at, l.start, l.end);
    }
  }

  /** Linking bare addresses keeps every character with its style, and everything else, in order. */
  lemma {:induction false} AutolinkConserves(a: Alphabet, inlines: seq<Inline>)
    ensures Flat(Autolinked(a, inlines)) == Flat(inlines)
  {
    if inlines != [] {
      var init, last := inlines[..|inlines| - 1], inlines[|inlines| - 1];
      AutolinkConserves(a, init);
      Rejoined(inlines);
      NextConserves(a, init, last);
    }
  }

  lemma {:induction false} Rejoined<T>(s: seq<T>)
    requires s != []
    ensures s[..|s| - 1] + [s[|s| - 1]] == s
  {
  }

  lemma {:induction false} NextConserves(a: Alphabet, init: seq<Inline>, last: Inline)
    requires Flat(Autolinked(a, init)) == Flat(init)
    ensures Flat(Autolinked(a, init + [last])) == Flat(init + [last])
  {
    assert (init + [last])[..|init|] == init;
    OneConserves(a, last);
    FlatTogether(Autolinked(a, init), Linked(a, last), init, last);
  }

  lemma {:induction false} FlatTogether(x: seq<Inline>, y: seq<Inline>, init: seq<Inline>, last: Inline)
    requires Flat(x) == Flat(init) && Flat(y) == SeenOf(last)
    ensures Flat(x + y) == Flat(init + [last])
  {
    FlatAppend(x, y);
    FlatAppend(init, [last]);
    FlatOne(last);
  }

  lemma {:induction false} OneConserves(a: Alphabet, inline: Inline)
    ensures Flat(Linked(a, inline)) == SeenOf(inline)
  {
    if CanLink(inline) {
      FoundAreSpans(a, inline.text);
      LinkedConserves(inline.text, inline.style, LinksOf(a, inline.text), 0);
      assert inline.text[0..] == inline.text;
    } else {
      FlatOne(inline);
    }
  }

  // ---------- what is linked ----------

  /** A piece shown where a link was found and leading where that link does. */
  predicate Shows(text: string, l: Link, piece: Inline) {
    l.start <= l.end <= |text| && AddressOf(l.target).Some? && piece.Text? &&
    piece.text == text[l.start..l.end] && piece.link == AddressOf(l.target)
  }

  /** A piece of a text: not empty, in its style, and plain or one of its links. */
  predicate IsPiece(text: string, style: Style, found: seq<Link>, piece: Inline) {
    piece.Text? && piece.style == style && piece.text != "" &&
    (piece.link.None? || exists k :: 0 <= k < |found| && Shows(text, found[k], piece))
  }

  lemma {:induction false} PieceOfMore(text: string, style: Style, found: seq<Link>, piece: Inline)
    requires found != [] && IsPiece(text, style, found[1..], piece)
    ensures IsPiece(text, style, found, piece)
  {
    if piece.link.Some? {
      var k :| 0 <= k < |found[1..]| && Shows(text, found[1..][k], piece);
      assert found[k + 1] == found[1..][k];
    }
  }

  /** Every linked piece is a link that was found, */
  lemma {:induction false} PiecesShowLinks(text: string, style: Style, found: seq<Link>, at: nat, piece: Inline)
    requires AreSpans(found, |text|) && at <= |text| && (found != [] ==> at <= found[0].start)
    requires piece in LinkedFrom(text, style, found, at)
    ensures IsPiece(text, style, found, piece)
    decreases |found|
  {
    if found != [] {
      var l := found[0];
      TailAreSpans(found, |text|);
      var next := if AddressOf(l.target).Some? then l.end else at;
      if piece in LinkedFrom(text, style, found[1..], next) {
        PiecesShowLinks(text, style, found[1..], next, piece);
        PieceOfMore(text, style, found, piece);
      } else if piece.link.Some? {
        assert Shows(text, l, piece);
      }
    }
  }

  predicate SafeAddress(address: string) {
    MayLead(Web(address)) || MayLead(Scheme(address))
  }

  lemma {:induction false} LinkedIsSafe(a: Alphabet, inline: Inline, piece: Inline)
    requires KeepsSchemes(a.lower) && piece in Linked(a, inline)
    ensures piece == inline || (piece.Text? && (piece.link.Some? ==> SafeAddress(piece.link.value)))
  {
    if CanLink(inline) {
      var found := LinksOf(a, inline.text);
      FoundAreSpans(a, inline.text);
      PiecesShowLinks(inline.text, inline.style, found, 0, piece);
      if piece.link.Some? {
        var k :| 0 <= k < |found| && Shows(inline.text, found[k], piece);
        LinksMayLead(a, inline.text, found[k]);
      }
    }
  }

  /** What linking adds to a paragraph leads to the web or to an allowed scheme, */
  lemma {:induction false} AutolinkIsSafe(a: Alphabet, inlines: seq<Inline>, piece: Inline)
    requires KeepsSchemes(a.lower) && piece in Autolinked(a, inlines)
    ensures piece in inlines || (piece.Text? && (piece.link.Some? ==> SafeAddress(piece.link.value)))
  {
    var init, last := inlines[..|inlines| - 1], inlines[|inlines| - 1];
    if piece in Autolinked(a, init) {
      AutolinkIsSafe(a, init, piece);
    } else {
      LinkedIsSafe(a, last, piece);
    }
  }

  /** and every address found is linked. */
  lemma {:induction false} AddressesAreShown(text: string, style: Style, found: seq<Link>, at: nat, k: nat)
    requires AreSpans(found, |text|) && at <= |text| && (found != [] ==> at <= found[0].start)
    requires k < |found| && AddressOf(found[k].target).Some?
    ensures found[k].start <= found[k].end <= |text|
    ensures Text(text[found[k].start..found[k].end], style, AddressOf(found[k].target)) in LinkedFrom(text, style, found, at)
    decreases |found|
  {
    var l := found[0];
    TailAreSpans(found, |text|);
    var next := if AddressOf(l.target).Some? then l.end else at;
    if k > 0 {
      AddressesAreShown(text, style, found[1..], next, k - 1);
    }
  }

  // ---------- what is left alone ----------

  lemma {:induction false} AutolinkedAppend(a: Alphabet, x: seq<Inline>, y: seq<Inline>)
    ensures Autolinked(a, x + y) == Autolinked(a, x) + Autolinked(a, y)
  {
    if y == [] {
      assert x + y == x;
    } else {
      var init, last := y[..|y| - 1], y[|y| - 1];
      AutolinkedAppend(a, x, init);
      assert (x + y)[..|x + y| - 1] == x + init && (x + y)[|x + y| - 1] == last;
      Three(Autolinked(a, x), Autolinked(a, init), Linked(a, last));
    }
  }

  lemma {:induction false} AutolinkedAround(a: Alphabet, before: seq<Inline>, inline: Inline, after: seq<Inline>)
    ensures Autolinked(a, before + [inline] + after) == Autolinked(a, before) + Linked(a, inline) + Autolinked(a, after)
  {
    AutolinkedAppend(a, before + [inline], after);
    assert (before + [inline])[..|before|] == before;
  }

  /** Code, text that is a link already, images and line breaks stay as they are, and where they are. */
  lemma {:induction false} OthersStay(a: Alphabet, before: seq<Inline>, inline: Inline, after: seq<Inline>)
    requires !inline.Text? || inline.link.Some? || inline.style.code
    ensures Autolinked(a, before + [inline] + after) == Autolinked(a, before) + [inline] + Autolinked(a, after)
  {
    AutolinkedAround(a, before, inline, after);
  }

  /** So does text in which nothing but paths is found. */
  lemma {:induction false} PlainStays(a: Alphabet, before: seq<Inline>, text: string, style: Style, after: seq<Inline>)
    requires text != "" && !style.code && forall k :: 0 <= k < |LinksOf(a, text)| ==> LinksOf(a, text)[k].target.File?
    ensures var inline := Text(text, style, None);
      Autolinked(a, before + [inline] + after) == Autolinked(a, before) + [inline] + Autolinked(a, after)
  {
    FoundAreSpans(a, text);
    OnlyFiles(text, style, LinksOf(a, text));
    AutolinkedAround(a, before, Text(text, style, None), after);
  }

  lemma {:induction false} OnlyFiles(text: string, style: Style, found: seq<Link>)
    requires AreSpans(found, |text|) && text != "" && forall k :: 0 <= k < |found| ==> found[k].target.File?
    ensures LinkedFrom(text, style, found, 0) == [Text(text, style, None)]
    decreases |found|
  {
    if found == [] {
      assert text[0..] == text;
    } else {
      TailAreSpans(found, |text|);
      OnlyFiles(text, style, found[1..]);
    }
  }

  /** Wherever plain text holds a web or scheme link, that becomes a link of its own, in the text's style. */
  lemma {:induction false} AddressIsLinked(a: Alphabet, before: seq<Inline>, text: string, style: Style, after: seq<Inline>, l: Link, address: string)
    requires !style.code && l in LinksOf(a, text) && (l.target == Web(address) || l.target == Scheme(address))
    ensures l.start <= l.end <= |text|
    ensures Text(text[l.start..l.end], style, Some(address)) in Autolinked(a, before + [Text(text, style, None)] + after)
  {
    var found := LinksOf(a, text);
    FoundAreSpans(a, text);
    var k :| 0 <= k < |found| && found[k] == l;
    AddressesAreShown(text, style, found, 0, k);
    AutolinkedAround(a, before, Text(text, style, None), after);
  }
}
