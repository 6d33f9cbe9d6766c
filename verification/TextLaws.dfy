/**
 * What the text codec is for. Reading a file and writing it back unedited gives the same bytes,
 * whatever its encoding and endings; writing a text and reading it back gives the same text exactly
 * when a condition on the text and the chosen endings holds.
 */
module TextLaws {
  import opened Outcome
  import opened Unicode
  import opened Diff
  import opened Lines
  import opened TextCodec
  import Pieces

  // ---------- stored bytes ----------

  /** Every encoding with a byte order mark is read back as it was stored. */
  lemma {:induction false} MarkedStoreReads(encoding: Encoding, t: Text)
    requires encoding != Utf8(false)
    ensures RawText(Store(encoding, t)) == Ok((encoding, t))
  {
    match encoding
    case Utf8(_) => BomReads(t);
    case Utf16Le => LittleReads(t, Store(Utf16Le, t));
    case Utf16Be => BigReads(t, Store(Utf16Be, t));
  }

  lemma {:induction false} BomReads(t: Text)
    ensures RawText(Store(Utf8(true), t)) == Ok((Utf8(true), t))
  {
    DecodeOfEncodeUtf8(t);
    assert Store(Utf8(true), t)[3..] == EncodeUtf8(t);
  }

  lemma {:induction false} LittleReads(t: Text, b: seq<Byte>)
    requires b == Store(Utf16Le, t)
    ensures RawText(b) == Ok((Utf16Le, t))
  {
    DecodeOfEncodeUtf16(t);
    BytesUnitsOfUnitBytes(EncodeUtf16(t), true);
    assert b[0] == 0xFF && b[2..] == UnitBytes(EncodeUtf16(t), true);
  }

  lemma {:induction false} BigReads(t: Text, b: seq<Byte>)
    requires b == Store(Utf16Be, t)
    ensures RawText(b) == Ok((Utf16Be, t))
  {
    DecodeOfEncodeUtf16(t);
    BytesUnitsOfUnitBytes(EncodeUtf16(t), false);
    assert b[0] == 0xFE && b[2..] == UnitBytes(EncodeUtf16(t), false);
  }

  predicate StartsWithFeff(t: Text) {
    t != [] && t[0] == FEFF
  }

  lemma {:induction false} Utf8Marks(t: Text)
    ensures BOM8 <= EncodeUtf8(t) <==> StartsWithFeff(t)
    ensures !(BOM16LE <= EncodeUtf8(t)) && !(BOM16BE <= EncodeUtf8(t))
    ensures StartsWithFeff(t) ==> EncodeUtf8(t) == BOM8 + EncodeUtf8(t[1..])
  {
    if t != [] {
      FirstUtf8OfChar(t[0], EncodeUtf8(t[1..]));
      var b := EncodeUtf8(t);
      assert Utf8Char(FEFF) == BOM8;
      if BOM8 <= b {
        assert b[0] == 0xEF && b[1] == 0xBB && b[2] == 0xBF;
        assert FirstUtf8(b) == Some(Step(FEFF, 3));
      }
    }
  }

  /** Plain UTF-8 is read back as stored, unless the text begins with U+FEFF (taken for a byte order
      mark) or has a NUL early on (taken for a binary file). */
  lemma {:induction false} PlainStoreReads(t: Text)
    ensures RawText(Store(Utf8(false), t)) ==
      if StartsWithFeff(t) then Ok((Utf8(true), t[1..]))
      else if LooksBinary(EncodeUtf8(t)) then Err(Binary)
      else Ok((Utf8(false), t))
  {
    assert Store(Utf8(false), t) == EncodeUtf8(t);
    Utf8Marks(t);
    DecodeOfEncodeUtf8(t);
    if StartsWithFeff(t) {
      DecodeOfEncodeUtf8(t[1..]);
      assert EncodeUtf8(t)[3..] == EncodeUtf8(t[1..]);
    }
  }

  lemma {:induction false} ReadBytesStoreBack(bytes: seq<Byte>)
    requires RawText(bytes).Ok?
    ensures Store(RawText(bytes).value.0, RawText(bytes).value.1) == bytes
  {
    match RawText(bytes).value.0
    case Utf8(bom) => Utf8StoresBack(bytes);
    case Utf16Le => Utf16StoresBack(bytes, bytes[2..], Utf16Le);
    case Utf16Be => Utf16StoresBack(bytes, bytes[2..], Utf16Be);
  }

  lemma {:induction false} Utf8StoresBack(bytes: seq<Byte>)
    requires RawText(bytes).Ok? && RawText(bytes).value.0.Utf8?
    ensures Store(RawText(bytes).value.0, RawText(bytes).value.1) == bytes
  {
    if BOM8 <= bytes {
      EncodeOfDecodeUtf8(bytes[3..]);
      assert bytes == BOM8 + bytes[3..];
    } else {
      EncodeOfDecodeUtf8(bytes);
      assert [] + bytes == bytes;
    }
  }

  lemma {:induction false} Utf16StoresBack(bytes: seq<Byte>, body: seq<Byte>, encoding: Encoding)
    requires encoding in {Utf16Le, Utf16Be} && RawText(bytes).Ok? && RawText(bytes).value.0 == encoding
    requires |bytes| >= 2 && body == bytes[2..]
    ensures Store(encoding, RawText(bytes).value.1) == bytes
  {
    EncodeOfDecodeUtf16(BytesUnits(body, encoding.Utf16Le?));
    UnitBytesOfBytesUnits(body, encoding.Utf16Le?);
    assert bytes == bytes[..2] + body;
  }

  // ---------- which endings a file has ----------

  lemma {:induction false} CountedEndings(lines: seq<Line>, e: LineEnding)
    ensures Count(lines, e) > 0 <==> exists i :: 0 <= i < |lines| && lines[i].ending == Some(e)
  {
    if lines != [] {
      var init := lines[..|lines| - 1];
      CountedEndings(init, e);
      assert forall i :: 0 <= i < |init| ==> init[i] == lines[i];
    }
  }

  /** If the lines are not classified as mixed, each that is terminated has the classified ending. */
  lemma {:induction false} OneKind(lines: seq<Line>, defaultEol: LineEnding, i: nat)
    requires !Classified(lines, defaultEol).1 && i < |lines| && lines[i].ending.Some?
    ensures lines[i].ending == Some(Classified(lines, defaultEol).0)
  {
    CountedEndings(lines, lines[i].ending.value);
    match lines[i].ending.value
    case Lf =>
    case CrLf =>
    case Cr =>
  }

  /** Lines that all end alike are classified as such. */
  lemma {:induction false} UniformIsOneKind(lines: seq<Line>, eol: LineEnding)
    requires forall i :: 0 <= i < |lines| && lines[i].ending.Some? ==> lines[i].ending.value == eol
    ensures Classified(lines, eol) == (eol, false)
  {
    CountedEndings(lines, Lf);
    CountedEndings(lines, CrLf);
    CountedEndings(lines, Cr);
  }

  /** The recorded ending is one the file uses most. */
  lemma {:induction false} DominantIsCommonest(lines: seq<Line>, defaultEol: LineEnding, e: LineEnding)
    ensures Count(lines, e) <= Count(lines, Classified(lines, defaultEol).0)
    ensures (forall k: LineEnding :: Count(lines, k) == 0) ==> Classified(lines, defaultEol) == (defaultEol, false)
  {
  }

  // ---------- the lines of an edited text ----------

  /** A first line, and the lines of what follows its LF. */
  lemma {:induction false} NewLinesCons(content: Text, rest: Text)
    requires LF !in content
    ensures NewLines(content + [LF] + rest) == [content] + NewLines(rest)
    ensures EndsWithLf(content + [LF] + rest) <==> rest == [] || EndsWithLf(rest)
  {
    Pieces.SplitFirst(content, LF, rest);
    LastOfText(content, rest);
    if rest == [] {
      assert Pieces.Split(rest, LF) == [[]];
    } else {
      InitOfCons(content, Pieces.Split(rest, LF));
    }
  }

  lemma {:induction false} LastOfText(content: Text, rest: Text)
    ensures EndsWithLf(content + [LF] + rest) <==> rest == [] || EndsWithLf(rest)
  {
  }

  lemma {:induction false} InitOfCons<T>(x: T, s: seq<T>)
    requires s != []
    ensures ([x] + s)[..|s|] == [x] + s[..|s| - 1]
  {
  }

  lemma {:induction false} NewLinesLast(content: Text)
    requires LF !in content
    ensures NewLines(content) == (if content == [] then [] else [content]) && !EndsWithLf(content)
  {
    Pieces.SplitPlain(content, LF);
  }

  predicate GivesLines(text: Text, ls: seq<Line>) {
    NewLines(text) == Contents(ls) && (ls != [] ==> (EndsWithLf(text) <==> ls[|ls| - 1].ending.Some?))
  }

  lemma {:induction false} OneMoreLine(l: Line, tail: seq<Line>, rest: Text)
    requires LF !in l.content && GivesLines(rest, tail) && (rest == [] <==> tail == [])
    requires l.ending.Some?
    ensures GivesLines(l.content + [LF] + rest, [l] + tail)
  {
    NewLinesCons(l.content, rest);
    assert Contents([l] + tail) == [l.content] + Contents(tail);
  }

  /** Splitting the normalised text gives the lines it was made from. */
  lemma {:induction false} NewLinesOfNormalised(ls: seq<Line>)
    requires Closed(ls)
    ensures NewLines(Normalised(ls)) == Contents(ls)
    ensures ls != [] ==> (EndsWithLf(Normalised(ls)) <==> ls[|ls| - 1].ending.Some?)
  {
    if ls != [] {
      ClosedTail(ls);
      NewLinesOfNormalised(ls[1..]);
      assert ls == [ls[0]] + ls[1..];
      if ls[0].ending.Some? {
        NormalisedEmpty(ls[1..]);
        OneMoreLine(ls[0], ls[1..], Normalised(ls[1..]));
      } else {
        NewLinesLast(ls[0].content);
        assert Normalised(ls) == ls[0].content;
      }
    }
  }

  lemma {:induction false} NormalisedEmpty(ls: seq<Line>)
    requires Closed(ls)
    ensures Normalised(ls) == [] <==> ls == []
  {
  }

  /** Terminating the lines of a text with any endings yields closed lines whose normal form is the
      text. */
  lemma {:induction false} TerminatedLines(text: Text, endings: seq<LineEnding>)
    requires |endings| == |NewLines(text)|
    ensures var out := Terminated(NewLines(text), endings, EndsWithLf(text));
      Closed(out) && Normalised(out) == text
    decreases |text|
  {
    var n := Pieces.IndexOf(text, LF);
    Pieces.BeforeIndexOf(text, LF);
    if n == |text| {
      assert text[..n] == text;
      NewLinesLast(text);
      if text != [] {
        LoneLine(text, endings);
      }
    } else {
      var content, rest := text[..n], text[n + 1..];
      assert text == content + [LF] + rest;
      NewLinesCons(content, rest);
      TerminatedLines(rest, endings[1..]);
      if rest == [] {
        assert NewLines(rest) == [];
      }
      TerminatedCons(content, NewLines(rest), endings, EndsWithLf(text), EndsWithLf(rest));
      ClosedCons(Line(content, Some(endings[0])), Terminated(NewLines(rest), endings[1..], EndsWithLf(rest)));
      JoinCons(Line(content, Some(endings[0])), Terminated(NewLines(rest), endings[1..], EndsWithLf(rest)));
    }
  }

  lemma {:induction false} LoneLine(text: Text, endings: seq<LineEnding>)
    requires text != [] && LF !in text && |endings| == 1
    ensures Closed(Terminated([text], endings, false)) && Normalised(Terminated([text], endings, false)) == text
  {
    assert Terminated([text], endings, false) == [Line(text, None)] + [];
    JoinCons(Line(text, None), []);
  }

  lemma {:induction false} TerminatedCons(content: Text, lines: seq<Text>, endings: seq<LineEnding>, whole: bool, tail: bool)
    requires |endings| == 1 + |lines|
    requires lines == [] ==> whole
    requires lines != [] ==> whole == tail
    ensures Terminated([content] + lines, endings, whole) ==
      [Line(content, Some(endings[0]))] + Terminated(lines, endings[1..], tail)
  {
  }

  lemma {:induction false} ClosedCons(l: Line, ls: seq<Line>)
    requires LF !in l.content && l.ending.Some? && Closed(ls)
    ensures Closed([l] + ls)
  {
    var all := [l] + ls;
    forall i | 0 <= i < |all|
      ensures LF !in all[i].content
      ensures all[i].ending.None? ==> i == |all| - 1 && all[i].content != []
    {
      if 0 < i {
        assert all[i] == ls[i - 1];
      }
    }
  }

  lemma {:induction false} CrInNormalised(ls: seq<Line>)
    ensures CrFree(ls) <==> CR !in Normalised(ls)
  {
    if ls != [] {
      CrInNormalised(ls[1..]);
      assert CrFree(ls) <==> CR !in ls[0].content && CrFree(ls[1..]) by {
        assert forall i :: 1 <= i < |ls| ==> ls[i] == ls[1..][i - 1];
      }
    }
  }

  // ---------- a file read and written back ----------

  /** Handing over a match of every line with itself restores every line's own ending. */
  lemma {:induction false} OverlayIdentity(base: seq<LineEnding>, original: seq<Line>, n: nat)
    requires n <= |original| == |base|
    ensures InRange(original, |base|, Run(0, 0, n))
    ensures var r := Overlay(base, original, Run(0, 0, n));
      forall i :: 0 <= i < n && original[i].ending.Some? ==> r[i] == original[i].ending.value
  {
    if 0 < n {
      OverlayIdentity(base, original, n - 1);
      assert Run(0, 0, n) == Run(0, 0, n - 1) + [Pair(n - 1, n - 1)];
      OverlaySnoc(base, original, Run(0, 0, n - 1), Pair(n - 1, n - 1));
    }
  }

  /** Writing an unedited document back gives every line its own ending. */
  lemma {:induction false} UneditedEndings(lines: seq<Line>, encoding: Encoding, defaultEol: LineEnding, ops: seq<DiffOp>, i: nat)
    requires Closed(lines) && i < |lines| && lines[i].ending.Some?
    requires DiffFor(Normalised(lines), FormatOf(encoding, lines, defaultEol), ops)
    ensures NewLines(Normalised(lines)) == Contents(lines)
    ensures Endings(Normalised(lines), FormatOf(encoding, lines, defaultEol), ops)[i] == lines[i].ending.value
  {
    var format := FormatOf(encoding, lines, defaultEol);
    NewLinesOfNormalised(lines);
    if format.mixed.Some? {
      IdenticalForcesIdentity(Contents(lines), Pairs(ops));
      OverlayIdentity(UniformEndings(format.eol, |lines|), lines, |lines|);
    } else {
      OneKind(lines, defaultEol, i);
    }
  }

  lemma {:induction false} TerminatedAgain(lines: seq<Line>, endings: seq<LineEnding>, endsWithLf: bool)
    requires Closed(lines) && |endings| == |lines|
    requires forall i :: 0 <= i < |lines| && lines[i].ending.Some? ==> endings[i] == lines[i].ending.value
    requires lines != [] ==> (endsWithLf <==> lines[|lines| - 1].ending.Some?)
    ensures Terminated(Contents(lines), endings, endsWithLf) == lines
  {
  }

  /** Writing an unedited document back yields the lines it was read from. */
  lemma {:induction false} UneditedLines(lines: seq<Line>, encoding: Encoding, defaultEol: LineEnding, ops: seq<DiffOp>)
    requires Closed(lines)
    requires DiffFor(Normalised(lines), FormatOf(encoding, lines, defaultEol), ops)
    ensures OutputLines(Normalised(lines), FormatOf(encoding, lines, defaultEol), ops) == lines
  {
    var text, format := Normalised(lines), FormatOf(encoding, lines, defaultEol);
    NewLinesOfNormalised(lines);
    var endings := Endings(text, format, ops);
    forall i | 0 <= i < |lines| && lines[i].ending.Some?
      ensures endings[i] == lines[i].ending.value
    {
      UneditedEndings(lines, encoding, defaultEol, ops, i);
    }
    TerminatedAgain(lines, endings, EndsWithLf(text));
  }

  /** Byte-exact round trip: whatever `Decode` accepts is written back unchanged, whichever diff the
      encoder is given. */
  lemma {:induction false} DecodeThenEncode(bytes: seq<Byte>, defaultEol: LineEnding, ops: seq<DiffOp>)
    requires Decode(bytes, defaultEol).Ok?
    requires var d := Decode(bytes, defaultEol).value; DiffFor(d.text, d.format, ops)
    ensures var d := Decode(bytes, defaultEol).value; Encoded(d.text, d.format, ops) == bytes
  {
    var (encoding, raw) := RawText(bytes).value;
    LinesAreClosed(raw, 0);
    UneditedLines(LinesOf(raw), encoding, defaultEol, ops);
    JoinOfLines(raw, 0);
    ReadBytesStoreBack(bytes);
  }

  // ---------- a text written and read back ----------

  /** The bytes of a plain UTF-8 file that would not be taken for something else. */
  ghost predicate Recognisable(encoding: Encoding, joined: Text) {
    encoding == Utf8(false) ==> !StartsWithFeff(joined) && !LooksBinary(EncodeUtf8(joined))
  }

  ghost predicate ReadsBack(text: Text, format: TextFormat, ops: seq<DiffOp>)
    requires DiffFor(text, format, ops)
  {
    var r := Decode(Encoded(text, format, ops), format.eol);
    r.Ok? && r.value.text == text
  }

  /** What decoding written text yields. */
  lemma {:induction false} DecodedText(encoding: Encoding, joined: Text, defaultEol: LineEnding)
    ensures Recognisable(encoding, joined) ==>
      Decode(Store(encoding, joined), defaultEol) ==
      Ok(Decoded(Normalise(joined), FormatOf(encoding, LinesOf(joined), defaultEol)))
    ensures !Recognisable(encoding, joined) && !StartsWithFeff(joined) ==>
      Decode(Store(encoding, joined), defaultEol) == Err(Binary)
    ensures !Recognisable(encoding, joined) && StartsWithFeff(joined) ==>
      Decode(Store(encoding, joined), defaultEol).Ok? &&
      Decode(Store(encoding, joined), defaultEol).value.text == Normalise(joined[1..])
  {
    if encoding == Utf8(false) {
      PlainStoreReads(joined);
    } else {
      MarkedStoreReads(encoding, joined);
    }
    NormalisedLines(joined, 0);
    assert joined[0..] == joined;
    if StartsWithFeff(joined) {
      NormalisedLines(joined[1..], 0);
      assert joined[1..][0..] == joined[1..];
    }
  }

  lemma {:induction false} NormaliseHasNoCr(raw: Text)
    ensures CR !in Normalise(raw)
  {
    NormalisedLines(raw, 0);
    LinesAreClosed(raw, 0);
    CrInNormalised(LinesOf(raw));
    assert raw[0..] == raw;
  }

  /** The exact condition under which a text survives being saved and read again: it holds no CR of
      its own, no line that kept a CR ending is followed by an empty line ended by LF, and a plain
      UTF-8 file does not begin like a marked or a binary one. */
  lemma {:induction false} ReadsBackExactly(text: Text, format: TextFormat, ops: seq<DiffOp>)
    requires DiffFor(text, format, ops)
    ensures var out := OutputLines(text, format, ops);
      ReadsBack(text, format, ops) <==> CR !in text && !Fusing(out) && Recognisable(format.encoding, Join(out))
  {
    var out := OutputLines(text, format, ops);
    var joined := Join(out);
    TerminatedLines(text, Endings(text, format, ops));
    CrInNormalised(out);
    DecodedText(format.encoding, joined, format.eol);
    NormaliseHasNoCr(joined);
    if StartsWithFeff(joined) {
      NormaliseHasNoCr(joined[1..]);
    }
    if CR !in text {
      NormaliseJoin(out);
      if StartsWithFeff(joined) {
        assert Normalise(joined) == [FEFF] + Normalise(joined[1..]);
      }
    }
  }

  /** A document whose lines all end alike: its text and its format both come back, for every text
      without CRs that a plain UTF-8 file can hold. */
  lemma {:induction false} UniformReadsBack(text: Text, format: TextFormat, ops: seq<DiffOp>)
    requires format.mixed.None?
    ensures var out := OutputLines(text, format, ops);
      (ReadsBack(text, format, ops) <==> CR !in text && Recognisable(format.encoding, Join(out))) &&
      (ReadsBack(text, format, ops) ==> Decode(Encoded(text, format, ops), format.eol) == Ok(Decoded(text, format)))
  {
    var out := OutputLines(text, format, ops);
    forall i | 0 <= i < |out|
      ensures !Fuses(out, i)
      ensures out[i].ending.Some? ==> out[i].ending.value == format.eol
    {
    }
    ReadsBackExactly(text, format, ops);
    if ReadsBack(text, format, ops) {
      TerminatedLines(text, Endings(text, format, ops));
      CrInNormalised(out);
      DecodedText(format.encoding, Join(out), format.eol);
      LinesOfJoin(out);
      UniformIsOneKind(out, format.eol);
    }
  }

  /** Lines that neither hold a CR nor fuse are found again by splitting. */
  lemma {:induction false} LinesOfJoin(ls: seq<Line>)
    requires Closed(ls) && CrFree(ls) && !Fusing(ls)
    ensures LinesOf(Join(ls)) == ls
  {
    LinesFromJoin([], ls);
    assert [] + Join(ls) == Join(ls);
  }

  lemma {:induction false} LinesFromJoin(before: Text, ls: seq<Line>)
    requires Closed(ls) && CrFree(ls) && !Fusing(ls)
    ensures LinesFrom(before + Join(ls), |before|) == ls
    decreases |ls|
  {
    if ls != [] {
      var l, tail := ls[0], ls[1..];
      ClosedTail(ls);
      FusingUnfold(ls);
      JoinStartsWithLf(tail);
      if l.ending.Some? {
        LineFound(before, l, Join(tail));
        LinesFromJoin(before + LineText(l), tail);
        Reassociate(before, LineText(l), Join(tail));
        assert ls == [l] + tail;
      } else {
        FinalLineFound(before, l.content);
        assert Join(ls) == l.content && ls == [Line(l.content, None)];
      }
    }
  }

  lemma {:induction false} Reassociate(a: Text, b: Text, c: Text)
    ensures a + (b + c) == a + b + c
  {
  }

  lemma {:induction false} FinalLineFound(before: Text, content: Text)
    requires LF !in content && CR !in content
    ensures LinesFrom(before + content, |before|) == if content == [] then [] else [Line(content, None)]
  {
    var raw := before + content;
    forall k | |before| <= k < |raw|
      ensures !IsBreak(raw[k])
    {
      assert raw[k] == content[k - |before|];
    }
    NextBreakIs(raw, |before|, |raw|);
    assert raw[|before|..] == content;
  }

  lemma {:induction false} LineFound(before: Text, l: Line, rest: Text)
    requires LF !in l.content && CR !in l.content && l.ending.Some?
    requires l.ending == Some(Cr) ==> rest == [] || rest[0] != LF
    ensures var raw := before + (LineText(l) + rest);
      NextBreak(raw, |before|) < |raw| && LineAt(raw, |before|) == l && NextStart(raw, |before|) == |before + LineText(l)|
  {
    var e := l.ending.value;
    var raw, n := before + (LineText(l) + rest), |before| + |l.content|;
    forall k | |before| <= k < n
      ensures !IsBreak(raw[k])
    {
      assert raw[k] == l.content[k - |before|];
    }
    assert raw[|before|..n] == l.content;
    assert raw[n..n + |EndingText(e)|] == EndingText(e);
    EndingFound(raw, n, e);
    NextBreakIs(raw, |before|, n);
  }

  lemma {:induction false} NextBreakIs(raw: Text, i: nat, n: nat)
    requires i <= n <= |raw| && (forall k :: i <= k < n ==> !IsBreak(raw[k])) && (n < |raw| ==> IsBreak(raw[n]))
    ensures NextBreak(raw, i) == n
    decreases n - i
  {
    if i < n {
      NextBreakIs(raw, i + 1, n);
    }
  }

  lemma {:induction false} EndingFound(raw: Text, n: nat, e: LineEnding)
    requires n + |EndingText(e)| <= |raw| && raw[n..n + |EndingText(e)|] == EndingText(e)
    requires e == Cr ==> n + 1 == |raw| || raw[n + 1] != LF
    ensures IsBreak(raw[n]) && EndingAt(raw, n) == e
  {
    assert raw[n] == EndingText(e)[0];
    if e == CrLf {
      assert raw[n + 1] == EndingText(e)[1];
    }
  }

  // ---------- which lines keep their ending ----------

  /** Edited files change only edited lines: a kept line has its original ending, and a line the diff
      does not match takes the document's own. */
  lemma {:induction false} EndingsKept(base: seq<LineEnding>, original: seq<Line>, m: seq<Pair>, a: seq<Text>, b: seq<Text>)
    requires IsMatching(a, b, m) && InRange(original, |base|, m)
    ensures var r := Overlay(base, original, m);
      (forall i :: 0 <= i < |m| ==>
        r[m[i].after] == if original[m[i].before].ending.Some? then original[m[i].before].ending.value else base[m[i].after]) &&
      (forall j :: 0 <= j < |base| && (forall i :: 0 <= i < |m| ==> m[i].after != j) ==> r[j] == base[j])
  {
    if m != [] {
      var init, p := m[..|m| - 1], m[|m| - 1];
      assert m == init + [p];
      EndingsKept(base, original, init, a, b);
      OverlaySnoc(base, original, init, p);
    }
  }

  /** The failure is real. In a file of two lines, `a` ended by CR and `b` by LF, emptying the second
      line leaves an LF-ended empty line behind a CR: on disk they are one CRLF. */
  lemma {:induction false} MixedCanFail(ops: seq<DiffOp>)
    requires ops == [Equal(0, 0, 1)]
    ensures var format := TextFormat(Utf16Le, Lf, Some([Line([97], Some(Cr)), Line([98], Some(Lf))]));
      var text := [97, LF, LF];
      Decode(Store(Utf16Le, [97, CR, 98, LF]), Lf) == Ok(Decoded([97, LF, 98, LF], format)) &&
      DiffFor(text, format, ops) && CR !in text && !ReadsBack(text, format, ops)
  {
    var original := [Line([97], Some(Cr)), Line([98], Some(Lf))];
    TwoLinesDecode(original, Line([97], Some(Cr)), Line([98], Some(Lf)));
    EmptyingFails(original, [97, LF, LF], TextFormat(Utf16Le, Lf, Some(original)), ops);
  }

  lemma {:induction false} EmptyingFails(original: seq<Line>, text: Text, format: TextFormat, ops: seq<DiffOp>)
    requires original == [Line([97], Some(Cr)), Line([98], Some(Lf))] && text == [97, LF, LF]
    requires format == TextFormat(Utf16Le, Lf, Some(original)) && ops == [Equal(0, 0, 1)]
    ensures DiffFor(text, format, ops) && CR !in text && !ReadsBack(text, format, ops)
  {
    EmptiedLines();
    OnlyPair(ops);
    OnlyOneMatch(Contents(original), NewLines(text));
    EmptiedEndings(original);
    FusedOutput(text, format, ops);
    ReadsBackExactly(text, format, ops);
  }

  lemma {:induction false} TwoLinesDecode(ls: seq<Line>, a: Line, b: Line)
    requires a == Line([97], Some(Cr)) && b == Line([98], Some(Lf)) && ls == [a, b]
    ensures Decode(Store(Utf16Le, [97, CR, 98, LF]), Lf) ==
      Ok(Decoded([97, LF, 98, LF], TextFormat(Utf16Le, Lf, Some(ls))))
  {
    var raw := [97, CR, 98, LF];
    TwoLinesJoin(ls, a, b);
    TwoLinesCount(ls, a, b);
    LinesOfJoin(ls);
    DecodedText(Utf16Le, raw, Lf);
    NormalisedLines(raw, 0);
    assert raw[0..] == raw;
  }

  lemma {:induction false} TwoLinesJoin(ls: seq<Line>, a: Line, b: Line)
    requires a == Line([97], Some(Cr)) && b == Line([98], Some(Lf)) && ls == [a, b]
    ensures Join(ls) == [97, CR, 98, LF] && Normalised(ls) == [97, LF, 98, LF]
  {
    assert ls == [a] + ([b] + []);
    JoinCons(a, [b] + []);
    JoinCons(b, []);
  }

  lemma {:induction false} TwoLinesCount(ls: seq<Line>, a: Line, b: Line)
    requires a == Line([97], Some(Cr)) && b == Line([98], Some(Lf)) && ls == [a, b]
    ensures Classified(ls, Lf) == (Lf, true)
  {
    assert ls[..1] == [a] && [a][..0] == [];
    assert Count([a], Lf) == 0 && Count([a], CrLf) == 0 && Count([a], Cr) == 1;
  }

  lemma {:induction false} OnlyPair(ops: seq<DiffOp>)
    requires ops == [Equal(0, 0, 1)]
    ensures Pairs(ops) == [Pair(0, 0)]
  {
    assert ops[..0] == [];
  }

  lemma {:induction false} EmptiedEndings(original: seq<Line>)
    requires |original| == 2 && original[0].ending == Some(Cr)
    ensures Overlay(UniformEndings(Lf, 2), original, [Pair(0, 0)])[0] == Cr
    ensures Overlay(UniformEndings(Lf, 2), original, [Pair(0, 0)])[1] == Lf
  {
    OverlaySnoc(UniformEndings(Lf, 2), original, [], Pair(0, 0));
    assert [] + [Pair(0, 0)] == [Pair(0, 0)];
  }

  lemma {:induction false} FusedOutput(text: Text, format: TextFormat, ops: seq<DiffOp>)
    requires DiffFor(text, format, ops) && NewLines(text) == [[97], []] && EndsWithLf(text)
    requires Endings(text, format, ops)[0] == Cr && Endings(text, format, ops)[1] == Lf
    ensures Fusing(OutputLines(text, format, ops))
  {
    assert Fuses(OutputLines(text, format, ops), 0);
  }

  lemma {:induction false} EmptiedLines()
    ensures NewLines([97, LF, LF]) == [[97], []] && EndsWithLf([97, LF, LF])
  {
    NewLinesCons([97], [LF]);
    assert [97] + [LF] + [LF] == [97, LF, LF];
    NewLinesCons([], []);
    assert [] + [LF] + [] == [LF];
  }

  lemma {:induction false} OnlyOneMatch(a: seq<Text>, b: seq<Text>)
    requires a == [[97], [98]] && b == [[97], []]
    ensures IsLongest(a, b, [Pair(0, 0)])
  {
    assert a[0] == [97] && a[1] == [98] && b[0] == [97] && b[1] == [];
    forall m: seq<Pair> | IsMatching(a, b, m)
      ensures |m| <= 1
    {
      if m != [] {
        var i := |m| - 1;
        StartsLow(a, b, m, i);
        assert a[m[i].before] == b[m[i].after];
        assert |a[1]| == 1 && |b[1]| == 0 && a[1][0] != b[0][0];
      }
    }
  }
}
