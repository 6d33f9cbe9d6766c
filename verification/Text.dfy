/**
 * Reading bytes into a text and its format, and writing an edited text in that format: the functions that
 * say what is computed, and the loops that compute it.
 */
module TextCodec {
  import opened Outcome
  import opened Unicode
  import opened Diff
  import opened Lines
  import Pieces

  datatype Encoding = Utf8(bom: bool) | Utf16Le | Utf16Be

  datatype DecodeError = Binary | InvalidUtf8(offset: nat) | InvalidUtf16

  /** How to write a text: `mixed` is the lines it was read from, endings and all, when more than one kind
      of ending occurred among them. */
  datatype TextFormat = TextFormat(encoding: Encoding, eol: LineEnding, mixed: Option<seq<Line>>)

  datatype Decoded = Decoded(text: Text, format: TextFormat)

  const BINARY_SNIFF_BYTES: nat := 8 * 1024
  const BOM8: seq<Byte> := [0xEF, 0xBB, 0xBF]
  const BOM16LE: seq<Byte> := [0xFF, 0xFE]
  const BOM16BE: seq<Byte> := [0xFE, 0xFF]
  const FEFF: Scalar := 0xFEFF

  function Min(a: nat, b: nat): nat {
    if a < b then a else b
  }

  predicate LooksBinary(bytes: seq<Byte>) {
    0 in bytes[..Min(|bytes|, BINARY_SNIFF_BYTES)]
  }

  // ---------- line endings ----------

  function Count(lines: seq<Line>, e: LineEnding): (n: nat)
    ensures n <= |lines|
  {
    if lines == [] then 0
    else Count(lines[..|lines| - 1], e) + if lines[|lines| - 1].ending == Some(e) then 1 else 0
  }

  /** The ending with the greatest count, LF winning a draw over CRLF and both over CR, or the default for
      none; and whether two counts are positive. */
  function Classified(lines: seq<Line>, defaultEol: LineEnding): (LineEnding, bool) {
    var lf, crlf, cr := Count(lines, Lf), Count(lines, CrLf), Count(lines, Cr);
    var kinds := (if lf > 0 then 1 else 0) + (if crlf > 0 then 1 else 0) + if cr > 0 then 1 else 0;
    (if kinds == 0 then defaultEol
     else if lf >= crlf && lf >= cr then Lf
     else if crlf >= cr then CrLf
     else Cr,
     kinds > 1)
  }

  method Classify(lines: seq<Line>, defaultEol: LineEnding) returns (dominant: LineEnding, mixed: bool)
    ensures (dominant, mixed) == Classified(lines, defaultEol)
  {
    var lf, crlf, cr := 0, 0, 0;
    for i := 0 to |lines|
      invariant lf == Count(lines[..i], Lf) && crlf == Count(lines[..i], CrLf) && cr == Count(lines[..i], Cr)
    {
      assert lines[..i + 1][..i] == lines[..i];
      match lines[i].ending
      case Some(Lf) => lf := lf + 1;
      case Some(CrLf) => crlf := crlf + 1;
      case Some(Cr) => cr := cr + 1;
      case None =>
    }
    assert lines[..|lines|] == lines;
    var kinds := (if lf > 0 then 1 else 0) + (if crlf > 0 then 1 else 0) + if cr > 0 then 1 else 0;
    if kinds == 0 {
      dominant := defaultEol;
    } else if lf >= crlf && lf >= cr {
      dominant := Lf;
    } else if crlf >= cr {
      dominant := CrLf;
    } else {
      dominant := Cr;
    }
    mixed := kinds > 1;
  }

  /** The loop over characters that yields `LinesOf`. */
  method SplitLines(raw: Text) returns (lines: seq<Line>)
    ensures lines == LinesOf(raw)
  {
    lines := [];
    var start, i := 0, 0;
    while i < |raw|
      invariant 0 <= start <= i <= |raw|
      invariant Scan(raw, start, i, lines) == Scan(raw, 0, 0, [])
    {
      if raw[i] == LF {
        lines := lines + [Line(raw[start..i], Some(Lf))];
        i := i + 1;
        start := i;
      } else if raw[i] == CR {
        var crlf := i + 1 < |raw| && raw[i + 1] == LF;
        lines := lines + [Line(raw[start..i], Some(if crlf then CrLf else Cr))];
        i := i + if crlf then 2 else 1;
        start := i;
      } else {
        i := i + 1;
      }
    }
    if start < |raw| {
      lines := lines + [Line(raw[start..], None)];
    }
    ScanFinds(raw, 0, 0, []);
    assert [] + LinesOf(raw) == LinesOf(raw);
  }

  /** What the splitting loop still has to return from a given state. */
  ghost function Scan(raw: Text, start: nat, i: nat, lines: seq<Line>): seq<Line>
    requires start <= i <= |raw|
    decreases |raw| - i
  {
    if i == |raw| then lines + if start < |raw| then [Line(raw[start..], None)] else []
    else if !IsBreak(raw[i]) then Scan(raw, start, i + 1, lines)
    else
      var e := EndingAt(raw, i);
      var next := i + |EndingText(e)|;
      Scan(raw, next, next, lines + [Line(raw[start..i], Some(e))])
  }

  lemma {:induction false} ScanFinds(raw: Text, start: nat, i: nat, lines: seq<Line>)
    requires start <= i <= |raw| && Unbroken(raw, start, i)
    ensures Scan(raw, start, i, lines) == lines + LinesFrom(raw, start)
    decreases |raw| - i
  {
    if i == |raw| {
      LastLine(raw, start, lines);
    } else if !IsBreak(raw[i]) {
      ScanFinds(raw, start, i + 1, lines);
    } else {
      var next, more := ScanTakes(raw, start, i, lines);
      ScanFinds(raw, next, next, more);
    }
  }

  /** No line break from `start` up to `i`. */
  predicate Unbroken(raw: Text, start: nat, i: nat)
    requires i <= |raw|
  {
    forall k :: start <= k < i ==> !IsBreak(raw[k])
  }

  lemma {:induction false} ScanTakes(raw: Text, start: nat, i: nat, lines: seq<Line>) returns (next: nat, more: seq<Line>)
    requires start <= i < |raw| && IsBreak(raw[i]) && Unbroken(raw, start, i)
    ensures i < next <= |raw|
    ensures Scan(raw, start, i, lines) == Scan(raw, next, next, more)
    ensures more + LinesFrom(raw, next) == lines + LinesFrom(raw, start)
  {
    var e := EndingAt(raw, i);
    next := TakeLine(raw, start, i, lines, e);
    more := lines + [Line(raw[start..i], Some(e))];
  }

  /** The next line moves from those to come to those found. */
  lemma {:induction false} TakeLine(raw: Text, start: nat, i: nat, lines: seq<Line>, e: LineEnding) returns (next: nat)
    requires start <= i < |raw| && IsBreak(raw[i]) && forall k :: start <= k < i ==> !IsBreak(raw[k])
    requires e == EndingAt(raw, i)
    ensures next == i + |EndingText(e)| <= |raw|
    ensures lines + [Line(raw[start..i], Some(e))] + LinesFrom(raw, next) == lines + LinesFrom(raw, start)
  {
    ThisLine(raw, start, i, Line(raw[start..i], Some(e)));
    next := NextStart(raw, start);
    NextLine(raw, start, lines);
  }

  lemma {:induction false} MoveOver<T>(done: seq<T>, x: T, rest: seq<T>)
    ensures done + [x] + rest == done + ([x] + rest)
  {
  }

  lemma {:induction false} LastLine(raw: Text, start: nat, lines: seq<Line>)
    requires start <= |raw| && forall k :: start <= k < |raw| ==> !IsBreak(raw[k])
    ensures lines + LinesFrom(raw, start) == if start < |raw| then lines + [Line(raw[start..], None)] else lines
  {
  }

  lemma {:induction false} ThisLine(raw: Text, start: nat, i: nat, l: Line)
    requires start <= i < |raw| && IsBreak(raw[i]) && forall k :: start <= k < i ==> !IsBreak(raw[k])
    requires l == Line(raw[start..i], Some(EndingAt(raw, i)))
    ensures l == LineAt(raw, start) && NextStart(raw, start) == i + |EndingText(l.ending.value)|
  {
  }

  lemma {:induction false} NextLine(raw: Text, start: nat, lines: seq<Line>)
    requires start <= |raw| && NextBreak(raw, start) < |raw|
    ensures lines + [LineAt(raw, start)] + LinesFrom(raw, NextStart(raw, start)) == lines + LinesFrom(raw, start)
  {
    MoveOver(lines, LineAt(raw, start), LinesFrom(raw, NextStart(raw, start)));
  }

  // ---------- decoding ----------

  function RawText(bytes: seq<Byte>): Result<(Encoding, Text), DecodeError> {
    if BOM8 <= bytes then
      match DecodeUtf8(bytes[3..])
      case Ok(raw) => Ok((Utf8(true), raw))
      case Err(k) => Err(InvalidUtf8(3 + k))
    else if BOM16LE <= bytes then
      Utf16Text(bytes[2..], Utf16Le)
    else if BOM16BE <= bytes then
      Utf16Text(bytes[2..], Utf16Be)
    else if LooksBinary(bytes) then Err(Binary)
    else
      match DecodeUtf8(bytes)
      case Ok(raw) => Ok((Utf8(false), raw))
      case Err(k) => Err(InvalidUtf8(k))
  }

  function Utf16Text(bytes: seq<Byte>, encoding: Encoding): Result<(Encoding, Text), DecodeError> {
    if |bytes| % 2 != 0 then Err(InvalidUtf16)
    else
      match DecodeUtf16(BytesUnits(bytes, encoding.Utf16Le?))
      case Some(raw) => Ok((encoding, raw))
      case None => Err(InvalidUtf16)
  }

  function FormatOf(encoding: Encoding, lines: seq<Line>, defaultEol: LineEnding): TextFormat {
    var (eol, mixed) := Classified(lines, defaultEol);
    TextFormat(encoding, eol, if mixed then Some(lines) else None)
  }

  /** The normalised text and its format, or the first error; `defaultEol` matters only if no line is terminated. */
  function Decode(bytes: seq<Byte>, defaultEol: LineEnding): Result<Decoded, DecodeError> {
    match RawText(bytes)
    case Err(e) => Err(e)
    case Ok((encoding, raw)) =>
      var lines := LinesOf(raw);
      Ok(Decoded(Normalised(lines), FormatOf(encoding, lines, defaultEol)))
  }

  method DecodeBytes(bytes: seq<Byte>, defaultEol: LineEnding) returns (r: Result<Decoded, DecodeError>)
    ensures r == Decode(bytes, defaultEol)
  {
    match RawText(bytes)
    case Err(e) => return Err(e);
    case Ok((encoding, raw)) =>
      var lines := SplitLines(raw);
      var eol, mixed := Classify(lines, defaultEol);
      var text := [];
      assert lines[0..] == lines;
      for i := 0 to |lines|
        invariant text + Normalised(lines[i..]) == Normalised(lines)
      {
        NormalNext(lines, i, text);
        text := text + NormalText(lines[i]);
      }
      assert lines[|lines|..] == [] && text == Normalised(lines);
      return Ok(Decoded(text, TextFormat(encoding, eol, if mixed then Some(lines) else None)));
  }

  lemma {:induction false} NormalNext(lines: seq<Line>, i: nat, text: Text)
    requires i < |lines|
    ensures text + NormalText(lines[i]) + Normalised(lines[i + 1..]) == text + Normalised(lines[i..])
  {
    assert lines[i..] == [lines[i]] + lines[i + 1..];
    JoinCons(lines[i], lines[i + 1..]);
    MoveOverAll(text, NormalText(lines[i]), Normalised(lines[i + 1..]));
  }

  lemma {:induction false} MoveOverAll<T>(done: seq<T>, next: seq<T>, rest: seq<T>)
    ensures done + next + rest == done + (next + rest)
  {
  }

  // ---------- encoding ----------

  predicate EndsWithLf(text: Text) {
    text != [] && text[|text| - 1] == LF
  }

  /** The lines of an edited text; the empty piece after a final LF is not one. */
  function NewLines(text: Text): (lines: seq<Text>) {
    var parts := Pieces.Split(text, LF);
    if text == [] then [] else if EndsWithLf(text) then parts[..|parts| - 1] else parts
  }

  predicate InRange(original: seq<Line>, n: nat, m: seq<Pair>) {
    forall i :: 0 <= i < |m| ==> m[i].before < |original| && m[i].after < n
  }

  /** A matched original line hands its ending, if it has one, to the new line. */
  function HandOver(endings: seq<LineEnding>, original: seq<Line>, p: Pair): (r: seq<LineEnding>)
    requires p.before < |original| && p.after < |endings|
    ensures |r| == |endings|
  {
    match original[p.before].ending
    case Some(e) => endings[p.after := e]
    case None => endings
  }

  /** The endings after every match has been handed over, in order. */
  function Overlay(endings: seq<LineEnding>, original: seq<Line>, m: seq<Pair>): (r: seq<LineEnding>)
    requires InRange(original, |endings|, m)
    ensures |r| == |endings|
  {
    if m == [] then endings
    else HandOver(Overlay(endings, original, m[..|m| - 1]), original, m[|m| - 1])
  }

  lemma {:induction false} OverlaySnoc(endings: seq<LineEnding>, original: seq<Line>, m: seq<Pair>, p: Pair)
    requires InRange(original, |endings|, m + [p])
    ensures InRange(original, |endings|, m) && p.before < |original| && p.after < |endings|
    ensures Overlay(endings, original, m + [p]) == HandOver(Overlay(endings, original, m), original, p)
  {
    assert (m + [p])[..|m|] == m && (m + [p])[|m|] == p;
    assert forall i :: 0 <= i < |m| ==> m[i] == (m + [p])[i];
  }

  /** The edit script handed to the encoder is a diff of the original lines and the new ones. */
  ghost predicate DiffFor(text: Text, format: TextFormat, ops: seq<DiffOp>) {
    format.mixed.Some? ==> IsDiff(Contents(format.mixed.value), NewLines(text), ops)
  }

  function UniformEndings(eol: LineEnding, n: nat): (r: seq<LineEnding>)
    ensures |r| == n
  {
    seq(n, i => eol)
  }

  /** Each new line's ending. */
  ghost function Endings(text: Text, format: TextFormat, ops: seq<DiffOp>): (r: seq<LineEnding>)
    requires DiffFor(text, format, ops)
    ensures |r| == |NewLines(text)|
  {
    var base := UniformEndings(format.eol, |NewLines(text)|);
    if format.mixed.Some? then Overlay(base, format.mixed.value, Pairs(ops)) else base
  }

  /** Lines with their terminators: the last one has one only if the text ends with an LF. */
  function Terminated(lines: seq<Text>, endings: seq<LineEnding>, endsWithLf: bool): (r: seq<Line>)
    requires |endings| == |lines|
    ensures |r| == |lines|
  {
    seq(|lines|, i requires 0 <= i < |lines| =>
      Line(lines[i], if i + 1 < |lines| || endsWithLf then Some(endings[i]) else None))
  }

  /** The lines written. */
  ghost function OutputLines(text: Text, format: TextFormat, ops: seq<DiffOp>): (r: seq<Line>)
    requires DiffFor(text, format, ops)
    ensures |r| == |NewLines(text)|
  {
    Terminated(NewLines(text), Endings(text, format, ops), EndsWithLf(text))
  }

  function Store(encoding: Encoding, joined: Text): seq<Byte> {
    match encoding
    case Utf8(bom) => (if bom then BOM8 else []) + EncodeUtf8(joined)
    case Utf16Le => BOM16LE + UnitBytes(EncodeUtf16(joined), true)
    case Utf16Be => BOM16BE + UnitBytes(EncodeUtf16(joined), false)
  }

  /** What `Encode` writes. */
  ghost function Encoded(text: Text, format: TextFormat, ops: seq<DiffOp>): seq<Byte>
    requires DiffFor(text, format, ops)
  {
    Store(format.encoding, Join(OutputLines(text, format, ops)))
  }

  method Encode(text: Text, format: TextFormat, ops: seq<DiffOp>) returns (bytes: seq<Byte>)
    requires DiffFor(text, format, ops)
    ensures bytes == Encoded(text, format, ops)
  {
    var lines := NewLines(text);
    var endsWithNewline := EndsWithLf(text);
    var endings := UniformEndings(format.eol, |lines|);
    if format.mixed.Some? {
      endings := KeepEndings(lines, format.mixed.value, endings, ops);
    }
    var joined := JoinTerminated(lines, endings, endsWithNewline);
    bytes := Store(format.encoding, joined);
  }

  method JoinTerminated(lines: seq<Text>, endings: seq<LineEnding>, endsWithLf: bool) returns (joined: Text)
    requires |endings| == |lines|
    ensures joined == Join(Terminated(lines, endings, endsWithLf))
  {
    joined := [];
    ghost var out := Terminated(lines, endings, endsWithLf);
    assert out[0..] == out;
    for i := 0 to |lines|
      invariant joined + Join(out[i..]) == Join(out)
    {
      var last := i + 1 == |lines|;
      JoinFrom(out, i, joined, lines[i], if !last || endsWithLf then EndingText(endings[i]) else []);
      joined := joined + lines[i];
      if !last || endsWithLf {
        joined := joined + EndingText(endings[i]);
      }
    }
    assert out[|lines|..] == [];
  }

  lemma {:induction false} JoinFrom(out: seq<Line>, i: nat, joined: Text, content: Text, ending: Text)
    requires i < |out| && LineText(out[i]) == content + ending
    ensures joined + content + ending + Join(out[i + 1..]) == joined + Join(out[i..])
  {
    assert out[i..] == [out[i]] + out[i + 1..];
    JoinCons(out[i], out[i + 1..]);
    Regroup(joined, content, ending, Join(out[i + 1..]));
  }

  lemma {:induction false} Regroup<T>(a: seq<T>, b: seq<T>, c: seq<T>, d: seq<T>)
    ensures a + b + c + d == a + ((b + c) + d)
  {
  }

  /** The loop over the edit script: every kept line takes its original ending. */
  method KeepEndings(lines: seq<Text>, original: seq<Line>, base: seq<LineEnding>, ops: seq<DiffOp>)
    returns (endings: seq<LineEnding>)
    requires |base| == |lines| && InRange(original, |lines|, Pairs(ops))
    ensures endings == Overlay(base, original, Pairs(ops))
  {
    endings := base;
    ghost var m := Pairs(ops);
    assert ops[..0] == [];
    for i := 0 to |ops|
      invariant Pairs(ops[..i]) <= m
      invariant endings == Overlay(base, original, Pairs(ops[..i]))
    {
      PairsPrefix(ops, i + 1);
      assert ops[..i + 1][..i] == ops[..i];
      if ops[i].Equal? {
        var Equal(o, n, len) := ops[i];
        endings := KeepRun(original, base, Pairs(ops[..i]), endings, o, n, len);
      }
    }
    assert ops[..|ops|] == ops;
  }

  /** One more line of a run that is kept. */
  lemma {:induction false} RunNext(original: seq<Line>, base: seq<LineEnding>, done: seq<Pair>, o: nat, n: nat, len: nat, k: nat)
    requires k < len && InRange(original, |base|, done + Run(o, n, len))
    ensures var m := done + Run(o, n, len);
      InRange(original, |base|, m[..|done| + k]) && InRange(original, |base|, m[..|done| + k + 1]) &&
      o + k < |original| && n + k < |base| &&
      Overlay(base, original, m[..|done| + k + 1]) == HandOver(Overlay(base, original, m[..|done| + k]), original, Pair(o + k, n + k))
  {
    var m := done + Run(o, n, len);
    assert m[|done| + k] == Pair(o + k, n + k);
    assert m[..|done| + k + 1] == m[..|done| + k] + [m[|done| + k]];
    assert forall i :: 0 <= i < |done| + k + 1 ==> m[..|done| + k + 1][i] == m[i];
    OverlaySnoc(base, original, m[..|done| + k], m[|done| + k]);
  }

  method KeepRun(original: seq<Line>, ghost base: seq<LineEnding>, ghost done: seq<Pair>, start: seq<LineEnding>,
                 o: nat, n: nat, len: nat)
    returns (endings: seq<LineEnding>)
    requires InRange(original, |base|, done + Run(o, n, len)) && InRange(original, |base|, done)
    requires start == Overlay(base, original, done)
    ensures endings == Overlay(base, original, done + Run(o, n, len))
  {
    endings := start;
    ghost var m := done + Run(o, n, len);
    assert done == m[..|done|];
    for k := 0 to len
      invariant InRange(original, |base|, m[..|done| + k])
      invariant endings == Overlay(base, original, m[..|done| + k])
    {
      RunNext(original, base, done, o, n, len, k);
      if original[o + k].ending.Some? {
        endings := endings[n + k := original[o + k].ending.value];
      }
    }
    assert m[..|done| + len] == m;
  }
}
