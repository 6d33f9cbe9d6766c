/**
 * The codec in numbers: which bytes stand for what in a file, stated without the functions and constants
 * that compute it.
 */
module TextBytes {
  import opened Outcome
  import opened Unicode
  import opened Diff
  import opened Lines
  import opened TextCodec
  import opened TextLaws

  // ---------- characters ----------

  /** The value of `bits` with the six bits of one more byte behind them. */
  function SixMore(bits: int, next: int): int {
    bits * 64 + next - 0x80
  }

  /** The bits of a first byte behind those that say how many bytes there are. */
  function Lead(first: int, count: int): int {
    first - count
  }

  /** The bytes of a scalar value: as few as its size allows, with six bits in each but the first. */
  predicate SpellsUtf8(b: seq<Byte>, c: int) {
    (|b| == 1 && b[0] == c <= 0x7F) ||
    (|b| == 2 && 0x80 <= c <= 0x7FF && Tail(b) && b[0] >= 0xC0 && c == SixMore(Lead(b[0], 0xC0), b[1])) ||
    (|b| == 3 && 0x800 <= c <= 0xFFFF && Tail(b) && b[0] >= 0xE0 &&
     c == SixMore(SixMore(Lead(b[0], 0xE0), b[1]), b[2])) ||
    (|b| == 4 && 0x1_0000 <= c <= 0x10_FFFF && Tail(b) && b[0] >= 0xF0 &&
     c == SixMore(SixMore(SixMore(Lead(b[0], 0xF0), b[1]), b[2]), b[3]))
  }

  predicate Tail(b: seq<Byte>) {
    forall i :: 1 <= i < |b| ==> 0x80 <= b[i] <= 0xBF
  }

  lemma {:induction false} CharactersSpellUtf8(c: Scalar)
    ensures SpellsUtf8(Utf8Char(c), c)
  {
    DigitsOf(c);
  }

  lemma {:induction false} SixAreOne(x: int, y: int, x': int, y': int)
    requires SixMore(x, y) == SixMore(x', y') && 0x80 <= y <= 0xBF && 0x80 <= y' <= 0xBF
    ensures x == x' && y == y'
  {
  }

  /** No two byte strings spell one scalar value. */
  lemma {:induction false} OneSpelling(a: seq<Byte>, b: seq<Byte>, c: int)
    requires SpellsUtf8(a, c) && SpellsUtf8(b, c)
    ensures a == b
  {
    assert |a| == |b|;
    if |a| == 2 {
      SixAreOne(Lead(a[0], 0xC0), a[1], Lead(b[0], 0xC0), b[1]);
    } else if |a| == 3 {
      var x, y := Lead(a[0], 0xE0), Lead(b[0], 0xE0);
      SixAreOne(SixMore(x, a[1]), a[2], SixMore(y, b[1]), b[2]);
      SixAreOne(x, a[1], y, b[1]);
    } else if |a| == 4 {
      var x, y := Lead(a[0], 0xF0), Lead(b[0], 0xF0);
      SixAreOne(SixMore(SixMore(x, a[1]), a[2]), a[3], SixMore(SixMore(y, b[1]), b[2]), b[3]);
      SixAreOne(SixMore(x, a[1]), a[2], SixMore(y, b[1]), b[2]);
      SixAreOne(x, a[1], y, b[1]);
    }
  }

  /** The code units of a scalar value: itself, or ten bits in a high one and then ten in a low one. */
  predicate SpellsUtf16(u: seq<Unit>, c: int) {
    (|u| == 1 && u[0] == c) ||
    (|u| == 2 && 0xD800 <= u[0] <= 0xDBFF && 0xDC00 <= u[1] <= 0xDFFF &&
     c == 0x1_0000 + Lead(u[0], 0xD800) * 1024 + Lead(u[1], 0xDC00))
  }

  lemma {:induction false} CharactersSpellUtf16(c: Scalar)
    ensures SpellsUtf16(Utf16Char(c), c)
  {
  }

  predicate PairedAt(u: seq<Unit>, i: nat)
    requires i < |u|
  {
    (0xD800 <= u[i] <= 0xDBFF ==> i + 1 < |u| && 0xDC00 <= u[i + 1] <= 0xDFFF) &&
    (0xDC00 <= u[i] <= 0xDFFF ==> 0 < i && 0xD800 <= u[i - 1] <= 0xDBFF)
  }

  /** Every surrogate has its partner beside it. */
  predicate Paired(u: seq<Unit>) {
    forall i :: 0 <= i < |u| ==> PairedAt(u, i)
  }

  /** How many code units the first character takes, if it is whole. */
  predicate FirstIsWhole(u: seq<Unit>, w: nat) {
    w <= |u| &&
    ((w == 1 && !(0xD800 <= u[0] <= 0xDFFF)) || (w == 2 && 0xD800 <= u[0] <= 0xDBFF && 0xDC00 <= u[1] <= 0xDFFF))
  }

  lemma {:induction false} PairedBehind(u: seq<Unit>, w: nat, i: nat)
    requires FirstIsWhole(u, w) && i + w < |u|
    ensures PairedAt(u[w..], i) <==> PairedAt(u, i + w)
  {
    var v := u[w..];
    assert v[i] == u[i + w];
    if 0 < i {
      assert v[i - 1] == u[i - 1 + w];
    }
    if i + 1 < |v| {
      assert v[i + 1] == u[i + 1 + w];
    }
  }

  lemma {:induction false} PairedTail(u: seq<Unit>, w: nat)
    requires FirstIsWhole(u, w)
    ensures Paired(u) <==> Paired(u[w..])
  {
    forall i: nat | i + w < |u|
      ensures PairedAt(u[w..], i) <==> PairedAt(u, i + w)
    {
      PairedBehind(u, w, i);
    }
    if Paired(u[w..]) {
      forall i | 0 <= i < |u|
        ensures PairedAt(u, i)
      {
        if w <= i {
          assert PairedAt(u[w..], i - w);
        }
      }
    }
  }

  /** Decoding fails exactly for unpaired surrogates. */
  lemma {:induction false} DecodesExactlyPaired(u: seq<Unit>)
    ensures DecodeUtf16(u).Some? <==> Paired(u)
  {
    if u != [] {
      var w := if 0xD800 <= u[0] <= 0xDBFF then 2 else 1;
      if FirstIsWhole(u, w) {
        DecodesExactlyPaired(u[w..]);
        PairedTail(u, w);
      } else {
        assert !PairedAt(u, 0);
      }
    }
  }

  // ---------- code units in bytes ----------

  function TwoBytes(low: int, high: int): int {
    low + 256 * high
  }

  /** Behind two bytes, a code unit in every further two. */
  predicate UnitsAt(b: seq<Byte>, u: seq<Unit>, low: nat, high: nat)
    requires low <= 1 && high <= 1
  {
    |b| == 2 + 2 * |u| && forall k :: 0 <= k < |u| ==> u[k] == TwoBytes(b[2 + 2 * k + low], b[2 + 2 * k + high])
  }

  lemma {:induction false} UnitAt(b: seq<Byte>, little: bool, k: nat)
    requires |b| % 2 == 0 && 2 * k < |b|
    ensures BytesUnits(b, little)[k] == if little then TwoBytes(b[2 * k], b[2 * k + 1]) else TwoBytes(b[2 * k + 1], b[2 * k])
    decreases k
  {
    if k > 0 {
      UnitAt(b[2..], little, k - 1);
      assert b[2..][2 * (k - 1)] == b[2 * k] && b[2..][2 * (k - 1) + 1] == b[2 * k + 1];
    }
  }

  lemma {:induction false} UnitsBehind(b: seq<Byte>, little: bool)
    requires |b| >= 2 && |b| % 2 == 0
    ensures var u := BytesUnits(b[2..], little); if little then UnitsAt(b, u, 0, 1) else UnitsAt(b, u, 1, 0)
  {
    var u := BytesUnits(b[2..], little);
    forall k | 0 <= k < |u|
      ensures u[k] == if little then TwoBytes(b[2 + 2 * k], b[2 + 2 * k + 1]) else TwoBytes(b[2 + 2 * k + 1], b[2 + 2 * k])
    {
      UnitAt(b[2..], little, k);
      assert b[2..][2 * k] == b[2 + 2 * k] && b[2..][2 * k + 1] == b[2 + 2 * k + 1];
    }
  }

  // ---------- what marks a file ----------

  predicate Begins(b: seq<Byte>, mark: seq<Byte>) {
    |b| >= |mark| && forall i :: 0 <= i < |mark| ==> b[i] == mark[i]
  }

  lemma {:induction false} BeginsIsPrefix(b: seq<Byte>, mark: seq<Byte>)
    ensures Begins(b, mark) <==> mark <= b
  {
    if mark <= b {
      assert mark == b[..|mark|];
    }
  }

  lemma {:induction false} MarksAre(b: seq<Byte>)
    ensures BOM8 <= b <==> Begins(b, [0xEF, 0xBB, 0xBF])
    ensures BOM16LE <= b <==> Begins(b, [0xFF, 0xFE])
    ensures BOM16BE <= b <==> Begins(b, [0xFE, 0xFF])
    ensures Begins(b, [0xFF, 0xFE]) ==> !Begins(b, [0xEF, 0xBB, 0xBF]) && !Begins(b, [0xFE, 0xFF])
    ensures Begins(b, [0xFE, 0xFF]) ==> !Begins(b, [0xEF, 0xBB, 0xBF])
  {
    BeginsIsPrefix(b, BOM8);
    BeginsIsPrefix(b, BOM16LE);
    BeginsIsPrefix(b, BOM16BE);
    if Begins(b, [0xFF, 0xFE]) || Begins(b, [0xFE, 0xFF]) {
      assert b[0] != 0xEF;
    }
  }

  lemma {:induction false} MarkedUnits(b: seq<Byte>, encoding: Encoding, r: Result<(Encoding, Text), DecodeError>)
    requires |b| >= 2 && encoding in {Utf16Le, Utf16Be} && r == Utf16Text(b[2..], encoding) && r.Ok?
    ensures r.value.0 == encoding
    ensures var u := EncodeUtf16(r.value.1); if encoding == Utf16Le then UnitsAt(b, u, 0, 1) else UnitsAt(b, u, 1, 0)
  {
    EncodeOfDecodeUtf16(BytesUnits(b[2..], encoding.Utf16Le?));
    UnitsBehind(b, encoding.Utf16Le?);
  }

  /** A file that begins with FF FE is read low byte first, */
  lemma {:induction false} LittleEndianIsRead(b: seq<Byte>)
    requires |b| >= 2 && b[0] == 0xFF && b[1] == 0xFE
    ensures RawText(b).Ok? ==> RawText(b).value.0 == Utf16Le && UnitsAt(b, EncodeUtf16(RawText(b).value.1), 0, 1)
    ensures RawText(b).Err? ==> RawText(b).error == InvalidUtf16
  {
    MarksAre(b);
    if RawText(b).Ok? {
      MarkedUnits(b, Utf16Le, RawText(b));
    }
  }

  /** one that begins with FE FF high byte first, */
  lemma {:induction false} BigEndianIsRead(b: seq<Byte>)
    requires |b| >= 2 && b[0] == 0xFE && b[1] == 0xFF
    ensures RawText(b).Ok? ==> RawText(b).value.0 == Utf16Be && UnitsAt(b, EncodeUtf16(RawText(b).value.1), 1, 0)
    ensures RawText(b).Err? ==> RawText(b).error == InvalidUtf16
  {
    MarksAre(b);
    if RawText(b).Ok? {
      MarkedUnits(b, Utf16Be, RawText(b));
    }
  }

  predicate Marked(b: seq<Byte>) {
    Begins(b, [0xEF, 0xBB, 0xBF]) || Begins(b, [0xFF, 0xFE]) || Begins(b, [0xFE, 0xFF])
  }

  predicate ZeroEarly(b: seq<Byte>) {
    exists i :: 0 <= i < |b| && i < 8192 && b[i] == 0
  }

  /** and any other as UTF-8, behind EF BB BF or from the first byte on; without a mark it is refused if a
      zero is among the first 8192 bytes. */
  lemma {:induction false} Utf8IsRead(b: seq<Byte>)
    requires !Begins(b, [0xFF, 0xFE]) && !Begins(b, [0xFE, 0xFF])
    ensures var bom := Begins(b, [0xEF, 0xBB, 0xBF]);
      var body := if bom then b[3..] else b;
      RawText(b) ==
      if !bom && ZeroEarly(b) then Err(Binary)
      else if DecodeUtf8(body).Ok? then Ok((Utf8(bom), DecodeUtf8(body).value))
      else Err(InvalidUtf8(DecodeUtf8(body).error + if bom then 3 else 0))
  {
    MarksAre(b);
    assert LooksBinary(b) <==> ZeroEarly(b) by {
      var head := b[..Min(|b|, BINARY_SNIFF_BYTES)];
      if LooksBinary(b) {
        var i :| 0 <= i < |head| && head[i] == 0;
        assert b[i] == 0;
      }
      if ZeroEarly(b) {
        var i :| 0 <= i < |b| && i < 8192 && b[i] == 0;
        assert head[i] == 0;
      }
    }
  }

  lemma {:induction false} UnitsWritten(u: seq<Unit>, little: bool, k: nat)
    requires k < |u|
    ensures UnitBytes(u, little)[2 * k] == if little then u[k] % 256 else u[k] / 256
    ensures UnitBytes(u, little)[2 * k + 1] == if little then u[k] / 256 else u[k] % 256
    decreases k
  {
    if k > 0 {
      UnitsWritten(u[1..], little, k - 1);
      var b := UnitBytes(u[1..], little);
      assert UnitBytes(u, little)[2 * k] == b[2 * (k - 1)] && UnitBytes(u, little)[2 * k + 1] == b[2 * (k - 1) + 1];
    }
  }

  lemma {:induction false} StoredUnits(u: seq<Unit>, little: bool, mark: seq<Byte>, b: seq<Byte>)
    requires |mark| == 2 && b == mark + UnitBytes(u, little)
    ensures if little then UnitsAt(b, u, 0, 1) else UnitsAt(b, u, 1, 0)
  {
    forall k | 0 <= k < |u|
      ensures u[k] == if little then TwoBytes(b[2 + 2 * k], b[2 + 2 * k + 1]) else TwoBytes(b[2 + 2 * k + 1], b[2 + 2 * k])
    {
      UnitsWritten(u, little, k);
      assert b[2 + 2 * k] == UnitBytes(u, little)[2 * k] && b[2 + 2 * k + 1] == UnitBytes(u, little)[2 * k + 1];
    }
  }

  /** The bytes of a file in an encoding, given the text with its terminators. */
  predicate IsFileOf(b: seq<Byte>, encoding: Encoding, joined: Text) {
    match encoding
    case Utf8(true) => Begins(b, [0xEF, 0xBB, 0xBF]) && b[3..] == EncodeUtf8(joined)
    case Utf8(false) => b == EncodeUtf8(joined)
    case Utf16Le => Begins(b, [0xFF, 0xFE]) && UnitsAt(b, EncodeUtf16(joined), 0, 1)
    case Utf16Be => Begins(b, [0xFE, 0xFF]) && UnitsAt(b, EncodeUtf16(joined), 1, 0)
  }

  /** What a save writes: the mark of its encoding and the lines with their terminators behind it. */
  lemma {:induction false} EncodedIsFile(text: Text, format: TextFormat, ops: seq<DiffOp>)
    requires DiffFor(text, format, ops)
    ensures IsFileOf(Encoded(text, format, ops), format.encoding, Join(OutputLines(text, format, ops)))
  {
    StoredIsFile(format.encoding, Join(OutputLines(text, format, ops)));
  }

  lemma {:induction false} StoredIsFile(encoding: Encoding, joined: Text)
    ensures IsFileOf(Store(encoding, joined), encoding, joined)
  {
    var b := Store(encoding, joined);
    MarksAre(b);
    match encoding
    case Utf8(bom) =>
      if bom {
        assert BOM8 <= b && b[3..] == EncodeUtf8(joined);
      } else {
        assert [] + EncodeUtf8(joined) == EncodeUtf8(joined);
      }
    case Utf16Le => StoredUnits(EncodeUtf16(joined), true, BOM16LE, b);
    case Utf16Be => StoredUnits(EncodeUtf16(joined), false, BOM16BE, b);
  }

  // ---------- line endings ----------

  /** A line ends with 10, with 13 and 10, or with 13 alone; where it ends for the editor, with 10. */
  lemma {:induction false} EndingsAre(l: Line)
    ensures LineText(l) == l.content +
      if l.ending == None then [] else if l.ending == Some(Lf) then [10] else if l.ending == Some(CrLf) then [13, 10] else [13]
    ensures NormalText(l) == l.content + if l.ending == None then [] else [10]
  {
  }

  /** What an editor holds of a raw text is fixed by this: 13 followed by 10 is one 10, a lone 13 is one too,
      other characters stay, and pieces can be read apart unless the cut is between 13 and 10. */
  lemma {:induction false} NormaliseIsFixed(a: Text, b: Text)
    ensures 13 !in Normalise(a)
    ensures 13 !in a ==> Normalise(a) == a
    ensures Normalise([13, 10]) == [10] && Normalise([13]) == [10]
    ensures (a != [] && a[|a| - 1] == 13 && b != [] && b[0] == 10) || Normalise(a + b) == Normalise(a) + Normalise(b)
  {
    NormaliseHasNoCr(a);
    if 13 !in a {
      NormalisePlain(a, []);
      assert a + [] == a;
    }
    assert [13, 10][2..] == [] && [13][1..] == [];
    if !(a != [] && a[|a| - 1] == 13 && b != [] && b[0] == 10) {
      NormaliseApart(a, b);
    }
  }

  /** How many characters the first of the normalised ones stands for. */
  function Taken(a: Text): (n: nat)
    requires a != []
    ensures 1 <= n <= |a|
  {
    if a[0] == 13 && |a| > 1 && a[1] == 10 then 2 else 1
  }

  lemma {:induction false} NormaliseStep(a: Text)
    requires a != []
    ensures Normalise(a) == [if a[0] == 13 then 10 else a[0]] + Normalise(a[Taken(a)..])
  {
  }

  lemma {:induction false} NormaliseApart(a: Text, b: Text)
    requires !(a != [] && a[|a| - 1] == 13 && b != [] && b[0] == 10)
    ensures Normalise(a + b) == Normalise(a) + Normalise(b)
    decreases |a|
  {
    if a == [] {
      assert a + b == b;
    } else {
      var n := Taken(a);
      assert Taken(a + b) == n by {
        assert |a| == 1 && b != [] ==> (a + b)[1] == b[0];
      }
      assert (a + b)[n..] == a[n..] + b;
      NormaliseStep(a);
      NormaliseStep(a + b);
      NormaliseApart(a[n..], b);
      Reassociate([if a[0] == 13 then 10 else a[0]], Normalise(a[n..]), Normalise(b));
    }
  }

  /** The text of a file is that of its raw text, and its encoding is the one that was read. */
  lemma {:induction false} DecodedIsRead(b: seq<Byte>, defaultEol: LineEnding)
    ensures Decode(b, defaultEol).Ok? <==> RawText(b).Ok?
    ensures RawText(b).Ok? ==>
      Decode(b, defaultEol).value.text == Normalise(RawText(b).value.1) &&
      Decode(b, defaultEol).value.format.encoding == RawText(b).value.0
    ensures RawText(b).Err? ==> Decode(b, defaultEol) == Err(RawText(b).error)
  {
    if RawText(b).Ok? {
      var raw := RawText(b).value.1;
      NormalisedLines(raw, 0);
      assert raw[0..] == raw;
    }
  }

  /** No ending is recorded that another of at least the same count comes before, and a file is mixed
      exactly when two lines end differently. */
  lemma {:induction false} EndingIsPreferred(lines: seq<Line>, defaultEol: LineEnding)
    ensures var (eol, mixed) := Classified(lines, defaultEol);
      (eol == CrLf && Count(lines, CrLf) > 0 ==> Count(lines, Lf) < Count(lines, CrLf)) &&
      (eol == Cr && Count(lines, Cr) > 0 ==> Count(lines, Lf) < Count(lines, Cr) && Count(lines, CrLf) < Count(lines, Cr)) &&
      (Count(lines, eol) == 0 ==> eol == defaultEol && !mixed) &&
      (mixed <==> exists i, j ::
        0 <= i < |lines| && 0 <= j < |lines| && lines[i].ending.Some? && lines[j].ending.Some? && lines[i].ending != lines[j].ending)
  {
    CountedEndings(lines, Lf);
    CountedEndings(lines, CrLf);
    CountedEndings(lines, Cr);
    var (eol, mixed) := Classified(lines, defaultEol);
    if mixed {
      var one := eol;
      var two := if eol != Lf && Count(lines, Lf) > 0 then Lf else if eol != CrLf && Count(lines, CrLf) > 0 then CrLf else Cr;
      CountedEndings(lines, one);
      CountedEndings(lines, two);
      var i :| 0 <= i < |lines| && lines[i].ending == Some(one);
      var j :| 0 <= j < |lines| && lines[j].ending == Some(two);
      assert lines[i].ending != lines[j].ending;
    } else if i, j :| 0 <= i < |lines| && 0 <= j < |lines| && lines[i].ending.Some? && lines[j].ending.Some? && lines[i].ending != lines[j].ending {
      OneKind(lines, defaultEol, i);
      OneKind(lines, defaultEol, j);
      assert false;
    }
  }

  function EndingsOf(lines: seq<Line>): (r: seq<Option<LineEnding>>)
    ensures |r| == |lines|
  {
    seq(|lines|, i requires 0 <= i < |lines| => lines[i].ending)
  }

  /** A count is how often an ending occurs. */
  lemma {:induction false} CountIsMultiplicity(lines: seq<Line>, e: LineEnding)
    ensures Count(lines, e) == multiset(EndingsOf(lines))[Some(e)]
  {
    if lines != [] {
      var init := lines[..|lines| - 1];
      CountIsMultiplicity(init, e);
      assert EndingsOf(lines) == EndingsOf(init) + [lines[|lines| - 1].ending];
    }
  }

  /** A file's format records its preferred ending, and the lines themselves if they end differently. */
  lemma {:induction false} FormatIsRead(b: seq<Byte>, defaultEol: LineEnding)
    requires Decode(b, defaultEol).Ok?
    ensures var lines := LinesOf(RawText(b).value.1);
      var format := Decode(b, defaultEol).value.format;
      format.eol == Classified(lines, defaultEol).0 &&
      format.mixed == if Classified(lines, defaultEol).1 then Some(lines) else None
  {
  }

  // ---------- lines written ----------

  /** The matched lines of an edit script are those of its runs. */
  lemma {:induction false} PairsExactly(ops: seq<DiffOp>, p: Pair)
    ensures p in Pairs(ops) <==> exists k :: 0 <= k < |ops| && InRun(ops[k], p)
  {
    if ops != [] {
      var init, last := ops[..|ops| - 1], ops[|ops| - 1];
      PairsExactly(init, p);
      assert forall k :: 0 <= k < |init| ==> init[k] == ops[k];
      assert last.Equal? ==> (p in Run(last.oldIndex, last.newIndex, last.len) <==> InRun(last, p)) by {
        if InRun(last, p) {
          assert Run(last.oldIndex, last.newIndex, last.len)[p.before - last.oldIndex] == p;
        }
      }
    }
  }

  predicate InRun(op: DiffOp, p: Pair) {
    op.Equal? && op.oldIndex <= p.before < op.oldIndex + op.len && p.after - op.newIndex == p.before - op.oldIndex
  }

  /** Line `j` of a text is kept from line `i` of the file it was read from. */
  predicate KeptFrom(ops: seq<DiffOp>, i: nat, j: nat) {
    exists k :: 0 <= k < |ops| && InRun(ops[k], Pair(i, j))
  }

  /** Every line is written as the text has it; the last one has a terminator only if the text ends with an LF. A line kept
      from a terminated one ends as that did; all others end as the format says. */
  lemma {:induction false} LinesAreWritten(text: Text, format: TextFormat, ops: seq<DiffOp>, j: nat)
    requires DiffFor(text, format, ops) && j < |NewLines(text)|
    ensures var l := OutputLines(text, format, ops)[j];
      l.content == NewLines(text)[j] &&
      (l.ending.None? <==> j == |NewLines(text)| - 1 && text[|text| - 1] != 10)
    ensures OutputLines(text, format, ops)[j].ending.Some? ==>
      EndsAsKept(format, ops, j, OutputLines(text, format, ops)[j].ending.value)
  {
    var base := UniformEndings(format.eol, |NewLines(text)|);
    assert text != [];
    if format.mixed.Some? {
      var original := format.mixed.value;
      EndingsKept(base, original, Pairs(ops), Contents(original), NewLines(text));
      KeptEnding(format, ops, base, Overlay(base, original, Pairs(ops)), j);
    }
  }

  predicate EndsAsKept(format: TextFormat, ops: seq<DiffOp>, j: nat, ending: LineEnding) {
    (forall i :: format.mixed.Some? && 0 <= i < |format.mixed.value| && KeptFrom(ops, i, j) && format.mixed.value[i].ending.Some? ==>
      ending == format.mixed.value[i].ending.value) &&
    ((forall i :: format.mixed.Some? && 0 <= i < |format.mixed.value| && KeptFrom(ops, i, j) ==> format.mixed.value[i].ending.None?) ==>
      ending == format.eol)
  }

  lemma {:induction false} KeptEnding(format: TextFormat, ops: seq<DiffOp>, base: seq<LineEnding>, r: seq<LineEnding>, j: nat)
    requires format.mixed.Some? && j < |base| == |r| && base == UniformEndings(format.eol, |base|)
    requires InRange(format.mixed.value, |base|, Pairs(ops))
    requires forall i :: 0 <= i < |Pairs(ops)| ==>
      r[Pairs(ops)[i].after] ==
      if format.mixed.value[Pairs(ops)[i].before].ending.Some? then format.mixed.value[Pairs(ops)[i].before].ending.value
      else base[Pairs(ops)[i].after]
    requires (forall i :: 0 <= i < |Pairs(ops)| ==> Pairs(ops)[i].after != j) ==> r[j] == base[j]
    ensures EndsAsKept(format, ops, j, r[j])
  {
    var m := Pairs(ops);
    forall i | 0 <= i < |format.mixed.value|
      ensures KeptFrom(ops, i, j) <==> Pair(i, j) in m
    {
      PairsExactly(ops, Pair(i, j));
    }
    if k :| 0 <= k < |m| && m[k].after == j {
      assert Pair(m[k].before, j) == m[k];
      assert KeptFrom(ops, m[k].before, j);
    }
  }
}
