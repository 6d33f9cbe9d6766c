/**
 * The encodings a document can be stored in: UTF-8 (section 3 of RFC 3629) and UTF-16
 * (section 2 of RFC 2781), in both directions.
 */
module Unicode {
  import opened Outcome

  type Byte = b: int | 0 <= b < 0x100

  /** A UTF-16 code unit. */
  type Unit = u: int | 0 <= u < 0x1_0000

  /** A Unicode scalar value: a code point that is not a surrogate. */
  type Scalar = c: int | 0 <= c < 0xD800 || 0xE000 <= c < 0x11_0000

  /** Text is what a Rust string holds: any sequence of scalar values. */
  type Text = seq<Scalar>

  // ---------- UTF-8 ----------

  function Utf8Char(c: Scalar): (b: seq<Byte>)
    ensures 1 <= |b| <= 4
  {
    if c < 0x80 then [c]
    else if c < 0x800 then [0xC0 + c / 0x40, 0x80 + c % 0x40]
    else if c < 0x1_0000 then [0xE0 + c / 0x1000, 0x80 + c / 0x40 % 0x40, 0x80 + c % 0x40]
    else [0xF0 + c / 0x4_0000, 0x80 + c / 0x1000 % 0x40, 0x80 + c / 0x40 % 0x40, 0x80 + c % 0x40]
  }

  function EncodeUtf8(t: Text): (b: seq<Byte>) {
    if t == [] then [] else Utf8Char(t[0]) + EncodeUtf8(t[1..])
  }

  predicate Continuation(b: Byte) {
    0x80 <= b < 0xC0
  }

  /** What the second byte of a multi-byte sequence may be, given the first: overlong forms,
      surrogates and values past U+10FFFF are shut out here. */
  predicate SecondByte(first: Byte, second: Byte) {
    Continuation(second) &&
    (first == 0xE0 ==> 0xA0 <= second) &&
    (first == 0xED ==> second < 0xA0) &&
    (first == 0xF0 ==> 0x90 <= second) &&
    (first == 0xF4 ==> second < 0x90)
  }

  datatype Step = Step(scalar: Scalar, width: nat)

  /** The value whose base-64 digits, most significant first, are given. */
  function Digits(a: int, b: int, c: int, d: int): int {
    a * 0x4_0000 + b * 0x1000 + c * 0x40 + d
  }

  /** The scalar value at the front of `b`, and the bytes it takes. */
  function FirstUtf8(b: seq<Byte>): (r: Option<Step>)
    requires b != []
    ensures r.Some? ==> 1 <= r.value.width <= |b|
  {
    var x: int := b[0];
    if x < 0x80 then Some(Step(x, 1))
    else if |b| >= 2 && 0xC2 <= x < 0xE0 && SecondByte(x, b[1]) then
      Some(Step(Digits(0, 0, x - 0xC0, b[1] as int - 0x80), 2))
    else if |b| >= 3 && 0xE0 <= x < 0xF0 && SecondByte(x, b[1]) && Continuation(b[2]) then
      Some(Step(Digits(0, x - 0xE0, b[1] as int - 0x80, b[2] as int - 0x80), 3))
    else if |b| >= 4 && 0xF0 <= x < 0xF5 && SecondByte(x, b[1]) && Continuation(b[2]) && Continuation(b[3]) then
      Some(Step(Digits(x - 0xF0, b[1] as int - 0x80, b[2] as int - 0x80, b[3] as int - 0x80), 4))
    else None
  }

  /** Strict decoding; an error carries the number of bytes that were valid. */
  function DecodeUtf8(b: seq<Byte>): (r: Result<Text, nat>)
    ensures r.Err? ==> r.error < |b|
  {
    if b == [] then Ok([])
    else
      match FirstUtf8(b)
      case None => Err(0)
      case Some(s) =>
        match DecodeUtf8(b[s.width..])
        case Err(k) => Err(s.width + k)
        case Ok(t) => Ok([s.scalar] + t)
  }

  /** Base-64 digits determine a value and are determined by it. */
  lemma {:induction false} DigitsOf(v: int)
    requires 0 <= v < 0x100_0000
    ensures Digits(v / 0x4_0000, v / 0x1000 % 0x40, v / 0x40 % 0x40, v % 0x40) == v
  {
    assert v / 0x1000 == v / 0x40 / 0x40 && v / 0x4_0000 == v / 0x40 / 0x40 / 0x40;
  }

  lemma {:induction false} OfDigits(a: int, b: int, c: int, d: int)
    requires 0 <= a < 0x40 && 0 <= b < 0x40 && 0 <= c < 0x40 && 0 <= d < 0x40
    ensures var v := Digits(a, b, c, d);
      v / 0x4_0000 == a && v / 0x1000 == a * 0x40 + b && v / 0x1000 % 0x40 == b &&
      v / 0x40 % 0x40 == c && v % 0x40 == d && v / 0x40 == a * 0x1000 + b * 0x40 + c
  {
    var v := Digits(a, b, c, d);
    assert v == ((a * 0x40 + b) * 0x40 + c) * 0x40 + d;
    assert v / 0x40 == (a * 0x40 + b) * 0x40 + c;
    assert v / 0x1000 == v / 0x40 / 0x40 && v / 0x4_0000 == v / 0x40 / 0x40 / 0x40;
  }

  lemma {:induction false} FirstUtf8OfChar(c: Scalar, rest: seq<Byte>)
    ensures FirstUtf8(Utf8Char(c) + rest) == Some(Step(c, |Utf8Char(c)|))
  {
    if c < 0x80 {
    } else if c < 0x800 {
      TwoBytes(c, rest);
    } else if c < 0x1_0000 {
      ThreeBytes(c, rest);
    } else {
      FourBytes(c, rest);
    }
  }

  lemma {:induction false} TwoBytes(c: Scalar, rest: seq<Byte>)
    requires 0x80 <= c < 0x800
    ensures FirstUtf8(Utf8Char(c) + rest) == Some(Step(c, 2))
  {
    DigitsOf(c);
    var b := Utf8Char(c) + rest;
    assert b[0] == 0xC0 + c / 0x40 && b[1] == 0x80 + c % 0x40;
  }

  lemma {:induction false} ThreeBytes(c: Scalar, rest: seq<Byte>)
    requires 0x800 <= c < 0x1_0000
    ensures FirstUtf8(Utf8Char(c) + rest) == Some(Step(c, 3))
  {
    DigitsOf(c);
    var b := Utf8Char(c) + rest;
    assert b[0] == 0xE0 + c / 0x1000 && b[1] == 0x80 + c / 0x40 % 0x40 && b[2] == 0x80 + c % 0x40;
  }

  lemma {:induction false} FourBytes(c: Scalar, rest: seq<Byte>)
    requires 0x1_0000 <= c
    ensures FirstUtf8(Utf8Char(c) + rest) == Some(Step(c, 4))
  {
    DigitsOf(c);
    var b := Utf8Char(c) + rest;
    assert b[0] == 0xF0 + c / 0x4_0000 && b[1] == 0x80 + c / 0x1000 % 0x40;
    assert b[2] == 0x80 + c / 0x40 % 0x40 && b[3] == 0x80 + c % 0x40;
  }

  lemma {:induction false} FirstUtf8Sound(b: seq<Byte>)
    requires b != [] && FirstUtf8(b).Some?
    ensures Utf8Char(FirstUtf8(b).value.scalar) == b[..FirstUtf8(b).value.width]
  {
    var x, w := b[0] as int, FirstUtf8(b).value.width;
    if w == 2 {
      OfDigits(0, 0, x - 0xC0, b[1] as int - 0x80);
    } else if w == 3 {
      OfDigits(0, x - 0xE0, b[1] as int - 0x80, b[2] as int - 0x80);
    } else if w == 4 {
      OfDigits(x - 0xF0, b[1] as int - 0x80, b[2] as int - 0x80, b[3] as int - 0x80);
    }
  }

  /** Reading the front of a byte string does not depend on what follows it. */
  lemma {:induction false} FirstUtf8Prefix(b: seq<Byte>, k: nat)
    requires 0 < k <= |b| && FirstUtf8(b[..k]).Some?
    ensures FirstUtf8(b) == FirstUtf8(b[..k])
  {
  }

  lemma {:induction false} DecodeOfEncodeUtf8(t: Text)
    ensures DecodeUtf8(EncodeUtf8(t)) == Ok(t)
  {
    if t != [] {
      FirstUtf8OfChar(t[0], EncodeUtf8(t[1..]));
      DecodeOfEncodeUtf8(t[1..]);
      assert (Utf8Char(t[0]) + EncodeUtf8(t[1..]))[|Utf8Char(t[0])|..] == EncodeUtf8(t[1..]);
      assert t == [t[0]] + t[1..];
    }
  }

  lemma {:induction false} EncodeOfDecodeUtf8(b: seq<Byte>)
    requires DecodeUtf8(b).Ok?
    ensures EncodeUtf8(DecodeUtf8(b).value) == b
  {
    if b != [] {
      var s := FirstUtf8(b).value;
      DecodedFirst(b);
      EncodeOfDecodeUtf8(b[s.width..]);
      EncodeFirst(s.scalar, DecodeUtf8(b[s.width..]).value);
      FirstUtf8Sound(b);
      assert b == b[..s.width] + b[s.width..];
    }
  }

  lemma {:induction false} DecodedFirst(b: seq<Byte>)
    requires b != [] && DecodeUtf8(b).Ok?
    ensures FirstUtf8(b).Some?
    ensures var s := FirstUtf8(b).value;
      DecodeUtf8(b[s.width..]).Ok? && DecodeUtf8(b).value == [s.scalar] + DecodeUtf8(b[s.width..]).value
  {
  }

  lemma {:induction false} EncodeFirst(c: Scalar, t: Text)
    ensures EncodeUtf8([c] + t) == Utf8Char(c) + EncodeUtf8(t)
  {
    assert ([c] + t)[1..] == t;
  }

  lemma {:induction false} CutTwice<T>(s: seq<T>, i: nat, j: nat)
    requires i <= j <= |s|
    ensures s[..j][i..] == s[i..][..j - i]
  {
  }

  /** The reported offset is the longest prefix that is valid by itself. */
  lemma {:induction false} ErrorOffsetIsLongestValidPrefix(b: seq<Byte>, k: nat)
    requires DecodeUtf8(b).Err? && k <= |b|
    ensures DecodeUtf8(b[..DecodeUtf8(b).error]).Ok?
    ensures DecodeUtf8(b[..k]).Ok? ==> k <= DecodeUtf8(b).error
  {
    if FirstUtf8(b).None? {
      if 0 < k && FirstUtf8(b[..k]).Some? {
        FirstUtf8Prefix(b, k);
      }
    } else {
      var w, e := FirstUtf8(b).value.width, DecodeUtf8(b).error;
      FirstUtf8OfPrefix(b, e);
      CutTwice(b, w, e);
      ErrorOffsetIsLongestValidPrefix(b[w..], if k < w then 0 else k - w);
      if w <= k {
        FirstUtf8OfPrefix(b, k);
        CutTwice(b, w, k);
      }
    }
  }

  lemma {:induction false} FirstUtf8OfPrefix(b: seq<Byte>, k: nat)
    requires b != [] && FirstUtf8(b).Some? && FirstUtf8(b).value.width <= k <= |b|
    ensures FirstUtf8(b[..k]) == FirstUtf8(b)
  {
  }

  // ---------- UTF-16 ----------

  function Utf16Char(c: Scalar): (u: seq<Unit>)
    ensures 1 <= |u| <= 2
  {
    if c < 0x1_0000 then [c]
    else [0xD800 + (c - 0x1_0000) / 0x400, 0xDC00 + (c - 0x1_0000) % 0x400]
  }

  function EncodeUtf16(t: Text): (u: seq<Unit>) {
    if t == [] then [] else Utf16Char(t[0]) + EncodeUtf16(t[1..])
  }

  predicate High(u: Unit) {
    0xD800 <= u < 0xDC00
  }

  predicate Low(u: Unit) {
    0xDC00 <= u < 0xE000
  }

  /** Strict decoding: an unpaired surrogate is refused. */
  function DecodeUtf16(u: seq<Unit>): (r: Option<Text>) {
    if u == [] then Some([])
    else if !High(u[0]) && !Low(u[0]) then
      match DecodeUtf16(u[1..])
      case None => None
      case Some(t) => Some([u[0]] + t)
    else if High(u[0]) && |u| >= 2 && Low(u[1]) then
      match DecodeUtf16(u[2..])
      case None => None
      case Some(t) => Some([0x1_0000 + (u[0] as int - 0xD800) * 0x400 + (u[1] as int - 0xDC00)] + t)
    else None
  }

  lemma {:induction false} DecodeOfEncodeUtf16(t: Text)
    ensures DecodeUtf16(EncodeUtf16(t)) == Some(t)
  {
    if t != [] {
      DecodeOfEncodeUtf16(t[1..]);
      assert (Utf16Char(t[0]) + EncodeUtf16(t[1..]))[|Utf16Char(t[0])|..] == EncodeUtf16(t[1..]);
      assert t == [t[0]] + t[1..];
    }
  }

  lemma {:induction false} EncodeOfDecodeUtf16(u: seq<Unit>)
    requires DecodeUtf16(u).Some?
    ensures EncodeUtf16(DecodeUtf16(u).value) == u
  {
    if u != [] {
      var t := DecodeUtf16(u).value;
      var w := if High(u[0]) then 2 else 1;
      EncodeOfDecodeUtf16(u[w..]);
      assert t[1..] == DecodeUtf16(u[w..]).value;
      assert u == u[..w] + u[w..];
    }
  }

  /** Code units as bytes, in either byte order. */
  function UnitBytes(u: seq<Unit>, little: bool): (b: seq<Byte>)
    ensures |b| == 2 * |u|
  {
    if u == [] then []
    else (if little then [u[0] % 0x100, u[0] / 0x100] else [u[0] / 0x100, u[0] % 0x100]) + UnitBytes(u[1..], little)
  }

  function BytesUnits(b: seq<Byte>, little: bool): (u: seq<Unit>)
    requires |b| % 2 == 0
    ensures 2 * |u| == |b|
  {
    if b == [] then []
    else [if little then b[0] as int + b[1] as int * 0x100 else b[0] as int * 0x100 + b[1] as int] + BytesUnits(b[2..], little)
  }

  lemma {:induction false} BytesUnitsOfUnitBytes(u: seq<Unit>, little: bool)
    ensures BytesUnits(UnitBytes(u, little), little) == u
  {
    if u != [] {
      BytesUnitsOfUnitBytes(u[1..], little);
      assert UnitBytes(u, little)[2..] == UnitBytes(u[1..], little);
    }
  }

  lemma {:induction false} UnitBytesOfBytesUnits(b: seq<Byte>, little: bool)
    requires |b| % 2 == 0
    ensures UnitBytes(BytesUnits(b, little), little) == b
  {
    if b != [] {
      UnitBytesOfBytesUnits(b[2..], little);
      assert BytesUnits(b, little)[1..] == BytesUnits(b[2..], little);
      assert b == b[..2] + b[2..];
    }
  }
}
