/**
 * Lines and line endings: splitting raw text at LF, CRLF and CR, putting it back together, and the
 * LF-normalised form a document is edited in.
 */
module Lines {
  import opened Outcome
  import opened Unicode

  const LF: Scalar := 10
  const CR: Scalar := 13

  datatype LineEnding = Lf | CrLf | Cr

  function EndingText(e: LineEnding): (t: Text)
    ensures t != []
  {
    match e
    case Lf => [LF]
    case CrLf => [CR, LF]
    case Cr => [CR]
  }

  /** A line without its terminator, and the terminator, which only the final line may lack. */
  datatype Line = Line(content: Text, ending: Option<LineEnding>)

  predicate IsBreak(c: Scalar) {
    c == LF || c == CR
  }

  /** The first break at or after `i`, or the end. */
  function NextBreak(raw: Text, i: nat): (n: nat)
    requires i <= |raw|
    ensures i <= n <= |raw|
    ensures n < |raw| ==> IsBreak(raw[n])
    ensures forall k :: i <= k < n ==> !IsBreak(raw[k])
    decreases |raw| - i
  {
    if i == |raw| || IsBreak(raw[i]) then i else NextBreak(raw, i + 1)
  }

  /** The terminator that begins at a break: CR and LF together are one. */
  function EndingAt(raw: Text, n: nat): (e: LineEnding)
    requires n < |raw| && IsBreak(raw[n])
    ensures n + |EndingText(e)| <= |raw|
  {
    if raw[n] == LF then Lf else if n + 1 < |raw| && raw[n + 1] == LF then CrLf else Cr
  }

  /** The terminated line that starts at `start`, and where the next one does. */
  function LineAt(raw: Text, start: nat): (l: Line)
    requires start <= |raw| && NextBreak(raw, start) < |raw|
    ensures l.ending.Some?
  {
    var n := NextBreak(raw, start);
    Line(raw[start..n], Some(EndingAt(raw, n)))
  }

  function NextStart(raw: Text, start: nat): (w: nat)
    requires start <= |raw| && NextBreak(raw, start) < |raw|
    ensures start < w <= |raw|
  {
    var n := NextBreak(raw, start);
    n + |EndingText(EndingAt(raw, n))|
  }

  /** The lines of `raw` from a line start onwards. */
  function LinesFrom(raw: Text, start: nat): (ls: seq<Line>)
    requires start <= |raw|
    decreases |raw| - start
  {
    if start == |raw| then []
    else if NextBreak(raw, start) == |raw| then [Line(raw[start..], None)]
    else [LineAt(raw, start)] + LinesFrom(raw, NextStart(raw, start))
  }

  function LinesOf(raw: Text): (ls: seq<Line>) {
    LinesFrom(raw, 0)
  }

  function LineText(l: Line): Text {
    l.content + (if l.ending.Some? then EndingText(l.ending.value) else [])
  }

  /** The raw text lines came from. */
  function Join(ls: seq<Line>): (raw: Text) {
    if ls == [] then [] else LineText(ls[0]) + Join(ls[1..])
  }

  function Contents(ls: seq<Line>): (c: seq<Text>)
    ensures |c| == |ls|
  {
    seq(|ls|, i requires 0 <= i < |ls| => ls[i].content)
  }

  function NormalText(l: Line): Text {
    l.content + (if l.ending.Some? then [LF] else [])
  }

  /** The text an editor holds: every terminator is an LF. */
  function Normalised(ls: seq<Line>): (t: Text) {
    if ls == [] then [] else NormalText(ls[0]) + Normalised(ls[1..])
  }

  /** The same, straight from the raw text. */
  function Normalise(raw: Text): (t: Text)
    ensures |t| <= |raw|
  {
    if raw == [] then []
    else if raw[0] == CR then [LF] + Normalise(if |raw| > 1 && raw[1] == LF then raw[2..] else raw[1..])
    else [raw[0]] + Normalise(raw[1..])
  }

  /** Lines as an LF-separated text yields them: no LF inside a line, and only a non-empty final line
      may lack its terminator. */
  predicate Closed(ls: seq<Line>) {
    (forall i :: 0 <= i < |ls| ==> LF !in ls[i].content) &&
    (forall i :: 0 <= i < |ls| && ls[i].ending.None? ==> i == |ls| - 1 && ls[i].content != [])
  }

  predicate CrFree(ls: seq<Line>) {
    forall i :: 0 <= i < |ls| ==> CR !in ls[i].content
  }

  /** A CR-ended line directly followed by an empty line ended by LF: on disk the two terminators
      read as one CRLF. */
  predicate Fuses(ls: seq<Line>, i: nat)
    requires i < |ls|
  {
    ls[i].ending == Some(Cr) && i + 1 < |ls| && ls[i + 1] == Line([], Some(Lf))
  }

  predicate Fusing(ls: seq<Line>) {
    exists i :: 0 <= i < |ls| && Fuses(ls, i)
  }

  lemma {:induction false} ClosedTail(ls: seq<Line>)
    requires ls != [] && Closed(ls)
    ensures Closed(ls[1..])
    ensures CrFree(ls) ==> CrFree(ls[1..])
    ensures ls[0].ending.None? ==> |ls| == 1 && ls[0].content != []
  {
  }

  lemma {:induction false} FusingUnfold(ls: seq<Line>)
    requires ls != []
    ensures Fusing(ls) <==> Fuses(ls, 0) || Fusing(ls[1..])
  {
    if Fusing(ls) && !Fuses(ls, 0) {
      var i :| 0 <= i < |ls| && Fuses(ls, i);
      assert Fuses(ls[1..], i - 1);
    }
    if Fusing(ls[1..]) {
      var i :| 0 <= i < |ls[1..]| && Fuses(ls[1..], i);
      assert Fuses(ls, i + 1);
    }
  }

  // ---------- splitting loses nothing ----------

  lemma {:induction false} JoinCons(l: Line, tail: seq<Line>)
    ensures Join([l] + tail) == LineText(l) + Join(tail)
    ensures Normalised([l] + tail) == NormalText(l) + Normalised(tail)
  {
    assert ([l] + tail)[1..] == tail;
  }

  lemma {:induction false} TerminatedPiece(raw: Text, start: nat, n: nat)
    requires start <= n < |raw| && IsBreak(raw[n]) && forall k :: start <= k < n ==> !IsBreak(raw[k])
    ensures var e := EndingAt(raw, n); var w := n + |EndingText(e)|;
      raw[start..] == raw[start..n] + EndingText(e) + raw[w..] && (e == Cr ==> w == |raw| || raw[w] != LF)
    ensures LF !in raw[start..n] && CR !in raw[start..n]
  {
  }

  lemma {:induction false} FirstLine(raw: Text, start: nat)
    requires start <= |raw| && NextBreak(raw, start) < |raw|
    ensures var l, w := LineAt(raw, start), NextStart(raw, start);
      LF !in l.content && CR !in l.content && raw[start..] == LineText(l) + raw[w..] &&
      (l.ending == Some(Cr) ==> w == |raw| || raw[w] != LF)
  {
    TerminatedPiece(raw, start, NextBreak(raw, start));
  }

  lemma {:induction false} JoinOfLines(raw: Text, start: nat)
    requires start <= |raw|
    ensures Join(LinesFrom(raw, start)) == raw[start..]
    decreases |raw| - start
  {
    if NextBreak(raw, start) < |raw| {
      var w := NextStart(raw, start);
      FirstLine(raw, start);
      JoinOfLines(raw, w);
      JoinCons(LineAt(raw, start), LinesFrom(raw, w));
    }
  }

  lemma {:induction false} Prepend(l: Line, ls: seq<Line>)
    requires LF !in l.content && CR !in l.content && l.ending.Some? && Closed(ls) && CrFree(ls) && !Fusing(ls)
    requires l.ending == Some(Cr) ==> Join(ls) == [] || Join(ls)[0] != LF
    ensures Closed([l] + ls) && CrFree([l] + ls) && !Fusing([l] + ls)
  {
    var all := [l] + ls;
    assert all[1..] == ls;
    forall i | 0 <= i < |all|
      ensures LF !in all[i].content && CR !in all[i].content
      ensures all[i].ending.None? ==> i == |all| - 1 && all[i].content != []
    {
      if 0 < i {
        assert all[i] == ls[i - 1];
      }
    }
    FusingUnfold(all);
    JoinStartsWithLf(ls);
  }

  lemma {:induction false} LinesAreClosed(raw: Text, start: nat)
    requires start <= |raw|
    ensures var ls := LinesFrom(raw, start); Closed(ls) && CrFree(ls) && !Fusing(ls)
    decreases |raw| - start
  {
    if NextBreak(raw, start) < |raw| {
      var w := NextStart(raw, start);
      FirstLine(raw, start);
      LinesAreClosed(raw, w);
      JoinOfLines(raw, w);
      Prepend(LineAt(raw, start), LinesFrom(raw, w));
    }
  }

  lemma {:induction false} NormalisedLines(raw: Text, start: nat)
    requires start <= |raw|
    ensures Normalised(LinesFrom(raw, start)) == Normalise(raw[start..])
    decreases |raw| - start
  {
    if NextBreak(raw, start) < |raw| {
      var l, w := LineAt(raw, start), NextStart(raw, start);
      FirstLine(raw, start);
      NormalisedLines(raw, w);
      NormaliseFirst(l, raw[w..]);
      JoinCons(l, LinesFrom(raw, w));
    } else {
      NormalisePlain(raw[start..], []);
      assert raw[start..] + [] == raw[start..];
    }
  }

  lemma {:induction false} NormalisePlain(plain: Text, rest: Text)
    requires CR !in plain
    ensures Normalise(plain + rest) == plain + Normalise(rest)
  {
    if plain != [] {
      NormalisePlain(plain[1..], rest);
      assert (plain + rest)[1..] == plain[1..] + rest;
      assert plain == [plain[0]] + plain[1..];
    } else {
      assert plain + rest == rest;
    }
  }

  // ---------- when lines survive being joined and split again ----------

  lemma {:induction false} NormaliseEnding(e: LineEnding, rest: Text)
    ensures Normalise(EndingText(e) + rest) ==
      if e == Cr && rest != [] && rest[0] == LF then Normalise(rest) else [LF] + Normalise(rest)
  {
    var after := EndingText(e) + rest;
    assert after[|EndingText(e)|..] == rest;
    if e == Cr && rest != [] && rest[0] == LF {
      assert after[2..] == rest[1..];
    }
  }

  /** One line read back in front of what follows it. */
  lemma {:induction false} NormaliseFirst(l: Line, rest: Text)
    requires CR !in l.content
    ensures Normalise(LineText(l) + rest) ==
      if l.ending == Some(Cr) && rest != [] && rest[0] == LF then l.content + Normalise(rest)
      else NormalText(l) + Normalise(rest)
  {
    if l.ending.None? {
      assert LineText(l) == l.content == NormalText(l);
      NormalisePlain(l.content, rest);
    } else {
      var e := l.ending.value;
      assert LineText(l) + rest == l.content + (EndingText(e) + rest);
      NormalisePlain(l.content, EndingText(e) + rest);
      NormaliseEnding(e, rest);
      assert NormalText(l) + Normalise(rest) == l.content + ([LF] + Normalise(rest));
    }
  }

  /** What reading joined lines back yields: their normalised text, except that every fused pair of
      terminators costs one line. */
  lemma {:induction false} NormaliseJoin(ls: seq<Line>)
    requires Closed(ls) && CrFree(ls)
    ensures |Normalise(Join(ls))| <= |Normalised(ls)|
    ensures Normalise(Join(ls)) == Normalised(ls) <==> !Fusing(ls)
  {
    if ls != [] {
      ClosedTail(ls);
      NormaliseJoin(ls[1..]);
      FusingUnfold(ls);
      JoinStartsWithLf(ls[1..]);
      NormaliseFirst(ls[0], Join(ls[1..]));
      SamePrefix(NormalText(ls[0]), Normalise(Join(ls[1..])), Normalised(ls[1..]));
    }
  }

  lemma {:induction false} SamePrefix(p: Text, x: Text, y: Text)
    ensures p + x == p + y <==> x == y
  {
    assert (p + x)[|p|..] == x && (p + y)[|p|..] == y;
  }

  lemma {:induction false} JoinStartsWithLf(ls: seq<Line>)
    ensures (ls != [] && ls[0] == Line([], Some(Lf))) ==> Join(ls) != [] && Join(ls)[0] == LF
    ensures Closed(ls) && Join(ls) != [] && Join(ls)[0] == LF ==> ls[0] == Line([], Some(Lf))
  {
  }
}
