/** Lines and offsets are inverse up to stated limits, a request that is met puts both sides on one line,
    requests die out, and pending versions are drawn in time. */
module PreviewLaws {
  import opened Outcome
  import opened Preview

  // ---------- lines and offsets ----------

  /** Blocks as they are drawn: lines and tops ascend. */
  predicate Drawn(lines: seq<nat>, tops: seq<real>) {
    |lines| == |tops| > 0 &&
    (forall i, j :: 0 <= i < j < |lines| ==> lines[i] < lines[j]) &&
    (forall i, j :: 0 <= i < j < |tops| ==> tops[i] < tops[j])
  }

  /** The block a line belongs to. */
  predicate InBlock(lines: seq<nat>, line: nat, i: nat) {
    i < |lines| && lines[i] <= line && (i + 1 < |lines| ==> line < lines[i + 1])
  }

  predicate AtBlock(tops: seq<real>, offset: real, i: nat) {
    i < |tops| && tops[i] <= offset && (i + 1 < |tops| ==> offset < tops[i + 1])
  }

  lemma {:induction false} CountIsBlock(values: seq<real>, x: real, i: nat)
    requires i < |values| && (forall j, k :: 0 <= j < k < |values| ==> values[j] < values[k])
    requires values[i] <= x && (i + 1 < |values| ==> x < values[i + 1])
    ensures CountUpTo(values, |values|, x) == i + 1
  {
  }

  // ---------- within one block ----------

  lemma {:induction false} ShareIs(a: nat, b: nat)
    requires a < b
    ensures 0.0 <= Share(a, b) < 1.0 && Share(a, b) * b as real == a as real
  {
  }

  lemma {:induction false} Scaled(h: real, f: real)
    requires h > 0.0 && 0.0 <= f < 1.0
    ensures 0.0 <= h * f < h && (h * f) / h == f
  {
  }

  lemma {:induction false} StretchInside(top: real, next: real, a: nat, b: nat)
    requires top < next && a < b
    ensures top <= Stretch(top, next, Share(a, b)) < next
  {
    ShareIs(a, b);
    Scaled(next - top, Share(a, b));
  }

  lemma {:induction false} SmallerPart(p: real, x: real, q: real, y: real, b: real)
    requires b > 0.0 && p * b == x && q * b == y && x <= y
    ensures p <= q
  {
    assert p > q ==> (p - q) * b > 0.0;
  }

  lemma {:induction false} ShareAscends(a: nat, c: nat, b: nat)
    requires a <= c < b
    ensures Share(a, b) <= Share(c, b)
  {
    ShareIs(a, b);
    ShareIs(c, b);
    SmallerPart(Share(a, b), a as real, Share(c, b), c as real, b as real);
  }

  lemma {:induction false} StretchAscends(top: real, next: real, s: real, t: real)
    requires top < next && s <= t
    ensures Stretch(top, next, s) <= Stretch(top, next, t)
  {
    Ordered(next - top, s, t);
    Commute(next - top, t);
  }

  /** Through a block at least a point tall, the way back is the way there; a shorter one is shrunk. */
  lemma {:induction false} ThroughStretch(top: real, next: real, f: real)
    requires top < next && 0.0 <= f < 1.0
    ensures Through(Stretch(top, next, f), top, next) == if next - top >= 1.0 then f else (next - top) * f
  {
    var h := next - top;
    Scaled(h, f);
    assert Stretch(top, next, f) - top == h * f;
  }

  lemma {:induction false} WholeOf(f: real, a: nat, b: nat)
    requires 0.0 <= f <= 1.0 && f * b as real == a as real
    ensures WholeLines(f, b) == a
  {
  }

  lemma {:induction false} FloorOf(x: real, a: nat)
    ensures a as real <= x <==> a <= x.Floor
  {
  }

  lemma {:induction false} Shrunk(h: real, a: real)
    requires 0.0 < h < 1.0 && a > 0.0
    ensures h * a < a
  {
  }

  lemma {:induction false} WholeOfLess(h: real, f: real, a: nat, b: nat)
    requires 0.0 < h < 1.0 && 0.0 <= f < 1.0 && f * b as real == a as real && a > 0
    ensures 0.0 <= h * f <= 1.0 && WholeLines(h * f, b) < a
  {
    Scaled(h, f);
    LessInAll(h, f, a as real, b as real);
    FloorOf(h * f * b as real, a);
  }

  lemma {:induction false} LessInAll(h: real, f: real, a: real, b: real)
    requires 0.0 < h < 1.0 && f * b == a && a > 0.0
    ensures h * f * b < a
  {
    assert Times(h, Times(f, b)) == Times(h, a);
    Exchange(h, f, b);
    Shrunk(h, a);
  }

  function Times(a: real, b: real): real {
    a * b
  }

  lemma {:induction false} Exchange(h: real, f: real, b: real)
    ensures h * f * b == Times(h, Times(f, b))
  {
  }

  lemma {:induction false} BackAgain(top: real, next: real, a: nat, b: nat)
    requires top < next && a < b
    ensures WholeLines(Through(Stretch(top, next, Share(a, b)), top, next), b) == a <==> a == 0 || next - top >= 1.0
  {
    ShareIs(a, b);
    var f, h := Share(a, b), next - top;
    ThroughStretch(top, next, f);
    if h >= 1.0 {
      WholeOf(f, a, b);
    } else if a > 0 {
      WholeOfLess(h, f, a, b);
    } else {
      assert f * b as real == 0.0;
      assert f == 0.0;
      assert h * f == 0.0;
      WholeOf(0.0, 0, b);
    }
  }

  lemma {:induction false} Fraction(h: real, x: real)
    requires h >= 1.0 && 0.0 <= x < h
    ensures 0.0 <= x / h < 1.0 && x / h * h == x
  {
  }

  lemma {:induction false} Ordered(h: real, p: real, q: real)
    requires h > 0.0
    ensures h * p <= q * h <==> p <= q
  {
  }

  lemma {:induction false} WholeIsFloor(q: real, a: nat, b: nat)
    requires 0.0 <= q < 1.0 && b > 0
    ensures a as real <= q * b as real <==> a <= WholeLines(q, b)
    ensures WholeLines(q, b) < b
  {
    FloorOf(q * b as real, a);
    BelowWhole(q, b);
  }

  lemma {:induction false} BelowWhole(q: real, b: nat)
    requires 0.0 <= q < 1.0 && b > 0
    ensures WholeLines(q, b) < b
  {
    Below(q, b as real);
    FloorOf(q * b as real, b);
  }

  lemma {:induction false} Below(q: real, b: real)
    requires 0.0 <= q < 1.0 && b > 0.0
    ensures q * b < b
  {
  }

  lemma {:induction false} WithinBlock(top: real, next: real, a: nat, b: nat, offset: real)
    requires next - top >= 1.0 && a < b && top <= offset < next
    ensures Stretch(top, next, Share(a, b)) <= offset <==> a <= WholeLines(Through(offset, top, next), b)
    ensures WholeLines(Through(offset, top, next), b) < b
  {
    var h, x, p := next - top, offset - top, Share(a, b);
    Fraction(h, x);
    var q := x / h;
    assert Through(offset, top, next) == q;
    ShareIs(a, b);
    Ordered(h, p, q);
    Ordered(b as real, p, q);
    Commute(b as real, p);
    WholeIsFloor(q, a, b);
  }

  lemma {:induction false} Commute(x: real, y: real)
    ensures x * y == y * x
  {
  }

  // ---------- across blocks ----------

  lemma {:induction false} OffsetInBlock(lines: seq<nat>, tops: seq<real>, line: nat, i: nat)
    requires Drawn(lines, tops) && InBlock(lines, line, i)
    ensures OffsetForLine(lines, tops, line) == Some(
      if i + 1 == |lines| then tops[i] else Stretch(tops[i], tops[i + 1], Share(line - lines[i], lines[i + 1] - lines[i])))
    ensures AtBlock(tops, OffsetForLine(lines, tops, line).value, i)
  {
    CountIsBlock(Reals(lines), line as real, i);
    if i + 1 < |lines| {
      StretchInside(tops[i], tops[i + 1], line - lines[i], lines[i + 1] - lines[i]);
    }
  }

  lemma {:induction false} LineAtBlock(lines: seq<nat>, tops: seq<real>, offset: real, i: nat)
    requires Drawn(lines, tops) && AtBlock(tops, offset, i)
    ensures LineForOffset(lines, tops, offset) == Some(
      if i + 1 == |lines| then lines[i]
      else lines[i] + WholeLines(Through(offset, tops[i], tops[i + 1]), lines[i + 1] - lines[i]))
  {
    CountIsBlock(tops, offset, i);
  }

  predicate TallEnough(tops: seq<real>, i: nat) {
    i + 1 < |tops| && tops[i + 1] - tops[i] >= 1.0
  }

  /** Where going to a line and asking which line that is gives the line back: exactly at every block's
      first line, and everywhere in a block that another follows at least one point below. */
  lemma {:induction false} LineComesBack(lines: seq<nat>, tops: seq<real>, line: nat, i: nat)
    requires Drawn(lines, tops) && InBlock(lines, line, i)
    ensures OffsetForLine(lines, tops, line).Some?
    ensures LineForOffset(lines, tops, OffsetForLine(lines, tops, line).value) == Some(line) <==>
      line == lines[i] || TallEnough(tops, i)
  {
    OffsetInBlock(lines, tops, line, i);
    LineAtBlock(lines, tops, OffsetForLine(lines, tops, line).value, i);
    if i + 1 < |lines| {
      BackAgain(tops[i], tops[i + 1], line - lines[i], lines[i + 1] - lines[i]);
    }
  }

  /** A line not before the first has a block. */
  lemma {:induction false} BlockOf(lines: seq<nat>, tops: seq<real>, line: nat) returns (i: nat)
    requires Drawn(lines, tops) && lines[0] <= line
    ensures InBlock(lines, line, i)
  {
    i := 0;
    while i + 1 < |lines| && lines[i + 1] <= line
      invariant i < |lines| && lines[i] <= line
    {
      i := i + 1;
    }
  }

  lemma {:induction false} BlockAt(lines: seq<nat>, tops: seq<real>, offset: real) returns (i: nat)
    requires Drawn(lines, tops) && tops[0] <= offset
    ensures AtBlock(tops, offset, i)
  {
    i := 0;
    while i + 1 < |tops| && tops[i + 1] <= offset
      invariant i < |tops| && tops[i] <= offset
    {
      i := i + 1;
    }
  }

  predicate Spaced(lines: seq<nat>, tops: seq<real>) {
    Drawn(lines, tops) && forall i :: 0 <= i < |tops| - 1 ==> TallEnough(tops, i)
  }

  /** With blocks at least a point apart, every line from the first to the last block's comes back. */
  lemma {:induction false} EveryLineComesBack(lines: seq<nat>, tops: seq<real>, line: nat)
    requires Spaced(lines, tops) && lines[0] <= line <= lines[|lines| - 1]
    ensures OffsetForLine(lines, tops, line).Some?
    ensures LineForOffset(lines, tops, OffsetForLine(lines, tops, line).value) == Some(line)
  {
    var i := BlockOf(lines, tops, line);
    LineComesBack(lines, tops, line, i);
  }

  lemma {:induction false} BlocksAscend(lines: seq<nat>, line: nat, i: nat, later: nat, j: nat)
    requires InBlock(lines, line, i) && InBlock(lines, later, j) && line <= later
    requires forall m, n :: 0 <= m < n < |lines| ==> lines[m] < lines[n]
    ensures i <= j
  {
  }

  lemma {:induction false} TopsAscend(tops: seq<real>, x: real, i: nat, y: real, j: nat)
    requires AtBlock(tops, x, i) && AtBlock(tops, y, j) && i < j
    requires forall m, n :: 0 <= m < n < |tops| ==> tops[m] < tops[n]
    ensures x < y
  {
    assert tops[i + 1] <= tops[j];
  }

  /** An earlier line is not put further down: going to lines keeps their order, */
  lemma {:induction false} OffsetsAscend(lines: seq<nat>, tops: seq<real>, line: nat, later: nat)
    requires Drawn(lines, tops) && lines[0] <= line <= later
    ensures OffsetForLine(lines, tops, line).Some? && OffsetForLine(lines, tops, later).Some?
    ensures OffsetForLine(lines, tops, line).value <= OffsetForLine(lines, tops, later).value
  {
    var i := BlockOf(lines, tops, line);
    var j := BlockOf(lines, tops, later);
    OffsetInBlock(lines, tops, line, i);
    OffsetInBlock(lines, tops, later, j);
    BlocksAscend(lines, line, i, later, j);
    if i < j {
      TopsAscend(tops, OffsetForLine(lines, tops, line).value, i, OffsetForLine(lines, tops, later).value, j);
    } else if i + 1 < |lines| {
      var b := lines[i + 1] - lines[i];
      ShareAscends(line - lines[i], later - lines[i], b);
      StretchAscends(tops[i], tops[i + 1], Share(line - lines[i], b), Share(later - lines[i], b));
    }
  }

  /** and a line's place is at or above an offset exactly when the line is not past that offset's: the
      two maps belong together, so each keeps the other's order. */
  lemma {:induction false} OffsetAndLineBelongTogether(lines: seq<nat>, tops: seq<real>, line: nat, offset: real)
    requires Spaced(lines, tops) && lines[0] <= line <= lines[|lines| - 1] && tops[0] <= offset
    ensures OffsetForLine(lines, tops, line).Some? && LineForOffset(lines, tops, offset).Some?
    ensures OffsetForLine(lines, tops, line).value <= offset <==> line <= LineForOffset(lines, tops, offset).value
  {
    var i := BlockOf(lines, tops, line);
    var j := BlockAt(lines, tops, offset);
    OffsetInBlock(lines, tops, line, i);
    LineStaysInBlock(lines, tops, offset, j);
    var place, there := OffsetForLine(lines, tops, line).value, LineForOffset(lines, tops, offset).value;
    if i < j {
      TopsAscend(tops, place, i, offset, j);
      LinesAscend(lines, line, i, there, j);
    } else if i > j {
      TopsAscend(tops, offset, j, place, i);
      LinesAscend(lines, there, j, line, i);
    } else {
      LineAtBlock(lines, tops, offset, j);
      if i + 1 < |lines| {
        assert TallEnough(tops, i);
        WithinBlock(tops[i], tops[i + 1], line - lines[i], lines[i + 1] - lines[i], offset);
      }
    }
  }

  /** Scrolling down never goes back to an earlier line, wherever the blocks are. */
  lemma {:induction false} ShownLinesAscend(lines: seq<nat>, tops: seq<real>, offset: real, below: real)
    requires Drawn(lines, tops) && offset <= below
    ensures LineForOffset(lines, tops, offset).Some? && LineForOffset(lines, tops, below).Some?
    ensures LineForOffset(lines, tops, offset).value <= LineForOffset(lines, tops, below).value
  {
    if tops[0] <= offset {
      LinesFromFirst(lines, tops, offset, below);
    } else {
      AboveFirst(lines, tops, offset);
      if tops[0] <= below {
        var j := BlockAt(lines, tops, below);
        LineAtBlock(lines, tops, below, j);
      } else {
        AboveFirst(lines, tops, below);
      }
    }
  }

  /** Above the first block it is the first block's line. */
  lemma {:induction false} AboveFirst(lines: seq<nat>, tops: seq<real>, offset: real)
    requires Drawn(lines, tops) && offset < tops[0]
    ensures LineForOffset(lines, tops, offset) == Some(lines[0])
  {
  }

  lemma {:induction false} LinesFromFirst(lines: seq<nat>, tops: seq<real>, offset: real, below: real)
    requires Drawn(lines, tops) && tops[0] <= offset <= below
    ensures LineForOffset(lines, tops, offset).Some? && LineForOffset(lines, tops, below).Some?
    ensures LineForOffset(lines, tops, offset).value <= LineForOffset(lines, tops, below).value
  {
    var i := BlockAt(lines, tops, offset);
    var j := BlockAt(lines, tops, below);
    LineAtBlock(lines, tops, offset, i);
    LineAtBlock(lines, tops, below, j);
    if i < j {
      assert lines[i + 1] <= lines[j];
    } else {
      assert i == j by {
        SameOrLater(tops, offset, i, below, j);
      }
      if i + 1 < |lines| {
        ThroughAscends(offset, below, tops[i], tops[i + 1]);
        WholeAscends(Through(offset, tops[i], tops[i + 1]), Through(below, tops[i], tops[i + 1]), lines[i + 1] - lines[i]);
      }
    }
  }

  lemma {:induction false} SameOrLater(tops: seq<real>, x: real, i: nat, y: real, j: nat)
    requires AtBlock(tops, x, i) && AtBlock(tops, y, j) && x <= y
    requires forall m, n :: 0 <= m < n < |tops| ==> tops[m] < tops[n]
    ensures i <= j
  {
    if j < i {
      TopsAscend(tops, y, j, x, i);
    }
  }

  lemma {:induction false} ThroughAscends(x: real, y: real, top: real, next: real)
    requires x <= y
    ensures Through(x, top, next) <= Through(y, top, next)
  {
    var h := Max(next - top, 1.0);
    Shares(x - top, y - top, h);
  }

  lemma {:induction false} Shares(a: real, b: real, h: real)
    requires a <= b && h > 0.0
    ensures a / h <= b / h
  {
  }

  lemma {:induction false} WholeAscends(p: real, q: real, span: nat)
    requires 0.0 <= p <= q <= 1.0
    ensures WholeLines(p, span) <= WholeLines(q, span)
  {
    Widened(p, q, span as real);
  }

  lemma {:induction false} Widened(p: real, q: real, b: real)
    requires p <= q && 0.0 <= b
    ensures p * b <= q * b
  {
  }

  lemma {:induction false} LinesAscend(lines: seq<nat>, line: nat, i: nat, later: nat, j: nat)
    requires InBlock(lines, line, i) && InBlock(lines, later, j) && i < j
    requires forall m, n :: 0 <= m < n < |lines| ==> lines[m] < lines[n]
    ensures line < later
  {
    assert lines[i + 1] <= lines[j];
  }

  lemma {:induction false} LineStaysInBlock(lines: seq<nat>, tops: seq<real>, offset: real, j: nat)
    requires Spaced(lines, tops) && AtBlock(tops, offset, j)
    ensures LineForOffset(lines, tops, offset).Some? && InBlock(lines, LineForOffset(lines, tops, offset).value, j)
  {
    LineAtBlock(lines, tops, offset, j);
    if j + 1 < |lines| {
      assert TallEnough(tops, j);
      WithinBlock(tops[j], tops[j + 1], 0, lines[j + 1] - lines[j], offset);
    }
  }

  // ---------- the two sides settle ----------

  predicate Requests(before: Sync, editorTop: Option<nat>) {
    var (s, line) := Synced(before, editorTop);
    line.Some? || s.restore.Some?
  }

  /** Between two calls with nobody scrolling and nothing shown anew: a move asked for lands anywhere,
      the side not asked stays, and blocks may be laid out afresh. */
  predicate Lands(before: Sync, editorTop: Option<nat>, next: Sync, nextTop: Option<nat>) {
    var (s, line) := Synced(before, editorTop);
    next.lines == s.lines && next.tops != [] && next.restore == None &&
    next.syncedLine == s.syncedLine && next.syncedOffset == s.syncedOffset && next.settling == s.settling &&
    next.syncedShowing == s.syncedShowing && next.showing == s.showing &&
    (s.restore.None? ==> next.scroll == s.scroll) && (line.None? ==> nextTop == editorTop)
  }

  /** Asking for the line at the preview's place gives the line the editor shows. */
  predicate InStep(s: Sync, editorTop: Option<nat>) {
    editorTop.Some? && LineForOffset(s.lines, s.tops, s.scroll) == editorTop
  }

  /** A move asked for that lands just there: the offset asked for, or the line. */
  predicate LandsThere(before: Sync, editorTop: Option<nat>, next: Sync, nextTop: Option<nat>) {
    var (s, line) := Synced(before, editorTop);
    Lands(before, editorTop, next, nextTop) && next.tops == before.tops &&
    (s.restore.Some? ==> next.scroll == s.restore.value) && (line.Some? ==> nextTop == line)
  }

  /** Whichever side leads, once its request has been met the two are on the same line. */
  lemma {:induction false} RequestsBringInStep(s: Sync, top: Option<nat>, next: Sync, nextTop: Option<nat>)
    requires Spaced(s.lines, s.tops) && s.restore.None? && Requests(s, top) && LandsThere(s, top, next, nextTop)
    requires Leads(s, top) ==> s.lines[0] <= top.value <= s.lines[|s.lines| - 1]
    ensures InStep(next, nextTop)
  {
    if Leads(s, top) {
      EveryLineComesBack(s.lines, s.tops, top.value);
    }
  }

  /** A leading editor that gets no answer is already within half a point of its line's place. */
  lemma {:induction false} NoRequestIsClose(s: Sync, top: Option<nat>)
    requires Drawn(s.lines, s.tops) && s.restore.None? && !s.settling && Leads(s, top) && !Requests(s, top)
    requires s.lines[0] <= top.value
    ensures OffsetForLine(s.lines, s.tops, top.value).Some?
    ensures Distance(OffsetForLine(s.lines, s.tops, top.value).value, s.scroll) <= 0.5
  {
    var i := BlockOf(s.lines, s.tops, top.value);
    OffsetInBlock(s.lines, s.tops, top.value, i);
  }

  /** Nothing to do for either side. */
  predicate Quiet(s: Sync, editorTop: Option<nat>) {
    !s.settling && !Leads(s, editorTop) && Distance(s.scroll, s.syncedOffset) <= 0.5
  }

  /** Nothing to do, or a last move that has landed. */
  predicate Calm(s: Sync, editorTop: Option<nat>) {
    Quiet(s, editorTop) || (s.settling && (s.syncedShowing == s.showing || editorTop.None?))
  }

  lemma {:induction false} CalmStays(s: Sync, top: Option<nat>, next: Sync, nextTop: Option<nat>)
    requires Ready(s) && s.restore.None? && Lands(s, top, next, nextTop) && Calm(s, top)
    ensures !Requests(s, top) && Calm(next, nextTop)
  {
  }

  /** A run of calls: what each side's place is before each. */
  predicate IsRun(states: seq<Sync>, tops: seq<Option<nat>>) {
    |states| == |tops| > 0 && Ready(states[0]) && states[0].restore.None? &&
    forall k :: 0 <= k < |states| - 1 ==> Lands(states[k], tops[k], states[k + 1], tops[k + 1])
  }

  lemma {:induction false} RunIsReady(states: seq<Sync>, tops: seq<Option<nat>>, k: nat)
    requires IsRun(states, tops) && k < |states|
    ensures Ready(states[k]) && states[k].restore.None?
    decreases k
  {
    if k > 0 {
      RunIsReady(states, tops, k - 1);
      assert Lands(states[k - 1], tops[k - 1], states[k], tops[k]);
    }
  }

  /** After two calls all is calm, but for an editor that was not in view at the first. */
  lemma {:induction false} SoonCalm(a: Sync, aTop: Option<nat>, b: Sync, bTop: Option<nat>, c: Sync, cTop: Option<nat>)
    requires Ready(a) && a.restore.None? && Ready(b) && b.restore.None?
    requires Lands(a, aTop, b, bTop) && Lands(b, bTop, c, cTop)
    ensures aTop.Some? ==> Calm(c, cTop)
    ensures Requests(a, aTop) && aTop.Some? ==> !Requests(b, bTop)
    ensures Calm(c, cTop) || (aTop.None? && !c.settling && c.scroll == c.syncedOffset && c.syncedLine == cTop)
  {
  }

  lemma {:induction false} CalmFromThen(states: seq<Sync>, tops: seq<Option<nat>>, from: nat, k: nat)
    requires IsRun(states, tops) && from <= k < |states| && Calm(states[from], tops[from])
    ensures Calm(states[k], tops[k])
    decreases k
  {
    if from < k {
      CalmFromThen(states, tops, from, k - 1);
      RunIsReady(states, tops, k - 1);
      assert Lands(states[k - 1], tops[k - 1], states[k], tops[k]);
      CalmStays(states[k - 1], tops[k - 1], states[k], tops[k]);
    }
  }

  /** The two sides never chase each other: however a move lands, with an editor in view at most one is
      asked for and none from the third call on; with an editor that comes into view only in answer,
      none from the fourth on. */
  lemma {:induction false} SidesSettle(states: seq<Sync>, tops: seq<Option<nat>>, k: nat)
    requires IsRun(states, tops) && k + 1 < |states|
    ensures k >= 3 || (k == 2 && tops[0].Some?) ==> !Requests(states[k], tops[k])
    ensures tops[0].Some? && k == 1 && Requests(states[0], tops[0]) ==> !Requests(states[1], tops[1])
  {
    if k >= 1 {
      RunIsReady(states, tops, 0);
      RunIsReady(states, tops, 1);
      assert Lands(states[0], tops[0], states[1], tops[1]) && Lands(states[1], tops[1], states[2], tops[2]);
      SoonCalm(states[0], tops[0], states[1], tops[1], states[2], tops[2]);
      if k >= 2 {
        RunIsReady(states, tops, k);
        if Calm(states[2], tops[2]) {
          CalmFromThen(states, tops, 2, k);
          CalmStays(states[k], tops[k], states[k + 1], tops[k + 1]);
        } else if k >= 3 {
          RunIsReady(states, tops, 2);
          LateCalm(states[2], tops[2], states[3], tops[3]);
          CalmFromThen(states, tops, 3, k);
          CalmStays(states[k], tops[k], states[k + 1], tops[k + 1]);
        }
      }
    }
  }

  lemma {:induction false} LateCalm(s: Sync, top: Option<nat>, next: Sync, nextTop: Option<nat>)
    requires Ready(s) && s.restore.None? && Lands(s, top, next, nextTop)
    requires !s.settling && s.scroll == s.syncedOffset && s.syncedLine == top
    ensures Calm(next, nextTop)
  {
  }

  /** An editor that was out of view can take the one more round. */
  lemma {:induction false} LateEditorTakesTwo()
    ensures var first := Sync([0, 10], [0.0, 100.0], 50.0, None, None, 0.0, 0, 1, false);
      var landed := Synced(first, None).0;
      var settled := Synced(landed, Some(3)).0;
      Requests(first, None) && !Requests(landed, Some(3)) && Requests(settled, Some(3))
  {
    var first := Sync([0, 10], [0.0, 100.0], 50.0, None, None, 0.0, 0, 1, false);
    assert Drawn(first.lines, first.tops);
    LineAtBlock(first.lines, first.tops, 50.0, 0);
    OffsetInBlock(first.lines, first.tops, 3, 0);
    ShareIs(3, 10);
  }

  // ---------- no change waits too long ----------

  /** A call that leaves a changed document unshown. */
  predicate Waits(f: Following, version: nat, now: int, delay: int, wait: int) {
    Followed(f, version, now, delay, wait).1.Some?
  }

  /** Calls one after another, each of which leaves the document's latest version unshown. */
  predicate WaitingRun(states: seq<Following>, versions: seq<nat>, times: seq<int>, delay: int, wait: int) {
    |states| == |versions| == |times| > 0 && states[0].pending.None? &&
    (forall k :: 0 <= k < |states| ==> Waits(states[k], versions[k], times[k], delay, wait)) &&
    (forall k :: 0 <= k < |states| - 1 ==>
      times[k] <= times[k + 1] && states[k + 1] == Followed(states[k], versions[k], times[k], delay, wait).0)
  }

  /** However often the document changes, the changes not yet shown are younger than `wait`, the latest
      one is younger than `delay`, and the next look is due before either limit. */
  lemma {:induction false} NothingWaitsTooLong(states: seq<Following>, versions: seq<nat>, times: seq<int>, delay: int, wait: int, k: nat)
    requires WaitingRun(states, versions, times, delay, wait) && k < |states|
    ensures var (f, due) := Followed(states[k], versions[k], times[k], delay, wait);
      f.pending.Some? && f.pending.value.first == times[0] && f.pending.value.version == versions[k] &&
      times[0] <= f.pending.value.last <= times[k] < times[0] + wait && times[k] < f.pending.value.last + delay &&
      0 < due.value && times[k] + due.value <= times[0] + wait && times[k] + due.value <= f.pending.value.last + delay
    decreases k
  {
    assert Waits(states[k], versions[k], times[k], delay, wait);
    if k > 0 {
      NothingWaitsTooLong(states, versions, times, delay, wait, k - 1);
      assert states[k] == Followed(states[k - 1], versions[k - 1], times[k - 1], delay, wait).0;
    }
  }

  /** Looking again when told to shows the document, if it has not changed since. */
  lemma {:induction false} DueMeansShown(f: Following, version: nat, now: int, delay: int, wait: int)
    requires Waits(f, version, now, delay, wait)
    requires f.pending.Some? ==> f.pending.value.first <= f.pending.value.last <= now
    ensures var (next, due) := Followed(f, version, now, delay, wait);
      Followed(next, version, now + due.value, delay, wait) == (ShowVersion(version), None)
  {
  }

  /** A document not yet shown, or to be shown anew, does not wait, and one that is shown is left alone. */
  lemma {:induction false} AtOnce(f: Following, version: nat, now: int, delay: int, wait: int)
    ensures !f.shown.Document? || f.refresh ==> Followed(f, version, now, delay, wait) == (Following(Document(version), None, false), None)
    ensures f.shown == Document(version) && !f.refresh ==> Followed(f, version, now, delay, wait) == (f.(pending := None), None)
  {
  }

  /** The look at which the latest version was first seen. */
  predicate CameAt(versions: seq<nat>, k: nat, m: nat) {
    m <= k < |versions| && (forall i :: m <= i <= k ==> versions[i] == versions[k]) && (m > 0 ==> versions[m - 1] != versions[k])
  }

  lemma {:induction false} LastIsWhenItCame(states: seq<Following>, versions: seq<nat>, times: seq<int>, delay: int, wait: int, k: nat, m: nat)
    requires WaitingRun(states, versions, times, delay, wait) && CameAt(versions, k, m)
    ensures var f := Followed(states[k], versions[k], times[k], delay, wait).0; f.pending == Some(Pending(versions[k], times[0], times[m]))
    decreases k
  {
    NothingWaitsTooLong(states, versions, times, delay, wait, k);
    assert Waits(states[k], versions[k], times[k], delay, wait);
    if k > 0 {
      NothingWaitsTooLong(states, versions, times, delay, wait, k - 1);
      assert states[k] == Followed(states[k - 1], versions[k - 1], times[k - 1], delay, wait).0;
      if m < k {
        LastIsWhenItCame(states, versions, times, delay, wait, k - 1, m);
      }
    }
  }

  /** A changed document is drawn at a look exactly when it has been as it is for `delay`, or the waiting has lasted for
      `wait`. */
  lemma {:induction false} ShownExactlyWhenDue(states: seq<Following>, versions: seq<nat>, times: seq<int>, delay: int, wait: int, k: nat, m: nat,
      version: nat, now: int)
    requires WaitingRun(states, versions, times, delay, wait) && CameAt(versions, k, m) && times[k] <= now
    requires states[k].shown != Document(version)
    ensures var f := Followed(states[k], versions[k], times[k], delay, wait).0;
      Followed(f, version, now, delay, wait).0 == Following(Document(version), None, false) <==>
      (version == versions[k] && now - times[m] >= delay) || now - times[0] >= wait
  {
    NothingWaitsTooLong(states, versions, times, delay, wait, k);
    LastIsWhenItCame(states, versions, times, delay, wait, k, m);
    assert Waits(states[k], versions[k], times[k], delay, wait);
    TimesAscend(states, versions, times, delay, wait, m, k);
  }

  lemma {:induction false} TimesAscend(states: seq<Following>, versions: seq<nat>, times: seq<int>, delay: int, wait: int, m: nat, k: nat)
    requires WaitingRun(states, versions, times, delay, wait) && m <= k < |times|
    ensures times[m] <= times[k]
    decreases k - m
  {
    if m < k {
      TimesAscend(states, versions, times, delay, wait, m, k - 1);
    }
  }

  // ---------- who leads ----------

  /** The editor is in view where it and the drawing were last matched. */
  predicate EditorRests(s: Sync, editorTop: Option<nat>) {
    editorTop.Some? ==> editorTop == s.syncedLine && s.syncedShowing == s.showing
  }

  predicate FarApart(x: real, y: real) {
    x - y > 0.5 || y - x > 0.5
  }

  /** A reader who scrolls by more than half a point to another line takes the editor there, */
  lemma {:induction false} ReaderLeads(s: Sync, editorTop: Option<nat>, line: nat)
    requires Ready(s) && !s.settling && EditorRests(s, editorTop) && FarApart(s.scroll, s.syncedOffset)
    requires LineForOffset(s.lines, s.tops, s.scroll) == Some(line)
    ensures editorTop != Some(line) ==>
      Synced(s, editorTop) == (s.(syncedOffset := s.scroll, syncedLine := Some(line), settling := true), Some(line))
    ensures editorTop == Some(line) ==> Synced(s, editorTop) == (s.(syncedOffset := s.scroll), None)
  {
  }

  /** and there always is a line to go to; */
  lemma {:induction false} SomeLineIsThere(s: Sync)
    requires Ready(s)
    ensures LineForOffset(s.lines, s.tops, s.scroll).Some?
  {
  }

  /** an editor that moves, or whose document is drawn anew, takes the preview to its line if that is more than half a
      point away; */
  lemma {:induction false} EditorLeads(s: Sync, line: nat, offset: real)
    requires Ready(s) && !s.settling && !EditorRests(s, Some(line)) && OffsetForLine(s.lines, s.tops, line) == Some(offset)
    ensures var matched := s.(syncedShowing := s.showing, syncedLine := Some(line));
      Synced(s, Some(line)) ==
      (if FarApart(offset, s.scroll) then matched.(restore := Some(offset), settling := true) else matched, None)
  {
  }

  /** a line before the first block moves nothing; */
  lemma {:induction false} NoPlaceForLine(s: Sync, line: nat)
    requires Ready(s) && !s.settling && !EditorRests(s, Some(line)) && OffsetForLine(s.lines, s.tops, line) == None
    ensures Synced(s, Some(line)) == (s.(syncedShowing := s.showing, syncedLine := Some(line)), None)
  {
  }

  /** an answer that was awaited is taken as it came; */
  lemma {:induction false} AnswerIsTaken(s: Sync, editorTop: Option<nat>)
    requires Ready(s) && s.settling
    ensures Synced(s, editorTop) == (s.(settling := false, syncedLine := editorTop, syncedOffset := s.scroll), None)
  {
  }

  /** and while nothing is drawn, or neither side has moved, nothing happens. */
  lemma {:induction false} NothingToDo(s: Sync, editorTop: Option<nat>)
    requires !Ready(s) || (!s.settling && EditorRests(s, editorTop) && !FarApart(s.scroll, s.syncedOffset))
    ensures Synced(s, editorTop) == (s, None)
  {
  }
}
