/**
 * The text side of Find in Files: the excerpt a result row shows, and the check that a match is still
 * there before it is replaced.
 */
module SearchText {
  import opened Search

  /** How much of the line a row shows before and behind the match, where there is as much. */
  const CONTEXT: nat := 40
  const SLACK: nat := 12

  const ELLIPSIS: char := '\U{2026}'

  function Less(a: nat, b: nat): nat {
    if a < b then 0 else a - b
  }

  function Least(a: nat, b: nat): nat {
    if a < b then a else b
  }

  /** No white space from `i` up to `j`. */
  predicate OneWord(white: char -> bool, line: string, i: nat, j: nat)
    requires j <= |line|
  {
    forall k :: i <= k < j ==> !white(line[k])
  }

  /** From full context on the left, on to where the word there begins or the slack is used up. */
  predicate LeftEdge(white: char -> bool, line: string, from: nat, edge: nat)
    requires from <= |line|
  {
    Less(from, CONTEXT + SLACK) <= edge <= Less(from, CONTEXT) && OneWord(white, line, edge, Less(from, CONTEXT)) &&
    (edge == 0 || white(line[edge - 1]) || edge == Less(from, CONTEXT + SLACK))
  }

  /** And likewise on the right, to where the word ends. */
  predicate RightEdge(white: char -> bool, line: string, to: nat, edge: nat)
    requires to <= |line|
  {
    Least(to + CONTEXT, |line|) <= edge <= Least(to + CONTEXT + SLACK, |line|) &&
    OneWord(white, line, Least(to + CONTEXT, |line|), edge) &&
    (edge == |line| || white(line[edge]) || edge == to + CONTEXT + SLACK)
  }

  /** All white space up to `start`, and none there, unless the match begins there. */
  predicate Indented(white: char -> bool, line: string, edge: nat, start: nat, from: nat)
    requires from <= |line|
  {
    edge <= start <= from && (forall k :: edge <= k < start ==> white(line[k])) && (start == from || !white(line[start]))
  }

  /** How far an excerpt reaches: to the edges of the words at full context on either side, less the
      white space it would begin with. */
  ghost predicate Reach(white: char -> bool, line: string, from: nat, to: nat, start: nat, end: nat)
    requires from <= to <= |line|
  {
    RightEdge(white, line, to, end) && exists edge: nat :: LeftEdge(white, line, from, edge) && Indented(white, line, edge, start, from)
  }

  /** Both ends are fixed by this. */
  lemma {:induction false} ReachIsOne(white: char -> bool, line: string, from: nat, to: nat,
                                      start: nat, end: nat, start': nat, end': nat)
    requires from <= to <= |line| && Reach(white, line, from, to, start, end) && Reach(white, line, from, to, start', end')
    ensures start == start' && end == end'
  {
    var e: nat :| LeftEdge(white, line, from, e) && Indented(white, line, e, start, from);
    var e': nat :| LeftEdge(white, line, from, e') && Indented(white, line, e', start', from);
    assert e == e' by {
      OneLeftEdge(white, line, from, e, e');
      OneLeftEdge(white, line, from, e', e);
    }
  }

  lemma {:induction false} OneLeftEdge(white: char -> bool, line: string, from: nat, a: nat, b: nat)
    requires from <= |line| && LeftEdge(white, line, from, a) && LeftEdge(white, line, from, b)
    ensures a <= b
  {
  }

  /** Never less than full context where the line has it, and never more than the slack beyond. */
  lemma {:induction false} ReachIsBounded(white: char -> bool, line: string, from: nat, to: nat, start: nat, end: nat)
    requires from <= to <= |line| && Reach(white, line, from, to, start, end)
    ensures start <= from && to <= end <= |line|
    ensures from - start <= CONTEXT + SLACK && end - to <= CONTEXT + SLACK
    ensures end == |line| || to + CONTEXT <= end
    ensures start == 0 || CONTEXT <= from - start || white(line[start - 1])
  {
    var edge: nat :| LeftEdge(white, line, from, edge) && Indented(white, line, edge, start, from);
    assert start > edge ==> white(line[start - 1]);
  }

  ghost predicate Cut(white: char -> bool, line: string, start: nat)
    requires start <= |line|
  {
    exists k :: 0 <= k < start && !white(line[k])
  }

  /** An excerpt with an ellipsis wherever text was cut; skipped indentation earns none. */
  ghost function Shown(white: char -> bool, line: string, start: nat, end: nat): string
    requires start <= end <= |line|
  {
    (if Cut(white, line, start) then [ELLIPSIS] else []) + line[start..end] + (if end < |line| then [ELLIPSIS] else [])
  }

  method Window(white: char -> bool, line: string, from: nat, to: nat) returns (start: nat, end: nat)
    requires from <= to <= |line|
    ensures Reach(white, line, from, to, start, end)
  {
    start := Less(from, CONTEXT);
    while start > 0 && !white(line[start - 1]) && start > Less(from, CONTEXT + SLACK)
      invariant Less(from, CONTEXT + SLACK) <= start <= Less(from, CONTEXT)
      invariant OneWord(white, line, start, Less(from, CONTEXT))
    {
      start := start - 1;
    }
    ghost var edge := start;
    assert LeftEdge(white, line, from, edge);
    end := Least(to + CONTEXT, |line|);
    while end < |line| && !white(line[end]) && end < to + CONTEXT + SLACK
      invariant Least(to + CONTEXT, |line|) <= end <= Least(to + CONTEXT + SLACK, |line|)
      invariant OneWord(white, line, Least(to + CONTEXT, |line|), end)
    {
      end := end + 1;
    }
    while start < from && white(line[start])
      invariant edge <= start <= from
      invariant forall k :: edge <= k < start ==> white(line[k])
    {
      start := start + 1;
    }
  }

  /** What a row shows of a match's line, and where in that the match is. */
  method Snippet(white: char -> bool, line: string, from: nat, to: nat) returns (out: string, span: (nat, nat))
    requires from <= to <= |line|
    ensures span.0 <= span.1 <= |out| && out[span.0..span.1] == line[from..to]
    ensures exists start: nat, end: nat :: Reach(white, line, from, to, start, end) && out == Shown(white, line, start, end)
  {
    var start, end := Window(white, line, from, to);
    ReachIsBounded(white, line, from, to, start, end);
    var cut := false;
    for k := 0 to start
      invariant cut <==> Cut(white, line, k)
    {
      if !white(line[k]) {
        cut := true;
      }
    }
    out := if cut then [ELLIPSIS] else [];
    var offset := |out|;
    out := out + line[start..end];
    if end < |line| {
      out := out + [ELLIPSIS];
    }
    span := (from - start + offset, to - start + offset);
    Located(line, start, end, from, to, if cut then [ELLIPSIS] else [], if end < |line| then [ELLIPSIS] else []);
    assert out == Shown(white, line, start, end);
  }

  lemma {:induction false} Located(line: string, start: nat, end: nat, from: nat, to: nat, lead: string, tail: string)
    requires start <= from <= to <= end <= |line|
    ensures var out := lead + line[start..end] + tail; var at := from - start + |lead|;
      at + (to - from) <= |out| && out[at..at + (to - from)] == line[from..to]
  {
    InTheMiddle(lead, line[start..end], tail, from - start, to - start);
    InPart(line, start, end, from, to);
  }

  lemma {:induction false} InPart<T>(s: seq<T>, start: nat, end: nat, i: nat, j: nat)
    requires start <= i <= j <= end <= |s|
    ensures s[start..end][i - start..j - start] == s[i..j]
  {
    var part := s[start..end];
    assert forall k :: 0 <= k < |part| ==> part[k] == s[start + k];
    assert |part[i - start..j - start]| == |s[i..j]|;
    assert forall k :: 0 <= k < j - i ==> part[i - start..j - start][k] == s[i..j][k];
  }

  lemma {:induction false} InTheMiddle<T>(a: seq<T>, b: seq<T>, c: seq<T>, i: nat, j: nat)
    requires i <= j <= |b|
    ensures (a + b + c)[i + |a|..i + |a| + (j - i)] == b[i..j]
  {
  }

  // ---------- replacing ----------

  /** The match is where the scan found it. */
  predicate Still(text: string, m: FileMatch) {
    m.from <= m.to <= |text| && text[m.from..m.to] == m.found
  }

  /** The targets still there, in order. */
  function Verified(text: string, targets: seq<FileMatch>): (r: seq<FileMatch>)
    ensures |r| <= |targets|
    ensures forall i :: 0 <= i < |r| ==> Still(text, r[i])
  {
    if targets == [] then []
    else
      var init, last := targets[..|targets| - 1], targets[|targets| - 1];
      Verified(text, init) + if Still(text, last) then [last] else []
  }

  datatype Edit = Edit(from: nat, to: nat, text: string)

  function EditsFor(targets: seq<FileMatch>, replacement: string): (r: seq<Edit>)
    ensures |r| == |targets|
  {
    seq(|targets|, i requires 0 <= i < |targets| => Edit(targets[i].from, targets[i].to, replacement))
  }

  /** Only matches that are still there are replaced; the rest are counted as refused. */
  method VerifiedEdits(text: string, targets: seq<FileMatch>, replacement: string)
    returns (edits: seq<Edit>, refused: nat)
    requires forall i :: 0 <= i < |targets| ==> targets[i].from <= targets[i].to
    ensures edits == EditsFor(Verified(text, targets), replacement)
    ensures |edits| + refused == |targets|
  {
    edits, refused := [], 0;
    for i := 0 to |targets|
      invariant edits == EditsFor(Verified(text, targets[..i]), replacement) && |edits| + refused == i
    {
      assert targets[..i + 1][..i] == targets[..i];
      var m := targets[i];
      var still := m.to <= |text| && text[m.from..m.to] == m.found;
      if still {
        edits := edits + [Edit(m.from, m.to, replacement)];
      } else {
        refused := refused + 1;
      }
    }
    assert targets[..|targets|] == targets;
  }

  /** A text nobody changed since the scan refuses nothing; and whatever is edited held the very
      characters found. */
  lemma {:induction false} UnchangedRefusesNothing(text: string, targets: seq<FileMatch>)
    ensures Verified(text, targets) == targets <==> forall i :: 0 <= i < |targets| ==> Still(text, targets[i])
    ensures |Verified(text, targets)| == |targets| ==> Verified(text, targets) == targets
  {
    if targets != [] {
      var init, last := targets[..|targets| - 1], targets[|targets| - 1];
      UnchangedRefusesNothing(text, init);
      assert targets == init + [last];
      assert forall i :: 0 <= i < |init| ==> init[i] == targets[i];
    }
  }

  // ---------- in figures ----------

  /** At least 40 characters on the right where the line has them, then to the end of the word there, but no more than
      52. */
  predicate EndsAt(white: char -> bool, line: string, to: nat, end: nat) {
    to <= end <= |line| && end - to <= 52 && (end < |line| ==> end - to >= 40) &&
    (forall k :: to + 40 <= k < end ==> !white(line[k])) && (end < |line| && end - to < 52 ==> white(line[end]))
  }

  /** Likewise on the left, from `edge` on. */
  predicate BeginsAt(white: char -> bool, line: string, from: nat, edge: nat) {
    edge <= from <= |line| && from - edge <= 52 && (edge > 0 ==> from - edge >= 40) &&
    (forall k :: edge <= k < from - 40 ==> !white(line[k])) && (edge > 0 && from - edge < 52 ==> white(line[edge - 1]))
  }

  /** The first character from `edge` on that is not white, or the match. */
  predicate StartsAt(white: char -> bool, line: string, edge: nat, start: nat, from: nat) {
    edge <= start <= from <= |line| && (start < from ==> !white(line[start])) && forall k :: edge <= k < start ==> white(line[k])
  }

  /** What an excerpt holds of its line. */
  lemma {:induction false} ReachMeans(white: char -> bool, line: string, from: nat, to: nat, start: nat, end: nat)
    requires from <= to <= |line|
    ensures Reach(white, line, from, to, start, end) <==>
      EndsAt(white, line, to, end) &&
      exists edge: nat :: BeginsAt(white, line, from, edge) && StartsAt(white, line, edge, start, from)
  {
    forall edge: nat
      ensures LeftEdge(white, line, from, edge) <==> BeginsAt(white, line, from, edge)
      ensures Indented(white, line, edge, start, from) <==> StartsAt(white, line, edge, start, from)
    {
      LeftMeans(white, line, from, edge);
    }
    RightMeans(white, line, to, end);
    if edge: nat :| BeginsAt(white, line, from, edge) && StartsAt(white, line, edge, start, from) {
      assert LeftEdge(white, line, from, edge) && Indented(white, line, edge, start, from);
    }
  }

  lemma {:induction false} LeftMeans(white: char -> bool, line: string, from: nat, edge: nat)
    requires from <= |line|
    ensures LeftEdge(white, line, from, edge) <==> BeginsAt(white, line, from, edge)
  {
  }

  lemma {:induction false} RightMeans(white: char -> bool, line: string, to: nat, end: nat)
    requires to <= |line|
    ensures RightEdge(white, line, to, end) <==> EndsAt(white, line, to, end)
  {
  }

  /** An ellipsis stands in front exactly when something that is not white was left out there, and behind exactly when
      anything was. */
  lemma {:induction false} EllipsisMarksCuts(white: char -> bool, line: string, start: nat, end: nat)
    requires start <= end <= |line|
    ensures var out := Shown(white, line, start, end);
      var (lead, tail) := (|out| > 0 && out[0] == '\U{2026}', |out| > 0 && out[|out| - 1] == '\U{2026}');
      ((exists k :: 0 <= k < start && !white(line[k])) ==> lead && |out| >= end - start + 1 && out[1..end - start + 1] == line[start..end]) &&
      ((forall k :: 0 <= k < start ==> white(line[k])) ==> |out| >= end - start && out[..end - start] == line[start..end]) &&
      |out| == end - start + (if exists k :: 0 <= k < start && !white(line[k]) then 1 else 0) + (if end < |line| then 1 else 0) &&
      (end < |line| ==> tail)
  {
    var out := Shown(white, line, start, end);
    if Cut(white, line, start) {
      assert out[1..end - start + 1] == line[start..end];
    } else {
      assert out[..end - start] == line[start..end];
    }
  }

  /** What is replaced: exactly the matches of which the text still has the characters at their place. */
  lemma {:induction false} StillThere(text: string, targets: seq<FileMatch>, m: FileMatch)
    ensures m in Verified(text, targets) <==> m in targets && m.from <= m.to <= |text| && text[m.from..m.to] == m.found
  {
    if targets != [] {
      StillThere(text, targets[..|targets| - 1], m);
      assert targets == targets[..|targets| - 1] + [targets[|targets| - 1]];
    }
  }

  /** Edits keep the order of their matches, and each puts the replacement where its match stands. */
  lemma {:induction false} EditsInOrder(text: string, targets: seq<FileMatch>, more: seq<FileMatch>, replacement: string)
    ensures Verified(text, targets + more) == Verified(text, targets) + Verified(text, more)
    ensures forall i :: 0 <= i < |targets| ==> EditsFor(targets, replacement)[i] == Edit(targets[i].from, targets[i].to, replacement)
  {
    if more == [] {
      assert targets + more == targets;
    } else {
      var init := more[..|more| - 1];
      EditsInOrder(text, targets, init, replacement);
      assert (targets + more)[..|targets + more| - 1] == targets + init;
    }
  }
}
