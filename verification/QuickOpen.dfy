/** Quick Open: the files whose path holds every term typed, best first. */
module QuickOpen {
  import opened Outcome
  import opened Chars
  import opened Sorting

  /** The length a ranking is cut to. */
  const SHOWN: nat := 200

  datatype ProjectFile = ProjectFile(rel: string, hidden: bool)

  datatype Span = Span(start: nat, end: nat)

  /** A file, by its place in the list, with the spans of the terms in its path. */
  datatype Hit = Hit(index: nat, spans: seq<Span>)

  /** What the terms looked at so far add up to; no earliest place yet counts as later than any. */
  datatype Score = Score(inName: nat, earliest: Option<nat>, spans: seq<Span>)

  datatype Ranked = Ranked(score: Score, hit: Hit)

  // ---------- matching ----------

  /** Folding that keeps the length: a character whose lower case is not one character stays. */
  function Fold(lower: char -> string, c: char): char {
    if |lower(c)| == 1 then lower(c)[0] else c
  }

  function Folded(lower: char -> string, s: string): (r: string)
    ensures |r| == |s|
  {
    seq(|s|, i requires 0 <= i < |s| => Fold(lower, s[i]))
  }

  function WordEnd(s: string, i: nat): (end: nat)
    requires i <= |s|
    ensures i <= end <= |s| && (end < |s| ==> IsWhitespace(s[end]))
    ensures forall k :: i <= k < end ==> !IsWhitespace(s[k])
    decreases |s| - i
  {
    if i == |s| || IsWhitespace(s[i]) then i else WordEnd(s, i + 1)
  }

  /** The words between white space, from the `i`th character on. */
  function WordsFrom(s: string, i: nat): (words: seq<Span>)
    requires i <= |s|
    ensures forall k :: 0 <= k < |words| ==> i <= words[k].start < words[k].end <= |s|
    decreases |s| - i
  {
    if i == |s| then []
    else if IsWhitespace(s[i]) then WordsFrom(s, i + 1)
    else [Span(i, WordEnd(s, i))] + WordsFrom(s, WordEnd(s, i))
  }

  function TermsOf(lower: char -> string, query: string): (r: seq<string>) {
    var words := WordsFrom(query, 0);
    seq(|words|, k requires 0 <= k < |words| => Folded(lower, query[words[k].start..words[k].end]))
  }

  predicate OccursAt(hay: string, needle: string, i: nat) {
    i + |needle| <= |hay| && hay[i..i + |needle|] == needle
  }

  function FindFrom(hay: string, needle: string, i: nat): (r: Option<nat>)
    requires forall k :: 0 <= k < i ==> !OccursAt(hay, needle, k)
    ensures r.None? ==> forall k :: 0 <= k <= |hay| ==> !OccursAt(hay, needle, k)
    ensures r.Some? ==> OccursAt(hay, needle, r.value) && forall k :: 0 <= k < r.value ==> !OccursAt(hay, needle, k)
    decreases |hay| - i
  {
    if i + |needle| > |hay| then None
    else if OccursAt(hay, needle, i) then Some(i)
    else FindFrom(hay, needle, i + 1)
  }

  /** The first place of a needle that is not empty. */
  function FindChars(hay: string, needle: string): (r: Option<nat>)
    ensures r.None? ==> needle == "" || forall k :: 0 <= k <= |hay| ==> !OccursAt(hay, needle, k)
    ensures r.Some? ==> needle != "" && OccursAt(hay, needle, r.value)
    ensures r.Some? ==> forall k :: 0 <= k < r.value ==> !OccursAt(hay, needle, k)
  {
    if needle == "" || |needle| > |hay| then None else FindFrom(hay, needle, 0)
  }

  /** Where a path's last name starts. */
  function NameStart(path: string): (n: nat)
    ensures n <= |path|
    ensures n > 0 ==> path[n - 1] == '/'
    ensures forall k :: n <= k < |path| ==> path[k] != '/'
  {
    if path == "" || path[|path| - 1] == '/' then |path| else NameStart(path[..|path| - 1])
  }

  /** Where a term is found: in the name if it is there, else anywhere. */
  function TermHit(path: string, term: string): Option<(nat, bool)> {
    var name := NameStart(path);
    match FindChars(path[name..], term)
    case Some(i) => Some((i + name, true))
    case None =>
      match FindChars(path, term)
      case Some(i) => Some((i, false))
      case None => None
  }

  function Earlier(a: Option<nat>, b: nat): Option<nat> {
    if a.Some? && a.value < b then a else Some(b)
  }

  function WithHit(s: Score, path: string, term: string, at: nat, named: bool): Score
    requires named ==> NameStart(path) <= at
  {
    Score(if named then s.inName + 1 else s.inName,
          Earlier(s.earliest, if named then at - NameStart(path) else |path| + at),
          s.spans + [Span(at, at + |term|)])
  }

  /** The score of a path that holds every term. */
  function ScoreOf(path: string, terms: seq<string>): Option<Score> {
    if terms == [] then Some(Score(0, None, []))
    else
      var before, term := ScoreOf(path, terms[..|terms| - 1]), terms[|terms| - 1];
      var hit := TermHit(path, term);
      if before.None? || hit.None? then None else Some(WithHit(before.value, path, term, hit.value.0, hit.value.1))
  }

  // ---------- ranking ----------

  predicate Visible(file: ProjectFile, includeHidden: bool) {
    includeHidden || !file.hidden
  }

  function ByStart(): (Span, Span) -> bool {
    (a: Span, b: Span) => a.start < b.start
  }

  function RankOne(lower: char -> string, file: ProjectFile, index: nat, terms: seq<string>): Option<Ranked> {
    match ScoreOf(Folded(lower, file.rel), terms)
    case None => None
    case Some(score) => Some(Ranked(score, Hit(index, Sort(score.spans, ByStart()))))
  }

  /** The visible files among the first `n` that hold every term, in the index's order. */
  function Candidates(lower: char -> string, files: seq<ProjectFile>, terms: seq<string>, includeHidden: bool, n: nat): seq<Ranked>
    requires n <= |files|
  {
    if n == 0 then []
    else
      var before, one := Candidates(lower, files, terms, includeHidden, n - 1), RankOne(lower, files[n - 1], n - 1, terms);
      if Visible(files[n - 1], includeHidden) && one.Some? then before + [one.value] else before
  }

  predicate PlaceBefore(a: Option<nat>, b: Option<nat>) {
    a.Some? && (b.None? || a.value < b.value)
  }

  /** More terms in the name first, then the earlier hit, then the index's order. */
  predicate Better(a: Ranked, b: Ranked) {
    a.score.inName > b.score.inName ||
    (a.score.inName == b.score.inName &&
     (PlaceBefore(a.score.earliest, b.score.earliest) ||
      (a.score.earliest == b.score.earliest && a.hit.index < b.hit.index)))
  }

  function Best(): (Ranked, Ranked) -> bool {
    (a: Ranked, b: Ranked) => Better(a, b)
  }

  /** The visible files among the first `n`, as hits without spans. */
  function Unranked(files: seq<ProjectFile>, includeHidden: bool, n: nat): seq<Hit>
    requires n <= |files|
  {
    if n == 0 then []
    else Unranked(files, includeHidden, n - 1) + if Visible(files[n - 1], includeHidden) then [Hit(n - 1, [])] else []
  }

  function Take<T>(s: seq<T>, n: nat): (r: seq<T>) {
    if |s| <= n then s else s[..n]
  }

  function HitsOf(ranked: seq<Ranked>): (hits: seq<Hit>)
    ensures |hits| == |ranked|
  {
    seq(|ranked|, i requires 0 <= i < |ranked| => ranked[i].hit)
  }

  function RankTerms(lower: char -> string, files: seq<ProjectFile>, terms: seq<string>, includeHidden: bool): (seq<Hit>, bool) {
    if terms == [] then
      var hits := Unranked(files, includeHidden, |files|);
      (Take(hits, SHOWN), |hits| > SHOWN)
    else
      var ranked := Sort(Candidates(lower, files, terms, includeHidden, |files|), Best());
      (HitsOf(Take(ranked, SHOWN)), |ranked| > SHOWN)
  }

  /** `more` holds when the full ranking is longer than what `hits` has of it. */
  method Rank(lower: char -> string, files: seq<ProjectFile>, query: string, includeHidden: bool) returns (hits: seq<Hit>, more: bool)
    ensures (hits, more) == RankTerms(lower, files, TermsOf(lower, query), includeHidden)
  {
    var terms := TermsOf(lower, query);
    if terms == [] {
      var found := FirstVisible(files, includeHidden);
      return Take(found, SHOWN), |found| > SHOWN;
    }
    var scored: seq<Ranked> := [];
    for index := 0 to |files|
      invariant scored == Candidates(lower, files, terms, includeHidden, index)
    {
      if Visible(files[index], includeHidden) {
        var score := ScorePath(Folded(lower, files[index].rel), terms);
        if score.Some? {
          scored := scored + [Ranked(score.value, Hit(index, Sort(score.value.spans, ByStart())))];
        }
      }
    }
    var ranked := Sort(scored, Best());
    return HitsOf(Take(ranked, SHOWN)), |ranked| > SHOWN;
  }

  /** The visible files up to one past those shown. */
  method FirstVisible(files: seq<ProjectFile>, includeHidden: bool) returns (hits: seq<Hit>)
    ensures Take(hits, SHOWN) == Take(Unranked(files, includeHidden, |files|), SHOWN)
    ensures |hits| > SHOWN <==> |Unranked(files, includeHidden, |files|)| > SHOWN
  {
    hits := [];
    for index := 0 to |files|
      invariant hits == Unranked(files, includeHidden, index) && |hits| <= SHOWN
    {
      if Visible(files[index], includeHidden) {
        hits := hits + [Hit(index, [])];
        if |hits| > SHOWN {
          UnrankedGrows(files, includeHidden, index + 1, |files|);
          return;
        }
      }
    }
  }

  lemma {:induction false} UnrankedGrows(files: seq<ProjectFile>, includeHidden: bool, m: nat, n: nat)
    requires m <= n <= |files|
    ensures Unranked(files, includeHidden, m) <= Unranked(files, includeHidden, n)
  {
    if m < n {
      UnrankedGrows(files, includeHidden, m, n - 1);
    }
  }

  method ScorePath(path: string, terms: seq<string>) returns (r: Option<Score>)
    ensures r == ScoreOf(path, terms)
  {
    var score := Score(0, None, []);
    for k := 0 to |terms|
      invariant ScoreOf(path, terms[..k]) == Some(score)
    {
      assert terms[..k + 1][..k] == terms[..k];
      var hit := TermHit(path, terms[k]);
      if hit.None? {
        MissingStays(path, terms, k + 1);
        return None;
      }
      score := WithHit(score, path, terms[k], hit.value.0, hit.value.1);
    }
    assert terms[..|terms|] == terms;
    return Some(score);
  }

  lemma {:induction false} MissingStays(path: string, terms: seq<string>, n: nat)
    requires n <= |terms| && ScoreOf(path, terms[..n]).None?
    ensures ScoreOf(path, terms).None?
    decreases |terms|
  {
    if n < |terms| {
      var init := terms[..|terms| - 1];
      assert init[..n] == terms[..n];
      MissingStays(path, init, n);
    } else {
      assert terms[..n] == terms;
    }
  }
}

/** What the ranking promises. */
module QuickOpenLaws {
  import opened Outcome
  import opened Chars
  import opened Sorting
  import opened QuickOpen

  // ---------- terms ----------

  predicate Blank(s: string) {
    forall k :: 0 <= k < |s| ==> IsWhitespace(s[k])
  }

  /** A run without white space that neither end can be moved out of. */
  predicate IsWord(s: string, word: Span) {
    word.start < word.end <= |s| && (forall k :: word.start <= k < word.end ==> !IsWhitespace(s[k])) &&
    (word.start > 0 ==> IsWhitespace(s[word.start - 1])) && (word.end < |s| ==> IsWhitespace(s[word.end]))
  }

  ghost predicate Covers(words: seq<Span>, i: int) {
    exists k :: 0 <= k < |words| && words[k].start <= i < words[k].end
  }

  /** The words of `s` from the `i`th character on: all of them, each once, left to right. */
  ghost predicate AreWords(s: string, i: nat, words: seq<Span>) {
    (forall k :: 0 <= k < |words| ==> i <= words[k].start && IsWord(s, words[k])) && Apart(words) && AllCovered(s, i, words)
  }

  predicate Apart(words: seq<Span>) {
    forall j, k :: 0 <= j < k < |words| ==> words[j].end < words[k].start
  }

  ghost predicate AllCovered(s: string, i: nat, words: seq<Span>) {
    forall c :: i <= c < |s| && !IsWhitespace(s[c]) ==> Covers(words, c)
  }

  lemma {:induction false} WordsAreWords(s: string, i: nat)
    requires i <= |s| && (0 < i < |s| ==> IsWhitespace(s[i - 1]) || IsWhitespace(s[i]))
    ensures AreWords(s, i, WordsFrom(s, i))
    decreases |s| - i
  {
    if i < |s| {
      if IsWhitespace(s[i]) {
        WordsAreWords(s, i + 1);
      } else {
        WordsAreWords(s, WordEnd(s, i));
        OneMoreWord(s, i, WordsFrom(s, WordEnd(s, i)));
      }
    }
  }

  lemma {:induction false} OneMoreWord(s: string, i: nat, rest: seq<Span>)
    requires i < |s| && !IsWhitespace(s[i]) && (0 < i ==> IsWhitespace(s[i - 1]))
    requires AreWords(s, WordEnd(s, i), rest)
    ensures AreWords(s, i, [Span(i, WordEnd(s, i))] + rest)
  {
    var word := Span(i, WordEnd(s, i));
    assert IsWord(s, word);
    OneMoreCovers(s, word, rest);
    forall k | 0 <= k < |rest|
      ensures word.end < rest[k].start
    {
      assert IsWord(s, rest[k]) && word.end <= rest[k].start;
      assert !IsWhitespace(s[rest[k].start]);
    }
    OneMoreApart(word, rest);
  }

  lemma {:induction false} OneMoreApart(word: Span, rest: seq<Span>)
    requires Apart(rest) && forall k :: 0 <= k < |rest| ==> word.end < rest[k].start
    ensures Apart([word] + rest)
  {
  }

  lemma {:induction false} OneMoreCovers(s: string, word: Span, rest: seq<Span>)
    requires AllCovered(s, word.end, rest)
    ensures AllCovered(s, word.start, [word] + rest)
  {
    var words := [word] + rest;
    forall c | word.start <= c < |s| && !IsWhitespace(s[c])
      ensures Covers(words, c)
    {
      if c < word.end {
        assert words[0].start <= c < words[0].end;
      } else {
        assert Covers(rest, c);
        var k :| 0 <= k < |rest| && rest[k].start <= c < rest[k].end;
        assert words[k + 1].start <= c < words[k + 1].end;
      }
    }
  }

  /** The terms of a query are its words, folded: every longest run without white space, in order. None
      is empty, and there is none exactly when the query is blank. */
  lemma {:induction false} TermsAreWords(lower: char -> string, query: string)
    ensures var words, terms := WordsFrom(query, 0), TermsOf(lower, query);
      AreWords(query, 0, words) && |terms| == |words| &&
      forall k :: 0 <= k < |terms| ==>
        terms[k] != "" && terms[k] == Folded(lower, query[words[k].start..words[k].end])
    ensures TermsOf(lower, query) == [] <==> Blank(query)
  {
    var words := WordsFrom(query, 0);
    WordsAreWords(query, 0);
    if words != [] {
      assert IsWord(query, words[0]) && !IsWhitespace(query[words[0].start]);
    } else {
      assert forall c :: 0 <= c < |query| ==> !Covers(words, c);
    }
  }

  // ---------- case ----------

  /** The same but for case: the same characters, or two with one lower-case form of one character. */
  predicate SameButCase(lower: char -> string, a: string, b: string) {
    |a| == |b| && forall i :: 0 <= i < |a| ==> a[i] == b[i] || (lower(a[i]) == lower(b[i]) && |lower(a[i])| == 1)
  }

  /** A path is found, scored and marked alike however it is capitalised, */
  lemma {:induction false} CaseOfPathIsIgnored(lower: char -> string, a: ProjectFile, b: ProjectFile, index: nat, terms: seq<string>)
    requires SameButCase(lower, a.rel, b.rel)
    ensures RankOne(lower, a, index, terms) == RankOne(lower, b, index, terms)
  {
    assert Folded(lower, a.rel) == Folded(lower, b.rel);
  }

  lemma {:induction false} SameWords(a: string, b: string, i: nat)
    requires |a| == |b| && i <= |a| && forall k :: 0 <= k < |a| ==> IsWhitespace(a[k]) == IsWhitespace(b[k])
    ensures WordEnd(a, i) == WordEnd(b, i) && WordsFrom(a, i) == WordsFrom(b, i)
    decreases |a| - i
  {
    if i < |a| {
      SameWords(a, b, i + 1);
      if !IsWhitespace(a[i]) {
        SameWords(a, b, WordEnd(a, i));
      }
    }
  }

  lemma {:induction false} FoldedPart(lower: char -> string, a: string, b: string, i: nat, j: nat)
    requires SameButCase(lower, a, b) && i <= j <= |a|
    ensures Folded(lower, a[i..j]) == Folded(lower, b[i..j])
  {
    assert forall k :: i <= k < j ==> Fold(lower, a[k]) == Fold(lower, b[k]);
  }

  /** and so is a query, as long as white space stays white space. */
  lemma {:induction false} CaseOfQueryIsIgnored(lower: char -> string, a: string, b: string)
    requires SameButCase(lower, a, b) && forall k :: 0 <= k < |a| ==> IsWhitespace(a[k]) == IsWhitespace(b[k])
    ensures TermsOf(lower, a) == TermsOf(lower, b)
  {
    SameWords(a, b, 0);
    var words := WordsFrom(a, 0);
    forall k | 0 <= k < |words|
      ensures TermsOf(lower, a)[k] == TermsOf(lower, b)[k]
    {
      FoldedPart(lower, a, b, words[k].start, words[k].end);
    }
  }

  // ---------- one file ----------

  ghost predicate Holds(path: string, term: string) {
    exists i :: 0 <= i <= |path| && OccursAt(path, term, i)
  }

  ghost predicate HoldsAll(path: string, terms: seq<string>) {
    forall k :: 0 <= k < |terms| ==> Holds(path, terms[k])
  }

  lemma {:induction false} InTail(path: string, from: nat, term: string, i: nat)
    requires from <= |path|
    ensures OccursAt(path[from..], term, i) <==> OccursAt(path, term, from + i)
  {
    if from + i + |term| <= |path| {
      assert path[from..][i..i + |term|] == path[from + i..from + i + |term|];
    }
  }

  /** The span of a term: it reads as the term, it is in the name whenever the name holds the term, and
      it is the first there, or else the first in the path. */
  ghost predicate SpanOf(path: string, term: string, at: nat, named: bool) {
    var name := NameStart(path);
    OccursAt(path, term, at) &&
    if named then name <= at && forall k :: name <= k < at ==> !OccursAt(path, term, k)
    else (forall k :: 0 <= k < at ==> !OccursAt(path, term, k)) && (forall k :: name <= k <= |path| ==> !OccursAt(path, term, k))
  }

  lemma {:induction false} TermHitIs(path: string, term: string)
    requires term != ""
    ensures TermHit(path, term).Some? <==> Holds(path, term)
    ensures TermHit(path, term).Some? ==> SpanOf(path, term, TermHit(path, term).value.0, TermHit(path, term).value.1)
  {
    match FindChars(path[NameStart(path)..], term)
    case Some(i) => FoundInName(path, term, i);
    case None => NotInName(path, term);
  }

  lemma {:induction false} FoundInName(path: string, term: string, i: nat)
    requires FindChars(path[NameStart(path)..], term) == Some(i)
    ensures SpanOf(path, term, NameStart(path) + i, true) && Holds(path, term)
  {
    var name := NameStart(path);
    InTail(path, name, term, i);
    forall k | name <= k < name + i
      ensures !OccursAt(path, term, k)
    {
      InTail(path, name, term, k - name);
    }
  }

  lemma {:induction false} NotInName(path: string, term: string)
    requires term != "" && FindChars(path[NameStart(path)..], term) == None
    ensures forall k :: NameStart(path) <= k <= |path| ==> !OccursAt(path, term, k)
  {
    var name := NameStart(path);
    forall k | name <= k <= |path|
      ensures !OccursAt(path, term, k)
    {
      InTail(path, name, term, k - name);
    }
  }

  /** The `k`th span found is the `k`th term's. */
  ghost predicate SpansMatch(path: string, terms: seq<string>, spans: seq<Span>) {
    |spans| == |terms| &&
    forall k :: 0 <= k < |terms| ==> IsSpanFor(path, terms[k], spans[k])
  }

  ghost predicate IsSpanFor(path: string, term: string, span: Span) {
    span.end == span.start + |term| && (SpanOf(path, term, span.start, true) || SpanOf(path, term, span.start, false))
  }

  /** A path is scored exactly when it holds every term, and each term has its span. */
  lemma {:induction false} ScoredExactly(path: string, terms: seq<string>)
    requires forall k :: 0 <= k < |terms| ==> terms[k] != ""
    ensures ScoreOf(path, terms).Some? <==> HoldsAll(path, terms)
    ensures ScoreOf(path, terms).Some? ==> SpansMatch(path, terms, ScoreOf(path, terms).value.spans)
    ensures ScoreOf(path, terms).Some? && terms != [] ==> ScoreOf(path, terms).value.earliest.Some?
  {
    if terms != [] {
      var init, last := terms[..|terms| - 1], terms[|terms| - 1];
      ScoredExactly(path, init);
      TermHitIs(path, last);
      HoldsOneMore(path, init, last);
      ScoreOneMore(path, init, last);
      assert init + [last] == terms;
      if ScoreOf(path, terms).Some? {
        MatchOneMore(path, init, ScoreOf(path, init).value.spans, last, LastSpan(path, last));
      }
    }
  }

  ghost function LastSpan(path: string, term: string): Span
    requires TermHit(path, term).Some?
  {
    var at := TermHit(path, term).value.0;
    Span(at, at + |term|)
  }

  lemma {:induction false} ScoreOneMore(path: string, init: seq<string>, last: string)
    ensures ScoreOf(path, init + [last]).Some? <==> ScoreOf(path, init).Some? && TermHit(path, last).Some?
    ensures ScoreOf(path, init + [last]).Some? ==>
      ScoreOf(path, init + [last]).value.spans == ScoreOf(path, init).value.spans + [LastSpan(path, last)] &&
      ScoreOf(path, init + [last]).value.earliest.Some?
  {
    assert (init + [last])[..|init|] == init;
  }

  lemma {:induction false} HoldsOneMore(path: string, init: seq<string>, last: string)
    ensures HoldsAll(path, init + [last]) <==> HoldsAll(path, init) && Holds(path, last)
  {
    var terms := init + [last];
    assert terms[|init|] == last && forall k :: 0 <= k < |init| ==> terms[k] == init[k];
  }

  lemma {:induction false} MatchOneMore(path: string, init: seq<string>, spans: seq<Span>, last: string, span: Span)
    requires SpansMatch(path, init, spans) && IsSpanFor(path, last, span)
    ensures SpansMatch(path, init + [last], spans + [span])
  {
  }

  /** The number of terms the name holds. */
  ghost function NamedCount(path: string, terms: seq<string>): nat {
    if terms == [] then 0
    else NamedCount(path, terms[..|terms| - 1]) + if Holds(path[NameStart(path)..], terms[|terms| - 1]) then 1 else 0
  }

  /** What a file is ranked by: how many of the terms its name holds, then a place that tells hits in the
      name from hits in the folders only. */
  lemma {:induction false} NameHitsCount(path: string, terms: seq<string>)
    requires (forall k :: 0 <= k < |terms| ==> terms[k] != "") && ScoreOf(path, terms).Some?
    ensures ScoreOf(path, terms).value.inName == NamedCount(path, terms)
    ensures var earliest := ScoreOf(path, terms).value.earliest;
      earliest.Some? && earliest.value < |path| <==> NamedCount(path, terms) > 0
  {
    if terms != [] {
      NameHitsCount(path, terms[..|terms| - 1]);
    }
  }

  /** The place a term gives a path: counted from the name if the name holds it, and behind every place
      in the name if not. */
  function PlaceOf(path: string, term: string): nat
    requires TermHit(path, term).Some?
    ensures TermHit(path, term).value.1 ==> NameStart(path) <= TermHit(path, term).value.0
  {
    var (at, named) := TermHit(path, term).value;
    if named then at - NameStart(path) else |path| + at
  }

  ghost predicate IsLeastPlace(path: string, terms: seq<string>, place: nat) {
    (forall k :: 0 <= k < |terms| ==> TermHit(path, terms[k]).Some? && place <= PlaceOf(path, terms[k])) &&
    exists k :: 0 <= k < |terms| && TermHit(path, terms[k]).Some? && place == PlaceOf(path, terms[k])
  }

  /** Of all the terms' places a path is ranked by the least. */
  lemma {:induction false} EarliestIsLeast(path: string, terms: seq<string>)
    requires terms != [] && ScoreOf(path, terms).Some?
    ensures ScoreOf(path, terms).value.earliest.Some? && IsLeastPlace(path, terms, ScoreOf(path, terms).value.earliest.value)
  {
    var init, last := terms[..|terms| - 1], terms[|terms| - 1];
    var before := ScoreOf(path, init).value.earliest;
    if init == [] {
      assert terms == [last];
      LeastOfOne(path, last);
    } else {
      EarliestIsLeast(path, init);
      LeastOfMore(path, init, before.value, last);
      assert terms == init + [last];
    }
  }

  lemma {:induction false} LeastOfOne(path: string, term: string)
    requires TermHit(path, term).Some?
    ensures IsLeastPlace(path, [term], PlaceOf(path, term))
  {
    assert [term][0] == term;
  }

  lemma {:induction false} LeastOfMore(path: string, init: seq<string>, place: nat, last: string)
    requires IsLeastPlace(path, init, place) && TermHit(path, last).Some?
    ensures IsLeastPlace(path, init + [last], if place < PlaceOf(path, last) then place else PlaceOf(path, last))
  {
    var terms := init + [last];
    assert terms[|init|] == last && forall k :: 0 <= k < |init| ==> terms[k] == init[k];
    var k :| 0 <= k < |init| && TermHit(path, init[k]).Some? && place == PlaceOf(path, init[k]);
    assert terms[k] == init[k];
  }

  // ---------- all files ----------

  ghost predicate Matches(lower: char -> string, files: seq<ProjectFile>, terms: seq<string>, includeHidden: bool, index: nat) {
    index < |files| && Visible(files[index], includeHidden) && HoldsAll(Folded(lower, files[index].rel), terms)
  }

  /** A file's own rank. */
  ghost predicate IsRankOf(lower: char -> string, files: seq<ProjectFile>, terms: seq<string>, r: Ranked) {
    r.hit.index < |files| && RankOne(lower, files[r.hit.index], r.hit.index, terms) == Some(r)
  }

  /** Matches among the first `n` files, each with its own rank. */
  ghost predicate AllRanked(lower: char -> string, files: seq<ProjectFile>, terms: seq<string>, includeHidden: bool, n: nat, c: seq<Ranked>) {
    forall i :: 0 <= i < |c| ==> IsMatch(lower, files, terms, includeHidden, n, c[i])
  }

  ghost predicate IsMatch(lower: char -> string, files: seq<ProjectFile>, terms: seq<string>, includeHidden: bool, n: nat, r: Ranked) {
    r.hit.index < n && IsRankOf(lower, files, terms, r) && Matches(lower, files, terms, includeHidden, r.hit.index)
  }

  ghost predicate Has(c: seq<Ranked>, index: nat) {
    exists i :: 0 <= i < |c| && c[i].hit.index == index
  }

  lemma {:induction false} HasMember(c: seq<Ranked>, d: seq<Ranked>, index: nat)
    requires Has(c, index) && forall r :: r in c ==> r in d
    ensures Has(d, index)
  {
    var i :| 0 <= i < |c| && c[i].hit.index == index;
    assert c[i] in d;
    var j :| 0 <= j < |d| && d[j] == c[i];
    assert d[j].hit.index == index;
  }

  predicate Ascending(c: seq<Ranked>) {
    forall i, j :: 0 <= i < j < |c| ==> c[i].hit.index < c[j].hit.index
  }

  lemma {:induction false} OneCandidate(lower: char -> string, files: seq<ProjectFile>, terms: seq<string>, includeHidden: bool, index: nat)
    requires index < |files| && forall k :: 0 <= k < |terms| ==> terms[k] != ""
    ensures var one := RankOne(lower, files[index], index, terms);
      (Visible(files[index], includeHidden) && one.Some? <==> Matches(lower, files, terms, includeHidden, index)) &&
      (one.Some? ==> one.value.hit.index == index && IsRankOf(lower, files, terms, one.value))
  {
    ScoredExactly(Folded(lower, files[index].rel), terms);
  }

  lemma {:induction false} NextIsMatch(lower: char -> string, files: seq<ProjectFile>, terms: seq<string>, includeHidden: bool, n: nat, r: Ranked)
    requires 0 < n <= |files| && r.hit.index == n - 1
    requires IsRankOf(lower, files, terms, r) && Matches(lower, files, terms, includeHidden, n - 1)
    ensures IsMatch(lower, files, terms, includeHidden, n, r)
  {
  }

  lemma {:induction false} TakenIsMatch(lower: char -> string, files: seq<ProjectFile>, terms: seq<string>, includeHidden: bool, n: nat,
                                        one: Option<Ranked>, taken: bool)
    requires 0 < n <= |files| && (forall k :: 0 <= k < |terms| ==> terms[k] != "") && one == RankOne(lower, files[n - 1], n - 1, terms)
    requires taken ==> Visible(files[n - 1], includeHidden) && one.Some?
    ensures taken ==> one.Some? && one.value.hit.index == n - 1 && IsMatch(lower, files, terms, includeHidden, n, one.value)
  {
    if taken {
      OneCandidate(lower, files, terms, includeHidden, n - 1);
      NextIsMatch(lower, files, terms, includeHidden, n, one.value);
    }
  }

  lemma {:induction false} CandidatesAre(lower: char -> string, files: seq<ProjectFile>, terms: seq<string>, includeHidden: bool, n: nat)
    requires n <= |files| && forall k :: 0 <= k < |terms| ==> terms[k] != ""
    ensures var c := Candidates(lower, files, terms, includeHidden, n);
      AllRanked(lower, files, terms, includeHidden, n, c) && Ascending(c)
  {
    if n > 0 {
      var before, one := Candidates(lower, files, terms, includeHidden, n - 1), RankOne(lower, files[n - 1], n - 1, terms);
      CandidatesAre(lower, files, terms, includeHidden, n - 1);
      var taken := Visible(files[n - 1], includeHidden) && one.Some?;
      TakenIsMatch(lower, files, terms, includeHidden, n, one, taken);
      OneMoreRanked(lower, files, terms, includeHidden, n, before, one, taken);
    }
  }

  lemma {:induction false} OneMoreRanked(lower: char -> string, files: seq<ProjectFile>, terms: seq<string>, includeHidden: bool, n: nat,
                                         before: seq<Ranked>, one: Option<Ranked>, taken: bool)
    requires n > 0 && AllRanked(lower, files, terms, includeHidden, n - 1, before) && Ascending(before)
    requires taken ==>
      one.Some? && one.value.hit.index == n - 1 && IsMatch(lower, files, terms, includeHidden, n, one.value)
    ensures var c := if taken then before + [one.value] else before;
      AllRanked(lower, files, terms, includeHidden, n, c) && Ascending(c)
  {
    forall i | 0 <= i < |before|
      ensures IsMatch(lower, files, terms, includeHidden, n, before[i]) && before[i].hit.index < n - 1
    {
      assert IsMatch(lower, files, terms, includeHidden, n - 1, before[i]);
    }
  }

  lemma {:induction false} EveryMatchIsCandidate(lower: char -> string, files: seq<ProjectFile>, terms: seq<string>, includeHidden: bool,
                                                 n: nat, index: nat)
    requires index < n <= |files| && forall k :: 0 <= k < |terms| ==> terms[k] != ""
    requires Matches(lower, files, terms, includeHidden, index)
    ensures Has(Candidates(lower, files, terms, includeHidden, n), index)
    decreases n
  {
    var before, c := Candidates(lower, files, terms, includeHidden, n - 1), Candidates(lower, files, terms, includeHidden, n);
    if index < n - 1 {
      EveryMatchIsCandidate(lower, files, terms, includeHidden, n - 1, index);
      HasMember(before, c, index);
    } else {
      OneCandidate(lower, files, terms, includeHidden, n - 1);
      assert c[|c| - 1].hit.index == index;
    }
  }

  lemma {:induction false} BestIsOrder()
    ensures IsOrder(Best())
  {
  }

  /** The whole ranking, before it is cut: every match, each once, in strictly descending merit. */
  ghost predicate IsRanking(lower: char -> string, files: seq<ProjectFile>, terms: seq<string>, includeHidden: bool, ranked: seq<Ranked>) {
    AllRanked(lower, files, terms, includeHidden, |files|, ranked) &&
    (forall index :: Matches(lower, files, terms, includeHidden, index) ==> Has(ranked, index)) &&
    (forall i, j :: 0 <= i < j < |ranked| ==> Better(ranked[i], ranked[j]))
  }

  function OtherFile(): (Ranked, Ranked) -> bool {
    (a: Ranked, b: Ranked) => a.hit.index != b.hit.index
  }

  lemma {:induction false} SortIsStrict(c: seq<Ranked>)
    requires Ascending(c)
    ensures forall i, j :: 0 <= i < j < |c| ==> Better(Sort(c, Best())[i], Sort(c, Best())[j])
  {
    var ranked := Sort(c, Best());
    BestIsOrder();
    SortSorts(c, Best());
    assert IsSymmetric(OtherFile());
    forall i, j | 0 <= i < j < |c|
      ensures OtherFile()(c[i], c[j])
    {
      assert c[i].hit.index < c[j].hit.index;
    }
    SortKeepsPairwise(c, Best(), OtherFile());
    forall i, j | 0 <= i < j < |ranked|
      ensures Better(ranked[i], ranked[j])
    {
      assert !Best()(ranked[j], ranked[i]);
      assert OtherFile()(ranked[i], ranked[j]);
    }
  }

  lemma {:induction false} SortedIsRanking(lower: char -> string, files: seq<ProjectFile>, terms: seq<string>, includeHidden: bool)
    requires forall k :: 0 <= k < |terms| ==> terms[k] != ""
    ensures IsRanking(lower, files, terms, includeHidden, Sort(Candidates(lower, files, terms, includeHidden, |files|), Best()))
  {
    var c := Candidates(lower, files, terms, includeHidden, |files|);
    var ranked := Sort(c, Best());
    CandidatesAre(lower, files, terms, includeHidden, |files|);
    SortIsStrict(c);
    SortKeepsMembers(c, Best());
    DrawnAreRanked(lower, files, terms, includeHidden, c, ranked);
    forall index | Matches(lower, files, terms, includeHidden, index)
      ensures Has(ranked, index)
    {
      EveryMatchIsCandidate(lower, files, terms, includeHidden, |files|, index);
      HasMember(c, ranked, index);
    }
  }

  lemma {:induction false} DrawnAreRanked(lower: char -> string, files: seq<ProjectFile>, terms: seq<string>, includeHidden: bool,
                                          c: seq<Ranked>, d: seq<Ranked>)
    requires AllRanked(lower, files, terms, includeHidden, |files|, c) && forall r :: r in d ==> r in c
    ensures AllRanked(lower, files, terms, includeHidden, |files|, d)
  {
    forall i | 0 <= i < |d|
      ensures IsMatch(lower, files, terms, includeHidden, |files|, d[i])
    {
      assert d[i] in c;
    }
  }

  lemma {:induction false} FirstHits(ranked: seq<Ranked>)
    ensures var hits := HitsOf(Take(ranked, SHOWN));
      |hits| == (if |ranked| > SHOWN then SHOWN else |ranked|) && forall i :: 0 <= i < |hits| ==> hits[i] == ranked[i].hit
  {
  }

  /** The best of a ranking of all matches, at most `SHOWN` of them, and the flag exactly when there are
      more. */
  ghost predicate ShowsBest(lower: char -> string, files: seq<ProjectFile>, terms: seq<string>, includeHidden: bool,
                            hits: seq<Hit>, more: bool) {
    exists ranked :: IsRanking(lower, files, terms, includeHidden, ranked) && IsTop(ranked, hits, more)
  }

  ghost predicate IsTop(ranked: seq<Ranked>, hits: seq<Hit>, more: bool) {
    (more <==> |ranked| > SHOWN) && |hits| == (if more then SHOWN else |ranked|) &&
    forall i :: 0 <= i < |hits| ==> hits[i] == ranked[i].hit
  }

  lemma {:induction false} BestOfTerms(lower: char -> string, files: seq<ProjectFile>, terms: seq<string>, includeHidden: bool)
    requires terms != [] && forall k :: 0 <= k < |terms| ==> terms[k] != ""
    ensures var (hits, more) := RankTerms(lower, files, terms, includeHidden);
      ShowsBest(lower, files, terms, includeHidden, hits, more)
  {
    var ranked := Sort(Candidates(lower, files, terms, includeHidden, |files|), Best());
    SortedIsRanking(lower, files, terms, includeHidden);
    FirstHits(ranked);
    assert IsTop(ranked, HitsOf(Take(ranked, SHOWN)), |ranked| > SHOWN);
  }

  /** What is shown for a query that is not blank: the best of all the files that hold every one of its
      words. */
  lemma {:induction false} BestAreShown(lower: char -> string, files: seq<ProjectFile>, query: string, includeHidden: bool)
    requires !Blank(query)
    ensures var terms := TermsOf(lower, query);
      var (hits, more) := RankTerms(lower, files, terms, includeHidden);
      ShowsBest(lower, files, terms, includeHidden, hits, more)
  {
    TermsAreWords(lower, query);
    BestOfTerms(lower, files, TermsOf(lower, query), includeHidden);
  }

  /** And for a blank one: the first of the visible files. */
  lemma {:induction false} BlankShowsAll(lower: char -> string, files: seq<ProjectFile>, query: string, includeHidden: bool)
    requires Blank(query)
    ensures var all := Unranked(files, includeHidden, |files|);
      RankTerms(lower, files, TermsOf(lower, query), includeHidden) == (Take(all, SHOWN), |all| > SHOWN)
  {
    TermsAreWords(lower, query);
  }

  lemma {:induction false} ByStartIsOrder()
    ensures IsOrder(ByStart())
  {
  }

  /** The spans of a hit: left to right, and just the spans of the terms. */
  lemma {:induction false} SpansAreTheTerms(lower: char -> string, files: seq<ProjectFile>, terms: seq<string>, r: Ranked)
    requires (forall k :: 0 <= k < |terms| ==> terms[k] != "") && IsRankOf(lower, files, terms, r)
    ensures var path := Folded(lower, files[r.hit.index].rel);
      SpansMatch(path, terms, r.score.spans) && multiset(r.hit.spans) == multiset(r.score.spans)
    ensures forall i, j :: 0 <= i < j < |r.hit.spans| ==> r.hit.spans[i].start <= r.hit.spans[j].start
  {
    ScoredExactly(Folded(lower, files[r.hit.index].rel), terms);
    ByStartIsOrder();
    SortSorts(r.score.spans, ByStart());
    forall i, j | 0 <= i < j < |r.hit.spans|
      ensures r.hit.spans[i].start <= r.hit.spans[j].start
    {
      assert !ByStart()(r.hit.spans[j], r.hit.spans[i]);
    }
  }

  /** With nothing typed, the visible files in the index's order. */
  lemma {:induction false} AllInOrder(files: seq<ProjectFile>, includeHidden: bool, n: nat)
    requires n <= |files|
    ensures var u := Unranked(files, includeHidden, n);
      (forall i :: 0 <= i < |u| ==> u[i].index < n && u[i].spans == [] && Visible(files[u[i].index], includeHidden)) &&
      (forall i, j :: 0 <= i < j < |u| ==> u[i].index < u[j].index) &&
      (forall k :: 0 <= k < n && Visible(files[k], includeHidden) ==> Hit(k, []) in u)
  {
    if n > 0 {
      AllInOrder(files, includeHidden, n - 1);
    }
  }
}
