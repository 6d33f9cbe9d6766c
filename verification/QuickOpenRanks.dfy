/** What a ranking means, said of the characters of query and paths. */
module QuickOpenRanks {
  import opened Outcome
  import opened Chars
  import opened Sorting
  import opened QuickOpen
  import opened QuickOpenLaws

  /** A character is folded to its lower-case form where that is one character, and else left as it is. */
  lemma {:induction false} FoldedIs(lower: char -> string, s: string, i: nat)
    requires i < |s|
    ensures Folded(lower, s)[i] == if |lower(s[i])| == 1 then lower(s[i])[0] else s[i]
  {
  }

  /** The characters of `term` stand in `s` from `i` on. */
  predicate ReadsAt(s: string, term: string, i: int) {
    0 <= i <= |s| - |term| && forall k :: 0 <= k < |term| ==> s[i + k] == term[k]
  }

  lemma {:induction false} OccursMeans(s: string, term: string, i: nat)
    ensures OccursAt(s, term, i) <==> ReadsAt(s, term, i)
  {
    if OccursAt(s, term, i) {
      var part := s[i..i + |term|];
      assert forall k :: 0 <= k < |part| ==> part[k] == s[i + k];
    }
  }

  /** Behind the last slash, or at the front. */
  predicate IsNameStart(path: string, n: nat) {
    n <= |path| && (n > 0 ==> path[n - 1] == '/') && forall k :: n <= k < |path| ==> path[k] != '/'
  }

  lemma {:induction false} OneNameStart(path: string, n: nat)
    ensures IsNameStart(path, n) <==> n == NameStart(path)
  {
    assert IsNameStart(path, NameStart(path));
    if IsNameStart(path, n) {
      OneStart(path, n, NameStart(path));
      OneStart(path, NameStart(path), n);
    }
  }

  lemma {:induction false} OneStart(path: string, m: nat, n: nat)
    requires IsNameStart(path, m) && IsNameStart(path, n)
    ensures n <= m
  {
  }

  /** The term stands in the path from `name` on. */
  predicate StandsBehind(path: string, name: nat, term: string) {
    exists k :: name <= k <= |path| && ReadsAt(path, term, k)
  }

  /** How many of the terms stand in the path from `name` on. */
  function TermsIn(path: string, name: nat, terms: seq<string>): nat {
    if terms == [] then 0
    else
      TermsIn(path, name, terms[..|terms| - 1]) +
      if StandsBehind(path, name, terms[|terms| - 1]) then 1 else 0
  }

  /** The place a term gives a path: its first in the name, counted from there, or its first in the path, counted
      behind all that. */
  predicate IsPlace(path: string, name: nat, term: string, place: int) {
    if StandsBehind(path, name, term)
    then ReadsAt(path, term, name + place) && place >= 0 && forall k :: name <= k < name + place ==> !ReadsAt(path, term, k)
    else
      ReadsAt(path, term, place - |path|) && forall k :: 0 <= k < place - |path| ==> !ReadsAt(path, term, k)
  }

  lemma {:induction false} PlaceIs(path: string, term: string)
    requires term != "" && TermHit(path, term).Some?
    ensures IsPlace(path, NameStart(path), term, PlaceOf(path, term))
  {
    TermHitIs(path, term);
    var (at, named) := TermHit(path, term).value;
    SpanReads(path, term, at, named);
  }

  lemma {:induction false} SpanReads(path: string, term: string, at: nat, named: bool)
    requires SpanOf(path, term, at, named)
    ensures ReadsAt(path, term, at)
    ensures named ==> NameStart(path) <= at && forall k :: NameStart(path) <= k < at ==> !ReadsAt(path, term, k)
    ensures !named ==> (forall k :: 0 <= k < at ==> !ReadsAt(path, term, k)) && forall k :: NameStart(path) <= k <= |path| ==> !ReadsAt(path, term, k)
  {
    OccursMeans(path, term, at);
    forall k: nat
      ensures OccursAt(path, term, k) <==> ReadsAt(path, term, k)
    {
      OccursMeans(path, term, k);
    }
  }

  lemma {:induction false} NamedAre(path: string, terms: seq<string>)
    ensures NamedCount(path, terms) == TermsIn(path, NameStart(path), terms)
  {
    if terms != [] {
      NamedAre(path, terms[..|terms| - 1]);
      NameHolds(path, terms[|terms| - 1]);
    }
  }

  lemma {:induction false} NameHolds(path: string, term: string)
    ensures Holds(path[NameStart(path)..], term) <==> StandsBehind(path, NameStart(path), term)
  {
    var name := NameStart(path);
    var tail := path[name..];
    forall k: nat
      ensures OccursAt(tail, term, k) <==> ReadsAt(path, term, name + k)
    {
      InTail(path, name, term, k);
      OccursMeans(path, term, name + k);
    }
    if i :| 0 <= i <= |tail| && OccursAt(tail, term, i) {
      assert ReadsAt(path, term, name + i);
    }
    if k :| name <= k <= |path| && ReadsAt(path, term, k) {
      assert OccursAt(tail, term, k - name);
    }
  }

  /** The least of the terms' places. */
  ghost predicate IsLeast(path: string, name: nat, terms: seq<string>, place: int) {
    (exists k :: 0 <= k < |terms| && IsPlace(path, name, terms[k], place)) &&
    forall k, p :: 0 <= k < |terms| && IsPlace(path, name, terms[k], p) ==> place <= p
  }

  lemma {:induction false} OnePlace(path: string, name: nat, term: string, p: int, q: int)
    requires IsPlace(path, name, term, p) && IsPlace(path, name, term, q)
    ensures p <= q
  {
  }

  lemma {:induction false} LeastIs(path: string, terms: seq<string>, place: nat)
    requires IsLeastPlace(path, terms, place) && forall k :: 0 <= k < |terms| ==> terms[k] != ""
    ensures IsLeast(path, NameStart(path), terms, place)
  {
    var name := NameStart(path);
    forall k | 0 <= k < |terms|
      ensures IsPlace(path, name, terms[k], PlaceOf(path, terms[k]))
    {
      PlaceIs(path, terms[k]);
    }
    forall k, p | 0 <= k < |terms| && IsPlace(path, name, terms[k], p)
      ensures place <= p
    {
      OnePlace(path, name, terms[k], PlaceOf(path, terms[k]), p);
    }
  }

  /** More terms in the name, or as many and an earlier least place, or the same place and earlier in the list. */
  predicate Precedes(named: nat, place: int, index: nat, otherNamed: nat, otherPlace: int, otherIndex: nat) {
    if named != otherNamed then named > otherNamed
    else if place != otherPlace then place < otherPlace
    else index < otherIndex
  }

  /** A file's score is that of its folded path. */
  lemma {:induction false} ScoreIsPaths(lower: char -> string, files: seq<ProjectFile>, terms: seq<string>, r: Ranked)
    requires IsRankOf(lower, files, terms, r)
    ensures ScoreOf(Folded(lower, files[r.hit.index].rel), terms) == Some(r.score)
  {
  }

  /** What decides between two scored paths. */
  lemma {:induction false} BetterMeans(terms: seq<string>, x: string, a: Ranked, p: nat, y: string, b: Ranked, q: nat)
    requires terms != [] && (forall k :: 0 <= k < |terms| ==> terms[k] != "")
    requires ScoreOf(x, terms) == Some(a.score) && a.score.earliest == Some(p)
    requires ScoreOf(y, terms) == Some(b.score) && b.score.earliest == Some(q)
    ensures IsLeast(x, NameStart(x), terms, p) && IsLeast(y, NameStart(y), terms, q)
    ensures Better(a, b) <==>
      Precedes(TermsIn(x, NameStart(x), terms), p, a.hit.index, TermsIn(y, NameStart(y), terms), q, b.hit.index)
  {
    RankIsRead(x, terms, a.score, p);
    RankIsRead(y, terms, b.score, q);
    Decides(a, p, b, q);
  }

  lemma {:induction false} Decides(a: Ranked, p: nat, b: Ranked, q: nat)
    requires a.score.earliest == Some(p) && b.score.earliest == Some(q)
    ensures Better(a, b) <==> Precedes(a.score.inName, p, a.hit.index, b.score.inName, q, b.hit.index)
  {
  }

  lemma {:induction false} RankIsRead(path: string, terms: seq<string>, score: Score, place: nat)
    requires terms != [] && (forall k :: 0 <= k < |terms| ==> terms[k] != "")
    requires ScoreOf(path, terms) == Some(score) && score.earliest == Some(place)
    ensures score.inName == TermsIn(path, NameStart(path), terms) && IsLeast(path, NameStart(path), terms, place)
  {
    NameHitsCount(path, terms);
    NamedAre(path, terms);
    EarliestIsLeast(path, terms);
    LeastIs(path, terms, place);
  }

  /** Every scored path has such a place. */
  lemma {:induction false} SomePlace(path: string, terms: seq<string>)
    requires terms != [] && (forall k :: 0 <= k < |terms| ==> terms[k] != "") && ScoreOf(path, terms).Some?
    ensures ScoreOf(path, terms).value.earliest.Some?
  {
    EarliestIsLeast(path, terms);
  }

  /** The files that match: visible, or all asked for, and holding every term. */
  lemma {:induction false} MatchMeans(lower: char -> string, files: seq<ProjectFile>, terms: seq<string>, includeHidden: bool, index: nat)
    requires index < |files|
    ensures Matches(lower, files, terms, includeHidden, index) <==>
      (includeHidden || !files[index].hidden) &&
      forall k :: 0 <= k < |terms| ==> StandsIn(Folded(lower, files[index].rel), terms[k])
  {
    var path := Folded(lower, files[index].rel);
    forall k | 0 <= k < |terms|
      ensures Holds(path, terms[k]) <==> StandsIn(path, terms[k])
    {
      HoldsMeans(path, terms[k]);
    }
  }

  predicate StandsIn(path: string, term: string) {
    exists i :: 0 <= i <= |path| && ReadsAt(path, term, i)
  }

  lemma {:induction false} HoldsMeans(path: string, term: string)
    ensures Holds(path, term) <==> StandsIn(path, term)
  {
    forall i: nat
      ensures OccursAt(path, term, i) <==> ReadsAt(path, term, i)
    {
      OccursMeans(path, term, i);
    }
  }

  /** No more than 200 hits are shown, and the flag says whether there are more. */
  lemma {:induction false} AtMostTwoHundred(ranked: seq<Ranked>, hits: seq<Hit>, more: bool)
    ensures IsTop(ranked, hits, more) <==>
      |hits| == (if |ranked| < 200 then |ranked| else 200) && (more <==> |ranked| > 200) &&
      forall i :: 0 <= i < |hits| ==> hits[i] == ranked[i].hit
  {
  }

  /** With nothing typed: the first 200 files that are visible, in the list's order. */
  lemma {:induction false} FirstAreShown(lower: char -> string, files: seq<ProjectFile>, includeHidden: bool)
    ensures var (hits, more) := RankTerms(lower, files, [], includeHidden);
      |hits| <= 200 && (more ==> |hits| == 200) && AreFirst(files, includeHidden, hits, more)
  {
    var all := Unranked(files, includeHidden, |files|);
    AllInOrder(files, includeHidden, |files|);
    forall i | 0 <= i < |all|
      ensures AreShown(files, includeHidden, all, i)
    {
      OneIsVisible(files, includeHidden, all, i);
    }
    var (hits, more) := RankTerms(lower, files, [], includeHidden);
    FrontOfAll(files, includeHidden, all, hits);
  }

  /** A visible file behind the ones before it. */
  predicate AreShown(files: seq<ProjectFile>, includeHidden: bool, hits: seq<Hit>, i: nat) {
    i < |hits| && hits[i].index < |files| && hits[i].spans == [] && (includeHidden || !files[hits[i].index].hidden) &&
    forall j :: 0 <= j < i ==> hits[j].index < hits[i].index
  }

  /** None before the last of them is missing, and none at all unless there are more. */
  predicate AreFirst(files: seq<ProjectFile>, includeHidden: bool, hits: seq<Hit>, more: bool) {
    (forall i :: 0 <= i < |hits| ==> AreShown(files, includeHidden, hits, i)) &&
    forall k :: 0 <= k < |files| && (includeHidden || !files[k].hidden) && (more ==> hits != [] && k < hits[|hits| - 1].index) ==>
      Hit(k, []) in hits
  }

  lemma {:induction false} OneIsVisible(files: seq<ProjectFile>, includeHidden: bool, all: seq<Hit>, i: nat)
    requires all == Unranked(files, includeHidden, |files|) && i < |all|
    ensures AreShown(files, includeHidden, all, i)
  {
    AllInOrder(files, includeHidden, |files|);
  }

  lemma {:induction false} FrontOfAll(files: seq<ProjectFile>, includeHidden: bool, all: seq<Hit>, hits: seq<Hit>)
    requires forall i :: 0 <= i < |all| ==> AreShown(files, includeHidden, all, i)
    requires forall k :: 0 <= k < |files| && Visible(files[k], includeHidden) ==> Hit(k, []) in all
    requires hits == if |all| <= 200 then all else all[..200]
    ensures AreFirst(files, includeHidden, hits, |all| > 200)
  {
    forall i | 0 <= i < |hits|
      ensures AreShown(files, includeHidden, hits, i)
    {
      assert AreShown(files, includeHidden, all, i);
      assert forall j :: 0 <= j <= i ==> hits[j] == all[j];
    }
    forall k | 0 <= k < |files| && (includeHidden || !files[k].hidden) && (|all| > 200 ==> k < hits[199].index)
      ensures Hit(k, []) in hits
    {
      assert Visible(files[k], includeHidden);
      var i :| 0 <= i < |all| && all[i] == Hit(k, []);
      assert AreShown(files, includeHidden, all, i);
      if |all| > 200 {
        assert hits[199] == all[199];
        assert i < 200;
        assert hits[i] == all[i];
      }
    }
  }
}
