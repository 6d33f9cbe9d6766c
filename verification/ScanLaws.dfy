/**
 * What the result of a whole scan is, told from its files alone; how small batches stay; and how soon a
 * worker nobody waits for is gone.
 */
module ScanLaws {
  import opened Outcome
  import opened Search
  import opened SearchLaws

  // ---------- what a scan finds ----------

  /** All the matches of the first `n` files, one file after the other. */
  function AllMatches(files: seq<Scanned>, n: nat): seq<FileMatch>
    requires n <= |files|
  {
    if n == 0 then [] else AllMatches(files, n - 1) + if files[n - 1].Matches? then files[n - 1].all else []
  }

  /** How many of the first `n` files could not be searched. */
  function SkippedAmong(files: seq<Scanned>, n: nat): nat
    requires n <= |files|
  {
    if n == 0 then 0 else SkippedAmong(files, n - 1) + if files[n - 1].Skipped? then 1 else 0
  }

  function Joined(hits: seq<FileHits>): seq<FileMatch> {
    if hits == [] then [] else Joined(hits[..|hits| - 1]) + hits[|hits| - 1].matches
  }

  /** At most 20,000 of them. */
  function Capped(all: seq<FileMatch>): seq<FileMatch> {
    if |all| <= 20_000 then all else all[..20_000]
  }

  lemma {:induction false} JoinedSnoc(hits: seq<FileHits>, h: FileHits)
    ensures Joined(hits + [h]) == Joined(hits) + h.matches
  {
    assert (hits + [h])[..|hits|] == hits;
  }

  lemma {:induction false} CappedMore(all: seq<FileMatch>, more: seq<FileMatch>)
    ensures var room := 20_000 - |Capped(all)|;
      Capped(all + more) == Capped(all) + more[..if |more| < room then |more| else room]
  {
  }

  /** The files that have hits, in their order. */
  ghost predicate ComeFrom(files: seq<Scanned>, n: nat, hits: seq<FileHits>, places: seq<nat>)
    requires n <= |files|
  {
    |places| == |hits| && (forall k :: 0 <= k < |hits| ==> places[k] < n && IsHitOf(files[places[k]], hits[k])) &&
    (forall j, k :: 0 <= j < k < |hits| ==> places[j] < places[k]) &&
    (forall k :: 0 <= k < |hits| - 1 ==> hits[k].matches == files[places[k]].all)
  }

  /** A file's own name, and the first of its matches, at least one. */
  predicate IsHitOf(file: Scanned, hit: FileHits) {
    file.Matches? && hit.rel == file.rel && hit.matches != [] && hit.matches <= file.all
  }

  ghost predicate Listed(files: seq<Scanned>, n: nat, hits: seq<FileHits>)
    requires n <= |files|
  {
    exists places :: ComeFrom(files, n, hits, places)
  }

  /** The result for the first `n` files: their matches up to the cap, in order, under the names of their own
      files and whole but for the last, and the files counted and skipped. */
  ghost predicate IsTally(files: seq<Scanned>, n: nat, t: Tally)
    requires n <= |files|
  {
    Joined(t.hits) == Capped(AllMatches(files, n)) && Listed(files, n, t.hits) &&
    t.files == n && t.skipped == SkippedAmong(files, n) && t.total == |Capped(AllMatches(files, n))|
  }

  lemma {:induction false} TallyIs(files: seq<Scanned>, n: nat)
    requires n <= |files|
    ensures IsTally(files, n, TallyOf(files, n))
  {
    if n == 0 {
      assert ComeFrom(files, 0, [], []);
    } else {
      TallyIs(files, n - 1);
      VisitedIs(files, n, TallyOf(files, n - 1));
    }
  }

  lemma {:induction false} VisitedIs(files: seq<Scanned>, n: nat, t: Tally)
    requires 0 < n <= |files| && IsTally(files, n - 1, t)
    ensures IsTally(files, n, Visited(t, files[n - 1]))
  {
    var places :| ComeFrom(files, n - 1, t.hits, places);
    if files[n - 1].Skipped? {
      PassedOver(files, n, t, places);
    } else {
      var all := files[n - 1].all;
      var room := 20_000 - t.total;
      CappedMore(AllMatches(files, n - 1), all);
      if all == [] || room == 0 {
        NothingTaken(files, n, t, places);
      } else {
        SomeTaken(files, n, t, places, if |all| < room then |all| else room);
      }
    }
  }

  lemma {:induction false} PassedOver(files: seq<Scanned>, n: nat, t: Tally, places: seq<nat>)
    requires 0 < n <= |files| && IsTally(files, n - 1, t) && ComeFrom(files, n - 1, t.hits, places) && files[n - 1].Skipped?
    ensures IsTally(files, n, Visited(t, files[n - 1]))
  {
    assert ComeFrom(files, n, t.hits, places);
  }

  lemma {:induction false} NothingTaken(files: seq<Scanned>, n: nat, t: Tally, places: seq<nat>)
    requires 0 < n <= |files| && IsTally(files, n - 1, t) && ComeFrom(files, n - 1, t.hits, places) && files[n - 1].Matches?
    requires files[n - 1].all == [] || t.total == 20_000
    requires Capped(AllMatches(files, n)) == Capped(AllMatches(files, n - 1)) + []
    ensures IsTally(files, n, Visited(t, files[n - 1]))
  {
    assert ComeFrom(files, n, t.hits, places);
  }

  lemma {:induction false} SomeTaken(files: seq<Scanned>, n: nat, t: Tally, places: seq<nat>, taken: nat)
    requires 0 < n <= |files| && IsTally(files, n - 1, t) && ComeFrom(files, n - 1, t.hits, places) && files[n - 1].Matches?
    requires 0 < taken <= |files[n - 1].all| && t.total < 20_000
    requires taken == if |files[n - 1].all| < 20_000 - t.total then |files[n - 1].all| else 20_000 - t.total
    requires Capped(AllMatches(files, n)) == Capped(AllMatches(files, n - 1)) + files[n - 1].all[..taken]
    ensures IsTally(files, n, Visited(t, files[n - 1]))
  {
    var h := FileHits(files[n - 1].rel, files[n - 1].all[..taken]);
    LastIsWhole(files, n - 1, t, places);
    OneMorePlace(files, n, t.hits, places, h);
    VisitTakes(t, files[n - 1], taken);
    TakenIsTally(files, n, t, h);
  }

  lemma {:induction false} VisitTakes(t: Tally, file: Scanned, taken: nat)
    requires file.Matches? && 0 < taken <= |file.all| && t.total < 20_000
    requires taken == if |file.all| < 20_000 - t.total then |file.all| else 20_000 - t.total
    ensures Visited(t, file) == Tally(t.hits + [FileHits(file.rel, file.all[..taken])], t.files + 1, t.skipped, t.total + taken)
  {
  }

  lemma {:induction false} TakenIsTally(files: seq<Scanned>, n: nat, t: Tally, h: FileHits)
    requires 0 < n <= |files| && IsTally(files, n - 1, t) && files[n - 1].Matches? && Listed(files, n, t.hits + [h])
    requires Capped(AllMatches(files, n)) == Capped(AllMatches(files, n - 1)) + h.matches
    ensures IsTally(files, n, Tally(t.hits + [h], t.files + 1, t.skipped, t.total + |h.matches|))
  {
    JoinedSnoc(t.hits, h);
  }

  /** Below the cap nothing has been cut. */
  lemma {:induction false} LastIsWhole(files: seq<Scanned>, n: nat, t: Tally, places: seq<nat>)
    requires n <= |files| && ComeFrom(files, n, t.hits, places) && IsTally(files, n, t) && t.total < 20_000
    ensures t.hits != [] ==> t.hits[|t.hits| - 1].matches == files[places[|t.hits| - 1]].all
  {
    if t.hits != [] {
      var m := |t.hits| - 1;
      NothingCut(files, n, t.hits, places);
    }
  }

  lemma {:induction false} NothingCut(files: seq<Scanned>, n: nat, hits: seq<FileHits>, places: seq<nat>)
    requires n <= |files| && hits != [] && ComeFrom(files, n, hits, places) && Joined(hits) == AllMatches(files, n)
    ensures hits[|hits| - 1].matches == files[places[|hits| - 1]].all
  {
    var m := |hits| - 1;
    var place := places[m];
    JoinedBound(files, place, hits[..m], places[..m]);
    MatchesGrow(files, place + 1, n);
    assert AllMatches(files, place + 1) == AllMatches(files, place) + files[place].all;
    assert |hits[m].matches| <= |files[place].all|;
  }

  /** Hits are never more than the matches of the files they come from. */
  lemma {:induction false} JoinedBound(files: seq<Scanned>, n: nat, hits: seq<FileHits>, places: seq<nat>)
    requires n <= |files| && |places| == |hits|
    requires forall k :: 0 <= k < |hits| ==> places[k] < n && IsHitOf(files[places[k]], hits[k])
    requires forall j, k :: 0 <= j < k < |hits| ==> places[j] < places[k]
    ensures |Joined(hits)| <= |AllMatches(files, n)|
    decreases |hits|
  {
    if hits != [] {
      var m := |hits| - 1;
      JoinedBound(files, places[m], hits[..m], places[..m]);
      MatchesGrow(files, places[m] + 1, n);
    }
  }

  lemma {:induction false} MatchesGrow(files: seq<Scanned>, m: nat, n: nat)
    requires m <= n <= |files|
    ensures AllMatches(files, m) <= AllMatches(files, n)
  {
    if m < n {
      MatchesGrow(files, m, n - 1);
    }
  }

  lemma {:induction false} OneMorePlace(files: seq<Scanned>, n: nat, hits: seq<FileHits>, places: seq<nat>, h: FileHits)
    requires 0 < n <= |files| && ComeFrom(files, n - 1, hits, places) && IsHitOf(files[n - 1], h)
    requires hits != [] ==> hits[|hits| - 1].matches == files[places[|hits| - 1]].all
    ensures Listed(files, n, hits + [h])
  {
    assert ComeFrom(files, n, hits + [h], places + [n - 1]);
  }

  /** A scan goes on to the first place at which the cap is reached, or to the end. */
  lemma {:induction false} StopIsLeast(files: seq<Scanned>, n: nat, m: nat)
    requires n <= |files|
    ensures var stop := StopFrom(files, n);
      (stop == |files| || |AllMatches(files, stop)| >= 20_000) && (n <= m < stop ==> |AllMatches(files, m)| < 20_000)
    decreases |files| - n
  {
    TallyIs(files, n);
    if StopFrom(files, n) != n {
      StopIsLeast(files, n + 1, m);
    }
  }

  /** So a whole scan lists the first 20,000 matches of all its files. */
  lemma {:induction false} WholeScanIs(files: seq<Scanned>)
    ensures var stop := StopFrom(files, 0);
      IsTally(files, stop, WholeScan(files)) && Joined(WholeScan(files).hits) == Capped(AllMatches(files, |files|))
  {
    var stop := StopFrom(files, 0);
    TallyIs(files, stop);
    StopIsLeast(files, 0, 0);
    MatchesGrow(files, stop, |files|);
  }

  lemma {:induction false} JoinedPrefix(a: seq<FileHits>, b: seq<FileHits>)
    requires a <= b
    ensures Joined(a) <= Joined(b)
    decreases |b|
  {
    if |a| < |b| {
      JoinedPrefix(a, b[..|b| - 1]);
    } else {
      assert a == b;
    }
  }

  /** Under every interleaving the panel shows the first matches of the files of the walk that was asked for,
      and once it is done exactly the first 20,000, with the files it went through and those it skipped. */
  lemma {:induction false} FirstMatchesAreShown(events: seq<Event>)
    requires var x := Reached(events); x.asked.Some? && x.asked.value.Walk?
    ensures var x := Reached(events);
      var files := x.asked.value.files;
      var all := Capped(AllMatches(files, |files|));
      Joined(x.shown.results) <= all && (x.shown.status == Scanning || x.shown.status.Finished?) &&
      (x.shown.status.Finished? ==>
        Joined(x.shown.results) == all && x.shown.status.files == StopFrom(files, 0) &&
        x.shown.status.skipped == SkippedAmong(files, StopFrom(files, 0)) && (x.shown.status.capped <==> |all| == 20_000))
  {
    var x := Reached(events);
    var files := x.asked.value.files;
    ResultsAreTheScansOwn(events);
    WholeScanIs(files);
    JoinedPrefix(x.shown.results, WholeScan(files).hits);
  }

  // ---------- batches ----------

  /** A row for each match and one for its file. */
  function Rows(hits: seq<FileHits>): nat {
    if hits == [] then 0 else Rows(hits[..|hits| - 1]) + |hits[|hits| - 1].matches| + 1
  }

  /** It has something in it, and all but its last file make less than 250 rows. */
  predicate Small(hits: seq<FileHits>) {
    hits != [] && Rows(hits[..|hits| - 1]) < 250
  }

  /** A worker counts the rows of its batch, and has few of them wherever it might go on. */
  predicate CountsRows(w: Worker) {
    (w.pc != SendDone && w.pc != Stopped ==> w.rows == Rows(w.batch) && (w.batch != [] ==> Small(w.batch))) &&
    (w.pc in {Resolve, Next, Search} ==> w.rows < 250)
  }

  lemma {:induction false} RowsSnoc(hits: seq<FileHits>, h: FileHits)
    ensures Rows(hits + [h]) == Rows(hits) + |h.matches| + 1
    ensures Rows(hits) < 250 ==> Small(hits + [h])
  {
    assert (hits + [h])[..|hits|] == hits;
  }

  lemma {:induction false} OneMoreBatch(batch: seq<FileHits>, rows: nat, before: Tally, file: Scanned)
    requires rows == Rows(batch) && rows < 250
    ensures var hits := NewHits(before, Visited(before, file));
      rows + NewRows(hits) == Rows(batch + hits) && (hits != [] ==> Small(batch + hits)) && (hits == [] ==> batch + hits == batch)
  {
    var hits := NewHits(before, Visited(before, file));
    if hits != [] {
      assert hits == [hits[0]];
      RowsSnoc(batch, hits[0]);
    } else {
      assert batch + hits == batch;
    }
  }

  lemma {:induction false} StepCountsRows(w: Worker, alive: bool, due: bool)
    requires CountsRows(w)
    ensures var (w', update) := WorkerStep(w, alive, due);
      CountsRows(w') && (update.Some? && update.value.Found? ==> Small(update.value.hits))
  {
    if w.pc == Search && w.spec.Walk? && w.tally.files < |w.spec.files| {
      OneMoreBatch(w.batch, w.rows, w.tally, w.spec.files[w.tally.files]);
    } else if w.pc == Flush {
      FlushCountsRows(w, alive, due);
    }
  }

  lemma {:induction false} FlushCountsRows(w: Worker, alive: bool, due: bool)
    requires CountsRows(w) && w.pc == Flush
    ensures var (w', update) := WorkerStep(w, alive, due);
      CountsRows(w') && (update.Some? && update.value.Found? ==> Small(update.value.hits))
  {
    assert w.batch == [] ==> w.rows == 0;
  }

  predicate SmallBatches(x: System) {
    (forall i :: 0 <= i < |x.workers| ==> CountsRows(x.workers[i])) &&
    (forall i :: 0 <= i < |x.queue| && x.queue[i].update.Found? ==> Small(x.queue[i].update.hits))
  }

  /** Results come in small batches: every message of hits has less than 250 rows before its last file. */
  lemma {:induction false} BatchesStaySmall(events: seq<Event>)
    ensures SmallBatches(Reached(events))
  {
    if events != [] {
      var x, e := Reached(events[..|events| - 1]), events[|events| - 1];
      BatchesStaySmall(events[..|events| - 1]);
      if e.Act? && e.worker < |x.workers| {
        StepCountsRows(x.workers[e.worker], x.workers[e.worker].tag == x.generation, e.due);
      }
    }
  }

  // ---------- workers nobody waits for ----------

  /** A worker after some actions of its own, none of which finds its generation alive. */
  function Outdated(w: Worker, dues: seq<bool>): Worker
    decreases |dues|
  {
    if dues == [] then w else Outdated(WorkerStep(w, false, dues[0]).0, dues[1..])
  }

  /** Once its generation is over, a worker ends within four actions and finishes no more than the file it is
      at. */
  lemma {:induction false} OutdatedEnds(w: Worker, dues: seq<bool>)
    ensures Outdated(w, dues).tally.files <= w.tally.files + if w.pc == Search then 1 else 0
    ensures |dues| >= 4 ==> Outdated(w, dues).pc == Stopped
    ensures w.pc in {Stopped, Finish} && dues != [] ==> Outdated(w, dues).pc == Stopped
    ensures w.pc in {Next, SendDone} && |dues| >= 2 ==> Outdated(w, dues).pc == Stopped
    ensures w.pc in {Resolve, Flush, SendRest} && |dues| >= 3 ==> Outdated(w, dues).pc == Stopped
    decreases |dues|
  {
    if dues != [] {
      OutdatedEnds(WorkerStep(w, false, dues[0]).0, dues[1..]);
    }
  }
}
