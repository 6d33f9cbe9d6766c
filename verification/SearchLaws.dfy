/**
 * An invariant of every reachable state of the search system, and from it that results belong to the
 * scan asked for, are complete once it is done, and stay within the cap.
 */
module SearchLaws {
  import opened Outcome
  import opened Search

  function Reached(events: seq<Event>): System {
    if events == [] then START else After(Reached(events[..|events| - 1]), events[|events| - 1])
  }

  // ---------- what the panel may show ----------

  function MatchCount(hits: seq<FileHits>): nat {
    if hits == [] then 0 else MatchCount(hits[..|hits| - 1]) + |hits[|hits| - 1].matches|
  }

  /** What is shown belongs to the scan asked for: a part of its own results in walk order, and all of
      them once it is done. */
  ghost predicate Faithful(asked: Option<Spec>, shown: Shown) {
    match asked
    case None => shown == Shown([], Idle)
    case Some(Outside(reason)) => shown.results == [] && (shown.status == Scanning || shown.status == Rejected(reason))
    case Some(Walk(files)) =>
      shown.results <= WholeScan(files).hits &&
      (shown.status == Scanning || (shown.results == WholeScan(files).hits && shown.status == FinishedWith(files)))
  }

  function FinishedWith(files: seq<Scanned>): Status {
    var r := WholeScan(files);
    Finished(r.files, r.skipped, r.total >= MATCH_CAP)
  }

  // ---------- the invariant of the current worker ----------

  ghost predicate AllFound(updates: seq<Update>) {
    forall i :: 0 <= i < |updates| ==> updates[i].Found?
  }

  function HitsOf(updates: seq<Update>): seq<FileHits> {
    if updates == [] then []
    else (if updates[0].Found? then updates[0].hits else []) + HitsOf(updates[1..])
  }

  /** The worker's own counts are those of the files it has visited, and it stops where a scan stops. */
  ghost predicate OnCourse(w: Worker, files: seq<Scanned>) {
    w.tally.files <= |files| && w.tally == TallyOf(files, w.tally.files) &&
    StopFrom(files, 0) == StopFrom(files, w.tally.files) &&
    (w.pc in {Next, Search} ==> w.tally.total < MATCH_CAP && !w.capped) &&
    (w.pc == Search ==> w.tally.files < |files|) &&
    (w.pc == Resolve ==> w.tally == TallyOf(files, 0) && w.batch == [] && !w.capped) &&
    (w.pc == Flush ==> !w.capped) &&
    (w.pc in {Finish, SendRest, SendDone, Stopped} ==>
      w.tally.files == StopFrom(files, 0) && (w.capped <==> w.tally.total >= MATCH_CAP)) &&
    (w.pc in {SendDone, Stopped} ==> w.batch == [])
  }

  /** The updates on their way, and what is shown, add up to what the worker has found. */
  ghost predicate Agree(w: Worker, updates: seq<Update>, shown: Shown) {
    match w.spec
    case Outside(reason) =>
      if w.pc == Stopped then
        shown.results == [] &&
        ((updates == [] && shown.status == Rejected(reason)) || (updates == [Refused(reason)] && shown.status == Scanning))
      else w.pc == Resolve && updates == [] && shown == Shown([], Scanning)
    case Walk(files) =>
      OnCourse(w, files) && shown.results + HitsOf(updates) + w.batch == w.tally.hits &&
      (if w.pc != Stopped then AllFound(updates) && shown.status == Scanning
       else if updates == [] then shown.status == FinishedWith(files)
       else
         shown.status == Scanning && AllFound(updates[..|updates| - 1]) &&
         var r := WholeScan(files); updates[|updates| - 1] == Done(r.files, r.skipped, r.total >= MATCH_CAP))
  }

  // ---------- arithmetic of queues ----------

  lemma {:induction false} HitsAppend(a: seq<Update>, b: seq<Update>)
    ensures HitsOf(a + b) == HitsOf(a) + HitsOf(b)
  {
    if a == [] {
      assert a + b == b;
    } else {
      assert (a + b)[1..] == a[1..] + b;
      HitsAppend(a[1..], b);
    }
  }

  lemma {:induction false} FreshAppend(a: seq<Message>, b: seq<Message>, tag: nat)
    ensures Fresh(a + b, tag) == Fresh(a, tag) + Fresh(b, tag)
  {
    if b == [] {
      assert a + b == a;
    } else {
      var init, last := b[..|b| - 1], b[|b| - 1];
      assert (a + b)[..|a + b| - 1] == a + init;
      FreshAppend(a, init, tag);
    }
  }

  lemma {:induction false} FreshSent(queue: seq<Message>, tag: nat, update: Option<Update>, current: nat)
    ensures Fresh(queue + Sent(tag, update), current) ==
      Plus(Fresh(queue, current), if tag == current then update else None)
  {
    FreshAppend(queue, Sent(tag, update), current);
    if update.Some? {
      assert Sent(tag, update)[..0] == [];
    }
  }

  lemma {:induction false} NothingFresh(queue: seq<Message>, tag: nat)
    requires forall i :: 0 <= i < |queue| ==> queue[i].tag < tag
    ensures Fresh(queue, tag) == []
  {
    if queue != [] {
      NothingFresh(queue[..|queue| - 1], tag);
    }
  }

  lemma {:induction false} TakeAllCons(shown: Shown, u: Update, rest: seq<Update>)
    ensures TakeAll(shown, [u] + rest) == TakeAll(Take(shown, u), rest)
  {
    if rest == [] {
      assert [u] + rest == [u] && [u][..0] == [];
    } else {
      var init := rest[..|rest| - 1];
      assert ([u] + rest)[..|rest|] == [u] + init;
      TakeAllCons(shown, u, init);
    }
  }

  // ---------- polling ----------

  lemma {:induction false} AllFoundHitsOnly(w: Worker, updates: seq<Update>, shown: Shown)
    requires updates != [] && Agree(w, updates, shown)
    ensures Agree(w, updates[1..], Take(shown, updates[0]))
  {
    var u, rest := updates[0], updates[1..];
    assert updates == [u] + rest;
    if w.spec.Walk? {
      if u.Found? {
        FoundTaken(w, u, rest, shown);
      } else {
        EndTaken(w, u, rest, shown);
      }
    }
  }

  lemma {:induction false} FoundTaken(w: Worker, u: Update, rest: seq<Update>, shown: Shown)
    requires w.spec.Walk? && u.Found? && Agree(w, [u] + rest, shown)
    ensures Agree(w, rest, Take(shown, u))
  {
    var updates := [u] + rest;
    assert updates[1..] == rest && updates[0] == u;
    assert shown.results + (u.hits + HitsOf(rest)) == shown.results + u.hits + HitsOf(rest);
    if w.pc == Stopped {
      assert rest != [] && rest[|rest| - 1] == updates[|updates| - 1];
      assert rest[..|rest| - 1] == updates[..|updates| - 1][1..];
    }
  }

  lemma {:induction false} EndTaken(w: Worker, u: Update, rest: seq<Update>, shown: Shown)
    requires w.spec.Walk? && !u.Found? && Agree(w, [u] + rest, shown)
    ensures Agree(w, rest, Take(shown, u))
  {
    var updates := [u] + rest;
    assert updates[0] == u && updates[1..] == rest;
    FirstStays(u, rest);
  }

  lemma {:induction false} FirstStays<T>(x: T, rest: seq<T>)
    ensures rest != [] ==> ([x] + rest)[..|rest|][0] == x
  {
  }

  /** Taking the updates in front leaves the rest in agreement. */
  lemma {:induction false} PollAgrees(w: Worker, taken: seq<Update>, rest: seq<Update>, shown: Shown)
    requires Agree(w, taken + rest, shown)
    ensures Agree(w, rest, TakeAll(shown, taken))
    decreases |taken|
  {
    if taken == [] {
      assert taken + rest == rest;
    } else {
      var u, more := taken[0], taken[1..];
      assert taken == [u] + more && (taken + rest)[1..] == more + rest && (taken + rest)[0] == u;
      AllFoundHitsOnly(w, taken + rest, shown);
      PollAgrees(w, more, rest, Take(shown, u));
      TakeAllCons(shown, u, more);
    }
  }

  // ---------- a worker's action ----------

  lemma {:induction false} TallyGrows(files: seq<Scanned>, n: nat, m: nat)
    requires n <= m <= |files|
    ensures TallyOf(files, n).hits <= TallyOf(files, m).hits && TallyOf(files, m).files == m
    decreases m
  {
    if n < m {
      TallyGrows(files, n, m - 1);
    } else if 0 < m {
      TallyGrows(files, 0, m - 1);
    }
  }

  lemma {:induction false} VisitKeepsCourse(w: Worker, files: seq<Scanned>)
    requires OnCourse(w, files) && w.pc == Search && w.spec == Walk(files)
    ensures var w' := WorkerStep(w, true, false).0;
      OnCourse(w', files) && w'.batch == w.batch + NewHits(w.tally, w'.tally) &&
      w'.tally.hits == w.tally.hits + NewHits(w.tally, w'.tally)
  {
    TallyGrows(files, w.tally.files, w.tally.files + 1);
  }

  /** What was on its way, and one update more. */
  function Plus(updates: seq<Update>, update: Option<Update>): seq<Update> {
    if update.Some? then updates + [update.value] else updates
  }

  lemma {:induction false} HitsPlus(updates: seq<Update>, u: Update)
    ensures HitsOf(updates + [u]) == HitsOf(updates) + if u.Found? then u.hits else []
  {
    HitsAppend(updates, [u]);
    assert [u][1..] == [];
  }

  /** Sending the batch moves its hits from the worker to the queue. */
  lemma {:induction false} BatchSent(w: Worker, updates: seq<Update>, shown: Shown)
    requires AllFound(updates) && shown.results + HitsOf(updates) + w.batch == w.tally.hits
    ensures AllFound(updates + [Found(w.batch)])
    ensures shown.results + HitsOf(updates + [Found(w.batch)]) + [] == w.tally.hits
  {
    HitsPlus(updates, Found(w.batch));
    assert shown.results + (HitsOf(updates) + w.batch) + [] == shown.results + HitsOf(updates) + w.batch;
  }

  lemma {:induction false} VisitAgrees(w: Worker, updates: seq<Update>, shown: Shown, due: bool)
    requires Agree(w, updates, shown) && w.spec.Walk? && w.pc == Search
    ensures Agree(WorkerStep(w, true, due).0, updates, shown)
  {
    VisitKeepsCourse(w, w.spec.files);
    var w' := WorkerStep(w, true, due).0;
    var hits := NewHits(w.tally, w'.tally);
    assert shown.results + HitsOf(updates) + (w.batch + hits) == shown.results + HitsOf(updates) + w.batch + hits;
  }

  lemma {:induction false} FlushAgrees(w: Worker, updates: seq<Update>, shown: Shown, due: bool)
    requires Agree(w, updates, shown) && w.spec.Walk? && w.pc in {Flush, SendRest}
    ensures var (w', update) := WorkerStep(w, true, due); Agree(w', Plus(updates, update), shown)
  {
    var (w', update) := WorkerStep(w, true, due);
    if update.Some? {
      BatchSent(w, updates, shown);
    }
  }

  lemma {:induction false} DoneAgrees(w: Worker, updates: seq<Update>, shown: Shown, due: bool)
    requires Agree(w, updates, shown) && w.spec.Walk? && w.pc == SendDone
    ensures var (w', update) := WorkerStep(w, true, due); Agree(w', Plus(updates, update), shown)
  {
    var (w', update) := WorkerStep(w, true, due);
    HitsPlus(updates, update.value);
    assert (updates + [update.value])[..|updates|] == updates;
    TallyGrows(w.spec.files, 0, w.tally.files);
  }

  lemma {:induction false} QuietAgrees(w: Worker, updates: seq<Update>, shown: Shown, due: bool)
    requires Agree(w, updates, shown) && w.spec.Walk? && w.pc in {Resolve, Next, Finish, Stopped}
    ensures var (w', update) := WorkerStep(w, true, due); update.None? && Agree(w', updates, shown)
  {
    TallyGrows(w.spec.files, 0, w.tally.files);
  }

  /** The current worker's action keeps agreement with what it sends. */
  lemma {:induction false} ActAgrees(w: Worker, updates: seq<Update>, shown: Shown, due: bool)
    requires Agree(w, updates, shown)
    ensures var (w', update) := WorkerStep(w, true, due);
      w'.tag == w.tag && w'.spec == w.spec && Agree(w', Plus(updates, update), shown)
  {
    if w.spec.Outside? {
      assert [] + [Refused(w.spec.reason)] == [Refused(w.spec.reason)];
    } else {
      match w.pc
      case Search => VisitAgrees(w, updates, shown, due);
      case Flush => FlushAgrees(w, updates, shown, due);
      case SendRest => FlushAgrees(w, updates, shown, due);
      case SendDone => DoneAgrees(w, updates, shown, due);
      case Resolve => QuietAgrees(w, updates, shown, due);
      case Next => QuietAgrees(w, updates, shown, due);
      case Finish => QuietAgrees(w, updates, shown, due);
      case Stopped => QuietAgrees(w, updates, shown, due);
    }
  }

  // ---------- the whole system ----------

  /** The worker of the current generation, if any. */
  predicate Current(x: System, i: int) {
    0 <= i < |x.workers| && x.workers[i].tag == x.generation
  }

  /** Tags never run ahead of the generation, and each worker has its own. */
  ghost predicate Ordered(generation: nat, queue: seq<Message>, workers: seq<Worker>) {
    (forall i :: 0 <= i < |workers| ==> workers[i].tag <= generation) &&
    (forall i, j :: 0 <= i < j < |workers| ==> workers[i].tag < workers[j].tag) &&
    (forall i :: 0 <= i < |queue| ==> queue[i].tag <= generation)
  }

  ghost predicate Sound(x: System) {
    Ordered(x.generation, x.queue, x.workers) &&
    (forall i :: Current(x, i) ==>
      x.asked == Some(x.workers[i].spec) && Agree(x.workers[i], Fresh(x.queue, x.generation), x.shown)) &&
    ((forall i :: !Current(x, i)) ==> Fresh(x.queue, x.generation) == [] && Faithful(x.asked, x.shown))
  }

  lemma {:induction false} AgreementIsFaithful(w: Worker, updates: seq<Update>, shown: Shown)
    requires Agree(w, updates, shown)
    ensures Faithful(Some(w.spec), shown)
  {
    if w.spec.Walk? {
      var files := w.spec.files;
      StopIsLast(files, w.tally.files);
      TallyGrows(files, w.tally.files, StopFrom(files, 0));
      assert shown.results <= w.tally.hits;
      if w.pc == Stopped && updates == [] {
        assert shown.results + [] + [] == shown.results;
      }
    }
  }

  lemma {:induction false} StopIsLast(files: seq<Scanned>, n: nat)
    requires n <= |files| && StopFrom(files, 0) == StopFrom(files, n)
    ensures n <= StopFrom(files, 0)
  {
  }

  lemma {:induction false} SoundIsFaithful(x: System)
    requires Sound(x)
    ensures Faithful(x.asked, x.shown)
  {
    if i :| Current(x, i) {
      AgreementIsFaithful(x.workers[i], Fresh(x.queue, x.generation), x.shown);
    }
  }

  lemma {:induction false} MovingOnIsSound(x: System)
    requires Sound(x)
    ensures Fresh(x.queue, x.generation + 1) == []
  {
    NothingFresh(x.queue, x.generation + 1);
  }

  lemma {:induction false} RunIsSound(x: System, term: string, spec: Spec)
    requires Sound(x)
    ensures Sound(After(x, Run(term, spec)))
  {
    MovingOnIsSound(x);
    var y := After(x, Run(term, spec));
    if term == "" {
      assert forall i :: !Current(y, i);
    } else {
      var files := if spec.Walk? then spec.files else [];
      assert Agree(Spawn(y.generation, spec), [], y.shown);
      assert forall i :: Current(y, i) ==> i == |x.workers|;
    }
  }

  lemma {:induction false} CancelIsSound(x: System)
    requires Sound(x)
    ensures Sound(After(x, Cancel))
  {
    MovingOnIsSound(x);
    SoundIsFaithful(x);
    assert forall i :: !Current(After(x, Cancel), i);
  }

  lemma {:induction false} PollIsSound(x: System, n: nat)
    requires Sound(x) && n <= |x.queue|
    ensures Sound(After(x, Poll(n)))
  {
    var y := After(x, Poll(n));
    var taken, rest := Fresh(x.queue[..n], x.generation), Fresh(x.queue[n..], x.generation);
    FreshAppend(x.queue[..n], x.queue[n..], x.generation);
    assert x.queue == x.queue[..n] + x.queue[n..];
    assert Ordered(y.generation, y.queue, y.workers);
    if i :| Current(x, i) {
      PollAgrees(x.workers[i], taken, rest, x.shown);
      OnlyOneCurrent(y, i);
    } else {
      assert taken == [] && rest == [];
      assert forall i :: Current(y, i) <==> Current(x, i);
    }
  }

  /** With one current worker in agreement, the whole is sound. */
  lemma {:induction false} OnlyOneCurrent(y: System, i: int)
    requires Ordered(y.generation, y.queue, y.workers) && Current(y, i)
    requires y.asked == Some(y.workers[i].spec) && Agree(y.workers[i], Fresh(y.queue, y.generation), y.shown)
    ensures Sound(y)
  {
    forall j | Current(y, j)
      ensures j == i
    {
    }
  }

  lemma {:induction false} OrderKept(generation: nat, queue: seq<Message>, workers: seq<Worker>, i: nat, w: Worker,
                                     update: Option<Update>)
    requires Ordered(generation, queue, workers) && i < |workers| && w.tag == workers[i].tag
    ensures Ordered(generation, queue + Sent(w.tag, update), workers[i := w])
  {
  }

  lemma {:induction false} StepKeepsTag(w: Worker, alive: bool, due: bool)
    ensures WorkerStep(w, alive, due).0.tag == w.tag
  {
  }

  lemma {:induction false} ActIsSound(x: System, i: nat, due: bool)
    requires Sound(x) && i < |x.workers|
    ensures Sound(After(x, Act(i, due)))
  {
    var y := After(x, Act(i, due));
    var w := x.workers[i];
    var (w', update) := WorkerStep(w, w.tag == x.generation, due);
    StepKeepsTag(w, w.tag == x.generation, due);
    OrderKept(x.generation, x.queue, x.workers, i, w', update);
    FreshSent(x.queue, w.tag, update, x.generation);
    if Current(x, i) {
      ActAgrees(w, Fresh(x.queue, x.generation), x.shown, due);
      OnlyOneCurrent(y, i);
    } else if j :| Current(x, j) {
      assert Current(y, j);
      OnlyOneCurrent(y, j);
    } else {
      assert forall j :: Current(y, j) <==> Current(x, j);
    }
  }

  lemma {:induction false} EveryReachedIsSound(events: seq<Event>)
    ensures Sound(Reached(events))
  {
    if events != [] {
      var x, e := Reached(events[..|events| - 1]), events[|events| - 1];
      EveryReachedIsSound(events[..|events| - 1]);
      match e
      case Run(term, spec) => RunIsSound(x, term, spec);
      case Cancel => CancelIsSound(x);
      case Poll(n) => if n <= |x.queue| { PollIsSound(x, n); }
      case Act(i, due) => if i < |x.workers| { ActIsSound(x, i, due); }
    }
  }

  // ---------- the promises ----------

  lemma {:induction false} TalliedMatches(files: seq<Scanned>, n: nat)
    requires n <= |files|
    ensures MatchCount(TallyOf(files, n).hits) == TallyOf(files, n).total <= MATCH_CAP
  {
    if 0 < n {
      TalliedMatches(files, n - 1);
      var before, after := TallyOf(files, n - 1), TallyOf(files, n);
      if |after.hits| > |before.hits| {
        assert after.hits[..|after.hits| - 1] == before.hits;
      }
    }
  }

  lemma {:induction false} FewerMatches(a: seq<FileHits>, b: seq<FileHits>)
    requires a <= b
    ensures MatchCount(a) <= MatchCount(b)
    decreases |b|
  {
    if |a| < |b| {
      FewerMatches(a, b[..|b| - 1]);
    } else {
      assert a == b;
    }
  }

  /** Under every interleaving the results shown are a prefix, in walk order, of the results of the scan
      last asked for: nothing lost, nothing twice, and nothing of an older scan. Once done they are
      all of them, with the right counts, and there are never more matches than the cap. */
  lemma {:induction false} ResultsAreTheScansOwn(events: seq<Event>)
    ensures var x := Reached(events);
      Faithful(x.asked, x.shown) && MatchCount(x.shown.results) <= MATCH_CAP
  {
    var x := Reached(events);
    EveryReachedIsSound(events);
    SoundIsFaithful(x);
    if x.asked.Some? && x.asked.value.Walk? {
      var files := x.asked.value.files;
      TalliedMatches(files, StopFrom(files, 0));
      FewerMatches(x.shown.results, WholeScan(files).hits);
    }
  }

  /** What a panel shows of a scan that has ended. */
  function Ended(spec: Spec): Shown {
    match spec
    case Outside(reason) => Shown([], Rejected(reason))
    case Walk(files) => Shown(WholeScan(files).hits, FinishedWith(files))
  }

  /** A scan that has run to its end is seen to have: polling everything then shows it done. */
  lemma {:induction false} FinishedScanShows(events: seq<Event>, i: nat)
    requires var x := Reached(events); Current(x, i) && x.workers[i].pc == Stopped
    ensures var x := Reached(events);
      After(x, Poll(|x.queue|)).shown == Ended(x.workers[i].spec)
  {
    var x := Reached(events);
    EveryReachedIsSound(events);
    PollIsSound(x, |x.queue|);
    var y := After(x, Poll(|x.queue|));
    assert y.queue == [] && Current(y, i);
    assert Agree(y.workers[i], [], y.shown);
    assert y.shown.results + [] + [] == y.shown.results;
  }

  /** How much a worker has left to do. */
  function Left(w: Worker): (nat, nat) {
    var files := if w.spec.Walk? then |w.spec.files| else 0;
    (if w.tally.files < files then files - w.tally.files else 0,
     match w.pc
     case Resolve => 7
     case Flush => 6
     case Next => 5
     case Search => 4
     case Finish => 3
     case SendRest => 2
     case SendDone => 1
     case Stopped => 0)
  }

  /** Every action brings a worker closer to its end, so every scan ends. */
  lemma {:induction false} WorkersEnd(w: Worker, alive: bool, due: bool)
    requires w.pc != Stopped
    ensures var l, r := Left(WorkerStep(w, alive, due).0), Left(w);
      l.0 < r.0 || (l.0 == r.0 && l.1 < r.1)
  {
  }
}
