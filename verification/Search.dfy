/**
 * Find in Files as a transition system: a generation counter, a queue of tagged messages, any number of
 * workers cut into atomic actions, and the panel that reads the queue.
 */
module Search {
  import opened Outcome

  const MATCH_CAP: nat := 20_000
  const BATCH_ROWS: nat := 250

  datatype FileMatch = FileMatch(from: nat, to: nat, found: string)

  datatype FileHits = FileHits(rel: string, matches: seq<FileMatch>)

  /** One file of a walk: the matches it would yield without a cap, or `Skipped` if it cannot be searched. */
  datatype Scanned = Skipped | Matches(rel: string, all: seq<FileMatch>)

  /** What a scan is asked: a scope that cannot be searched, or a walk over files in a stable order. */
  datatype Spec = Outside(reason: string) | Walk(files: seq<Scanned>)

  datatype Update = Found(hits: seq<FileHits>) | Done(files: nat, skipped: nat, capped: bool) | Refused(reason: string)

  datatype Message = Message(tag: nat, update: Update)

  // ---------- what a scan finds ----------

  /** The counts and hits of a scan so far. */
  datatype Tally = Tally(hits: seq<FileHits>, files: nat, skipped: nat, total: nat)

  function Min(a: nat, b: nat): nat {
    if a < b then a else b
  }

  /** One file more, listing no more matches than the cap leaves room for. */
  function Visited(t: Tally, f: Scanned): Tally {
    match f
    case Skipped => t.(files := t.files + 1, skipped := t.skipped + 1)
    case Matches(rel, all) =>
      var n := Min(|all|, if t.total < MATCH_CAP then MATCH_CAP - t.total else 0);
      if n == 0 then t.(files := t.files + 1)
      else Tally(t.hits + [FileHits(rel, all[..n])], t.files + 1, t.skipped, t.total + n)
  }

  function TallyOf(files: seq<Scanned>, n: nat): Tally
    requires n <= |files|
  {
    if n == 0 then Tally([], 0, 0, 0) else Visited(TallyOf(files, n - 1), files[n - 1])
  }

  /** How many files a scan visits from the `n`th on: it stops once the cap is reached. */
  function StopFrom(files: seq<Scanned>, n: nat): (stop: nat)
    requires n <= |files|
    ensures n <= stop <= |files|
    decreases |files| - n
  {
    if n == |files| || TallyOf(files, n).total >= MATCH_CAP then n else StopFrom(files, n + 1)
  }

  /** The whole result of a scan nobody cancels. */
  function WholeScan(files: seq<Scanned>): Tally {
    TallyOf(files, StopFrom(files, 0))
  }

  // ---------- workers ----------

  /** Where a worker is between two of its atomic actions. */
  datatype Pc = Resolve | Next | Search | Flush | Finish | SendRest | SendDone | Stopped

  datatype Worker = Worker(tag: nat, spec: Spec, pc: Pc, tally: Tally, batch: seq<FileHits>, rows: nat, capped: bool)

  function Spawn(tag: nat, spec: Spec): Worker {
    Worker(tag, spec, Resolve, Tally([], 0, 0, 0), [], 0, false)
  }

  /** The hits a visit adds. */
  function NewHits(before: Tally, after: Tally): seq<FileHits> {
    if |after.hits| > |before.hits| then after.hits[|before.hits|..] else []
  }

  function NewRows(hits: seq<FileHits>): nat {
    if hits == [] then 0 else |hits[0].matches| + 1
  }

  /** One atomic action of a worker: what it becomes, and the update it sends, if any. `alive` is what
      reading the generation tells it, and `due` whether its batch has waited long enough; each is
      looked at only where the worker looks. */
  function WorkerStep(w: Worker, alive: bool, due: bool): (Worker, Option<Update>) {
    match w.pc
    case Resolve =>
      if w.spec.Outside? then (w.(pc := Stopped), Some(Refused(w.spec.reason))) else (w.(pc := Next), None)
    case Next =>
      if w.spec.Outside? || w.tally.files >= |w.spec.files| || !alive then (w.(pc := Finish), None)
      else (w.(pc := Search), None)
    case Search =>
      if w.spec.Outside? || w.tally.files >= |w.spec.files| then (w.(pc := Finish), None)
      else
        var after := Visited(w.tally, w.spec.files[w.tally.files]);
        var hits := NewHits(w.tally, after);
        (w.(pc := Flush, tally := after, batch := w.batch + hits, rows := w.rows + NewRows(hits)), None)
    case Flush =>
      var w' := if w.tally.total >= MATCH_CAP then w.(pc := Finish, capped := true) else w.(pc := Next);
      if w.rows >= BATCH_ROWS || (due && w.batch != []) then (w'.(batch := [], rows := 0), Some(Found(w.batch)))
      else (w', None)
    case Finish => if alive then (w.(pc := SendRest), None) else (w.(pc := Stopped), None)
    case SendRest =>
      if w.batch != [] then (w.(pc := SendDone, batch := []), Some(Found(w.batch))) else (w.(pc := SendDone), None)
    case SendDone => (w.(pc := Stopped), Some(Done(w.tally.files, w.tally.skipped, w.capped)))
    case Stopped => (w, None)
  }

  function Sent(tag: nat, update: Option<Update>): seq<Message> {
    if update.Some? then [Message(tag, update.value)] else []
  }

  // ---------- the panel and its workers as one system ----------

  /** Everything shared, and what the panel last asked for (`None` before any scan and after an empty
      term). */
  datatype System = System(generation: nat, queue: seq<Message>, workers: seq<Worker>, shown: Shown, asked: Option<Spec>)

  datatype Event = Run(term: string, spec: Spec) | Cancel | Poll(n: nat) | Act(worker: nat, due: bool)

  const START := System(0, [], [], Shown([], Idle), None)

  /** One event: the user searches, cancels or looks, or one of the worker threads runs for one action. */
  function After(x: System, e: Event): System {
    match e
    case Run(term, spec) =>
      if term == "" then x.(generation := x.generation + 1, shown := Shown([], Idle), asked := None)
      else System(x.generation + 1, x.queue, x.workers + [Spawn(x.generation + 1, spec)], Shown([], Scanning), Some(spec))
    case Cancel => x.(generation := x.generation + 1)
    case Poll(n) =>
      if n > |x.queue| then x
      else x.(queue := x.queue[n..], shown := TakeAll(x.shown, Fresh(x.queue[..n], x.generation)))
    case Act(i, due) =>
      if i >= |x.workers| then x
      else
        var (w, update) := WorkerStep(x.workers[i], x.workers[i].tag == x.generation, due);
        x.(workers := x.workers[i := w], queue := x.queue + Sent(w.tag, update))
  }

  class Scan {
    var generation: nat
    var queue: seq<Message>
    var workers: seq<Worker>

    /** The scan's part of the system, beside what the panel shows and has asked. */
    ghost function View(shown: Shown, asked: Option<Spec>): System
      reads this
    {
      System(generation, queue, workers, shown, asked)
    }

    constructor ()
      ensures generation == 0 && queue == [] && workers == []
    {
      generation, queue, workers := 0, [], [];
    }

    /** The new worker is tagged with the new generation; older workers are only outdated by it. */
    method Start(spec: Spec)
      modifies this
      ensures generation == old(generation) + 1 && queue == old(queue)
      ensures workers == old(workers) + [Spawn(generation, spec)]
    {
      generation := generation + 1;
      workers := workers + [Spawn(generation, spec)];
    }

    method Cancel()
      modifies this`generation
      ensures forall shown, asked :: View(shown, asked) == After(old(View(shown, asked)), Event.Cancel)
    {
      generation := generation + 1;
    }

    /** A worker thread runs for one action. */
    method Step(i: nat, due: bool)
      requires i < |workers|
      modifies this`queue, this`workers
      ensures forall shown, asked :: View(shown, asked) == After(old(View(shown, asked)), Act(i, due))
    {
      var w := workers[i];
      var alive := w.tag == generation;
      match w.pc {
        case Resolve =>
          if w.spec.Outside? {
            Send(w.tag, Refused(w.spec.reason));
            w := w.(pc := Stopped);
          } else {
            w := w.(pc := Next);
          }
        case Next =>
          w := w.(pc := if w.spec.Outside? || w.tally.files >= |w.spec.files| || !alive then Finish else Search);
        case Search =>
          if w.spec.Outside? || w.tally.files >= |w.spec.files| {
            w := w.(pc := Finish);
          } else {
            var after := Visited(w.tally, w.spec.files[w.tally.files]);
            var hits := NewHits(w.tally, after);
            w := w.(pc := Flush, tally := after, batch := w.batch + hits, rows := w.rows + NewRows(hits));
          }
        case Flush =>
          if w.rows >= BATCH_ROWS || (due && w.batch != []) {
            Send(w.tag, Found(w.batch));
            w := w.(batch := [], rows := 0);
          }
          w := if w.tally.total >= MATCH_CAP then w.(pc := Finish, capped := true) else w.(pc := Next);
        case Finish =>
          w := w.(pc := if alive then SendRest else Stopped);
        case SendRest =>
          if w.batch != [] {
            Send(w.tag, Found(w.batch));
          }
          w := w.(pc := SendDone, batch := []);
        case SendDone =>
          Send(w.tag, Done(w.tally.files, w.tally.skipped, w.capped));
          w := w.(pc := Stopped);
        case Stopped =>
      }
      workers := workers[i := w];
    }

    method Send(tag: nat, update: Update)
      modifies this`queue
      ensures queue == old(queue) + [Message(tag, update)]
    {
      queue := queue + [Message(tag, update)];
    }

    /** The first `n` messages leave the queue; those tagged with the generation are returned in order. */
    method Poll(n: nat) returns (updates: seq<Update>)
      requires n <= |queue|
      modifies this`queue
      ensures queue == old(queue)[n..] && updates == Fresh(old(queue)[..n], generation)
    {
      var current := generation;
      updates := [];
      for i := 0 to n
        invariant queue == old(queue) && updates == Fresh(queue[..i], current)
      {
        assert queue[..i + 1][..i] == queue[..i];
        if queue[i].tag == current {
          updates := updates + [queue[i].update];
        }
      }
      queue := queue[n..];
    }
  }

  /** The updates tagged `tag`, in order. */
  function Fresh(queue: seq<Message>, tag: nat): seq<Update> {
    if queue == [] then []
    else
      var init, last := queue[..|queue| - 1], queue[|queue| - 1];
      Fresh(init, tag) + if last.tag == tag then [last.update] else []
  }

  // ---------- the panel ----------

  datatype Status = Idle | Scanning | Finished(files: nat, skipped: nat, capped: bool) | Rejected(reason: string)

  datatype Shown = Shown(results: seq<FileHits>, status: Status)

  function Take(shown: Shown, update: Update): Shown {
    match update
    case Found(hits) => shown.(results := shown.results + hits)
    case Done(files, skipped, capped) => shown.(status := Finished(files, skipped, capped))
    case Refused(reason) => shown.(status := Rejected(reason))
  }

  function TakeAll(shown: Shown, updates: seq<Update>): Shown {
    if updates == [] then shown
    else Take(TakeAll(shown, updates[..|updates| - 1]), updates[|updates| - 1])
  }

  class SearchState {
    const scan: Scan
    var results: seq<FileHits>
    var status: Status

    /** What was last asked for. */
    ghost var asked: Option<Spec>

    ghost function View(): System
      reads this, scan
    {
      scan.View(Shown(results, status), asked)
    }

    constructor ()
      ensures fresh(scan) && View() == START
    {
      scan := new Scan();
      results, status, asked := [], Idle, None;
    }

    /** The event `Run` of the system; only a term that is not empty gets a worker. */
    method Run(term: string, spec: Spec)
      modifies this, scan
      ensures View() == After(old(View()), Event.Run(term, spec))
    {
      results := [];
      if term == "" {
        asked := None;
        scan.Cancel();
        status := Idle;
        return;
      }
      status, asked := Scanning, Some(spec);
      scan.Start(spec);
    }

    /** The event `Poll` of the system, applied update by update. */
    method Poll(n: nat)
      requires n <= |scan.queue|
      modifies this, scan`queue
      ensures View() == After(old(View()), Event.Poll(n))
    {
      var updates := scan.Poll(n);
      for i := 0 to |updates|
        invariant Shown(results, status) == TakeAll(Shown(old(results), old(status)), updates[..i])
        invariant scan.queue == old(scan.queue)[n..] && asked == old(asked)
      {
        assert updates[..i + 1][..i] == updates[..i];
        match updates[i]
        case Found(hits) => results := results + hits;
        case Done(files, skipped, capped) => status := Finished(files, skipped, capped);
        case Refused(reason) => status := Rejected(reason);
      }
      assert updates[..|updates|] == updates;
    }
  }
}
