/**
 * Recovery files: a ledger on the user interface's side, a queue of jobs, and a folder on the writer's.
 * A file is identified with its document's key.
 */
module Recoveries {
  import opened Outcome

  type Key = string

  /** Milliseconds. */
  type Time = nat

  const DEBOUNCE: nat := 400

  /** What a tick sees of an open document: its version counter, whether its file was deleted, whether
      its text differs from the saved one, and what a recovery file would hold of it. */
  datatype Doc = Doc(version: nat, deleted: bool, edited: bool, text: string, history: string,
                     language: Option<string>, wrap: Option<bool>)
  {
    predicate Dirty() {
      edited || deleted
    }

    /** What a write is remembered by: the version, plus one while the document's file is gone. */
    function Tag(): nat {
      version + if deleted then 1 else 0
    }

    function ToRecord(persistHistory: bool): Record {
      Record(text, if persistHistory then Some(history) else None, language, wrap)
    }
  }

  datatype Record = Record(text: string, history: Option<string>, language: Option<string>, wrap: Option<bool>)

  datatype Job = Write(key: Key, record: Record) | Delete(key: Key) | StripHistories | Flush

  // ---------- the writer ----------

  /** What one job makes of the file of `key`. */
  function Effect(file: Option<Record>, job: Job, key: Key): Option<Record> {
    match job
    case Write(k, record) => if k == key then Some(record) else file
    case Delete(k) => if k == key then None else file
    case StripHistories => if file.Some? then Some(file.value.(history := None)) else None
    case Flush => file
  }

  /** The file of `key` once every queued job is done. */
  function Drained(file: Option<Record>, jobs: seq<Job>, key: Key): Option<Record> {
    if jobs == [] then file else Effect(Drained(file, jobs[..|jobs| - 1], key), jobs[|jobs| - 1], key)
  }

  function Lookup<K, V>(m: map<K, V>, k: K): Option<V> {
    if k in m then Some(m[k]) else None
  }

  /** The recovery folder, and the thread that changes it. */
  class Folder {
    var files: map<Key, Record>

    constructor (files: map<Key, Record>)
      ensures this.files == files
    {
      this.files := files;
    }

    method Run(job: Job)
      modifies this
      ensures forall k :: Lookup(files, k) == Effect(Lookup(old(files), k), job, k)
    {
      match job
      case Write(key, record) => files := files[key := record];
      case Delete(key) => files := files - {key};
      case StripHistories => files := map k | k in files :: files[k].(history := None);
      case Flush =>
    }

    /** The writer's loop over everything queued. */
    method Writer(jobs: seq<Job>)
      modifies this
      ensures forall k :: Lookup(files, k) == Drained(Lookup(old(files), k), jobs, k)
    {
      for i := 0 to |jobs|
        invariant forall k :: Lookup(files, k) == Drained(Lookup(old(files), k), jobs[..i], k)
      {
        assert jobs[..i + 1][..i] == jobs[..i];
        Run(jobs[i]);
      }
      assert jobs[..|jobs|] == jobs;
    }
  }

  // ---------- the ticks ----------

  /** What the UI thread remembers of one key. */
  datatype Slot = Slot(written: Option<nat>, changed: Option<(nat, Time)>, adopted: bool)

  datatype Ledger = Ledger(written: map<Key, nat>, changed: map<Key, (nat, Time)>, adopted: set<Key>, queue: seq<Job>) {
    function At(k: Key): Slot {
      Slot(Lookup(written, k), Lookup(changed, k), k in adopted)
    }
  }

  function Elapsed(since: Time, now: Time): nat {
    if since <= now then now - since else 0
  }

  /** Since when a document has been as it is. */
  function Since(slot: Slot, tag: nat, now: Time): Time {
    if slot.changed.Some? && slot.changed.value.0 == tag then slot.changed.value.1 else now
  }

  /** One key's part in a tick: what is remembered afterwards, and the job sent, if any. */
  function SlotTick(k: Key, slot: Slot, doc: Option<Doc>, now: Time, persist: bool, flush: bool): (Slot, Option<Job>) {
    match doc
    case None =>
      if slot.written.Some? then (Slot(None, None, slot.adopted), Some(Delete(k))) else (slot, None)
    case Some(d) =>
      if !d.Dirty() then
        (Slot(None, None, false), if slot.written.Some? || slot.adopted then Some(Delete(k)) else None)
      else if slot.written == Some(d.Tag()) then (slot, None)
      else
        var since := Since(slot, d.Tag(), now);
        var changed := Some((d.Tag(), since));
        if !flush && Elapsed(since, now) < DEBOUNCE then (slot.(changed := changed), None)
        else (Slot(Some(d.Tag()), changed, false), Some(Write(k, d.ToRecord(persist))))
  }

  function MaybeEffect(file: Option<Record>, job: Option<Job>, key: Key): Option<Record> {
    if job.Some? then Effect(file, job.value, key) else file
  }

  /** A tick, key by key: what it remembers, and what it will have done to each key's file once its
      jobs are carried out after those already queued. */
  ghost predicate Ticked(s: Ledger, docs: map<Key, Doc>, now: Time, persist: bool, flush: bool, s': Ledger) {
    s.queue <= s'.queue &&
    (forall k :: s'.At(k) == SlotTick(k, s.At(k), Lookup(docs, k), now, persist, flush).0) &&
    (forall k, file :: Drained(file, s'.queue, k) ==
      MaybeEffect(Drained(file, s.queue, k), SlotTick(k, s.At(k), Lookup(docs, k), now, persist, flush).1, k))
  }

  /** What is left of the pause before this document is written; `None` if it is not to be. */
  function Wait(slot: Slot, doc: Doc, now: Time): Option<nat> {
    if !doc.Dirty() || slot.written == Some(doc.Tag()) then None
    else
      var quiet := Elapsed(Since(slot, doc.Tag(), now), now);
      if quiet < DEBOUNCE then Some(DEBOUNCE - quiet) else None
  }

  /** `next` is the least wait among `keys`. */
  ghost predicate Soonest(next: Option<nat>, s: Ledger, docs: map<Key, Doc>, keys: set<Key>, now: Time)
    requires keys <= docs.Keys
  {
    (next.Some? ==> exists k :: k in keys && Wait(s.At(k), docs[k], now) == next) &&
    (forall k :: k in keys && Wait(s.At(k), docs[k], now).Some? ==>
      next.Some? && next.value <= Wait(s.At(k), docs[k], now).value)
  }

  function Jobs(job: Option<Job>): seq<Job> {
    if job.Some? then [job.value] else []
  }

  lemma {:induction false} DrainedSnoc(file: Option<Record>, jobs: seq<Job>, job: Job, key: Key)
    ensures Drained(file, jobs + [job], key) == Effect(Drained(file, jobs, key), job, key)
  {
    assert (jobs + [job])[..|jobs|] == jobs;
  }

  lemma {:induction false} DrainedMaybe(file: Option<Record>, jobs: seq<Job>, job: Option<Job>, key: Key)
    ensures Drained(file, jobs + Jobs(job), key) == MaybeEffect(Drained(file, jobs, key), job, key)
  {
    if job.Some? {
      DrainedSnoc(file, jobs, job.value, key);
    } else {
      assert jobs + [] == jobs;
    }
  }

  /** A key's job, if any, is about that key. */
  lemma {:induction false} OwnJob(k: Key, slot: Slot, doc: Option<Doc>, now: Time, persist: bool, flush: bool, other: Key,
                                  file: Option<Record>)
    requires other != k
    ensures MaybeEffect(file, SlotTick(k, slot, doc, now, persist, flush).1, other) == file
  {
  }

  /** What a tick has done once it has dealt with `keys`. */
  ghost predicate Partly(s: Ledger, docs: map<Key, Doc>, keys: set<Key>, now: Time, persist: bool, flush: bool, s': Ledger) {
    s.queue <= s'.queue &&
    (forall k :: k in keys ==> s'.At(k) == SlotTick(k, s.At(k), Lookup(docs, k), now, persist, flush).0) &&
    (forall k :: k !in keys ==> s'.At(k) == s.At(k)) &&
    (forall k, file :: k in keys ==>
      (Drained(file, s'.queue, k) ==
       MaybeEffect(Drained(file, s.queue, k), SlotTick(k, s.At(k), Lookup(docs, k), now, persist, flush).1, k))) &&
    (forall k, file :: k !in keys ==> Drained(file, s'.queue, k) == Drained(file, s.queue, k))
  }

  /** Dealing with one more key. */
  lemma {:induction false} PartlyMore(s: Ledger, docs: map<Key, Doc>, keys: set<Key>, now: Time, persist: bool, flush: bool,
                                      mid: Ledger, key: Key, s': Ledger)
    requires Partly(s, docs, keys, now, persist, flush, mid) && key !in keys
    requires var (slot, job) := SlotTick(key, s.At(key), Lookup(docs, key), now, persist, flush);
      s'.queue == mid.queue + Jobs(job) && s'.At(key) == slot && forall k :: k != key ==> s'.At(k) == mid.At(k)
    ensures Partly(s, docs, keys + {key}, now, persist, flush, s')
  {
    var job := SlotTick(key, s.At(key), Lookup(docs, key), now, persist, flush).1;
    forall k, file
      ensures Drained(file, s'.queue, k) ==
        if k == key then MaybeEffect(Drained(file, mid.queue, k), job, k) else Drained(file, mid.queue, k)
    {
      DrainedMaybe(file, mid.queue, job, k);
      if k != key {
        OwnJob(key, s.At(key), Lookup(docs, key), now, persist, flush, k, Drained(file, mid.queue, k));
      }
    }
  }

  /** A key that is neither open nor remembered as written takes no part in a tick. */
  lemma {:induction false} PartlyAll(s: Ledger, docs: map<Key, Doc>, keys: set<Key>, now: Time, persist: bool, flush: bool,
                                     s': Ledger)
    requires Partly(s, docs, keys, now, persist, flush, s')
    requires docs.Keys <= keys && s.written.Keys <= keys
    ensures Ticked(s, docs, now, persist, flush, s')
  {
    forall k | k !in keys
      ensures SlotTick(k, s.At(k), Lookup(docs, k), now, persist, flush) == (s.At(k), None)
    {
    }
  }

  lemma {:induction false} StillRemembered(s: Ledger, docs: map<Key, Doc>, now: Time, persist: bool, flush: bool, s': Ledger)
    requires Partly(s, docs, docs.Keys, now, persist, flush, s')
    ensures forall k :: k !in docs ==> (k in s.written <==> k in s'.written)
  {
    forall k | k !in docs
      ensures k in s.written <==> k in s'.written
    {
      assert s'.At(k) == s.At(k);
    }
  }

  /** Asking to be told when the queue is empty changes no file. */
  lemma {:induction false} FlushedToo(s: Ledger, docs: map<Key, Doc>, now: Time, persist: bool, flush: bool, t: Ledger, u: Ledger)
    requires Ticked(s, docs, now, persist, flush, t) && u == t.(queue := t.queue + [Flush])
    ensures Ticked(s, docs, now, persist, flush, u)
  {
    forall k
      ensures u.At(k) == t.At(k)
    {
    }
    forall k, file
      ensures Drained(file, u.queue, k) == Drained(file, t.queue, k)
    {
      DrainedSnoc(file, t.queue, Flush, k);
    }
  }

  function Sooner(a: Option<nat>, b: Option<nat>): Option<nat> {
    if b.None? then a else if a.Some? && a.value <= b.value then a else b
  }

  lemma {:induction false} SoonestMore(next: Option<nat>, s: Ledger, docs: map<Key, Doc>, keys: set<Key>, now: Time, key: Key)
    requires keys <= docs.Keys && key in docs && Soonest(next, s, docs, keys, now)
    ensures Soonest(Sooner(next, Wait(s.At(key), docs[key], now)), s, docs, keys + {key}, now)
  {
    if next.Some? {
      var k :| k in keys && Wait(s.At(k), docs[k], now) == next;
      assert k in keys + {key};
    }
    assert key in keys + {key};
  }

  class Recovery {
    var written: map<Key, nat>
    var changed: map<Key, (nat, Time)>
    var adopted: set<Key>
    /** The jobs sent and not yet taken by the writer. */
    var queue: seq<Job>

    ghost function View(): Ledger
      reads this
    {
      Ledger(written, changed, adopted, queue)
    }

    constructor ()
      ensures View() == Ledger(map[], map[], {}, [])
    {
      written, changed, adopted, queue := map[], map[], {}, [];
    }

    method Send(job: Job)
      modifies this`queue
      ensures queue == old(queue) + [job]
    {
      queue := queue + [job];
    }

    /** One document's turn in a tick; answers how long its pending write still has to wait. */
    method TickOne(key: Key, doc: Doc, now: Time, persist: bool, flush: bool) returns (wait: Option<nat>)
      modifies this
      ensures var (slot, job) := SlotTick(key, old(View()).At(key), Some(doc), now, persist, flush);
        queue == old(queue) + Jobs(job) && View().At(key) == slot
      ensures forall k :: k != key ==> View().At(k) == old(View()).At(k)
      ensures wait == if flush then None else Wait(old(View()).At(key), doc, now)
    {
      wait := None;
      if !doc.Dirty() {
        var wrote := key in written;
        var was := key in adopted;
        written := written - {key};
        adopted := adopted - {key};
        changed := changed - {key};
        if was || wrote {
          Send(Delete(key));
        }
        return;
      }
      var version := doc.Tag();
      if key in written && written[key] == version {
        return;
      }
      var since := now;
      if key in changed && changed[key].0 == version {
        since := changed[key].1;
      } else {
        changed := changed[key := (version, now)];
      }
      var quiet := Elapsed(since, now);
      if !flush && quiet < DEBOUNCE {
        wait := Some(DEBOUNCE - quiet);
        return;
      }
      Send(Write(key, doc.ToRecord(persist)));
      written := written[key := version];
      adopted := adopted - {key};
    }

    /** One `SlotTick` for every key, in an order that does not matter, then the closed ones; `next` is the
        least of the waits. */
    method Tick(docs: map<Key, Doc>, now: Time, persist: bool, flush: bool) returns (next: Option<nat>)
      modifies this
      ensures Ticked(old(View()), docs, now, persist, flush, View())
      ensures flush ==> next == None && queue != [] && queue[|queue| - 1] == Flush
      ensures !flush ==> Soonest(next, old(View()), docs, docs.Keys, now)
    {
      next := None;
      var todo := docs.Keys;
      while todo != {}
        invariant todo <= docs.Keys
        invariant Partly(old(View()), docs, docs.Keys - todo, now, persist, flush, View())
        invariant if flush then next == None else Soonest(next, old(View()), docs, docs.Keys - todo, now)
      {
        var key :| key in todo;
        ghost var mid := View();
        var wait := TickOne(key, docs[key], now, persist, flush);
        PartlyMore(old(View()), docs, docs.Keys - todo, now, persist, flush, mid, key, View());
        if !flush {
          SoonestMore(next, old(View()), docs, docs.Keys - todo, now, key);
        }
        next := Sooner(next, wait);
        assert docs.Keys - (todo - {key}) == docs.Keys - todo + {key};
        todo := todo - {key};
      }
      assert docs.Keys - {} == docs.Keys;
      DropClosed(docs, now, persist, flush, old(View()));
      if flush {
        ghost var before := View();
        Send(Flush);
        FlushedToo(old(View()), docs, now, persist, flush, before, View());
      }
    }

    method CloseOne(key: Key)
      modifies this
      ensures queue == old(queue) + [Delete(key)]
      ensures View().At(key) == Slot(None, None, key in old(adopted))
      ensures forall k :: k != key ==> View().At(k) == old(View()).At(k)
    {
      written := written - {key};
      changed := changed - {key};
      Send(Delete(key));
    }

    /** A `Delete` is queued for each key that was written and is no longer open, and its slot is cleared. */
    method DropClosed(docs: map<Key, Doc>, ghost now: Time, ghost persist: bool, ghost flush: bool, ghost before: Ledger)
      requires Partly(before, docs, docs.Keys, now, persist, flush, View())
      modifies this
      ensures Ticked(before, docs, now, persist, flush, View())
    {
      var gone := set k | k in written && k !in docs;
      ghost var closed := gone;
      ghost var dealt := docs.Keys;
      StillRemembered(before, docs, now, persist, flush, View());
      while gone != {}
        invariant gone <= closed && gone !! dealt && docs.Keys <= dealt && dealt + gone == docs.Keys + closed
        invariant forall k :: k in gone ==> View().At(k) == before.At(k) && k in before.written && k !in docs
        invariant Partly(before, docs, dealt, now, persist, flush, View())
      {
        var key :| key in gone;
        ghost var mid := View();
        assert mid.At(key) == before.At(key);
        CloseOne(key);
        PartlyMore(before, docs, dealt, now, persist, flush, mid, key, View());
        gone, dealt := gone - {key}, dealt + {key};
      }
      PartlyAll(before, docs, dealt, now, persist, flush, View());
    }

    /** `key` joins the adopted ones; nothing is queued. */
    method Adopt(key: Key)
      modifies this
      ensures View() == old(View()).(adopted := old(adopted) + {key})
    {
      adopted := adopted + {key};
    }

    /** `StripHistories` is queued behind everything else, and no key counts as written any more. */
    method DropHistories()
      modifies this
      ensures View() == old(View()).(written := map[], queue := old(queue) + [StripHistories])
    {
      written := map[];
      Send(StripHistories);
    }
  }
}
