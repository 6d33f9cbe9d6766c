/**
 * What crash recovery promises, in every interleaving of edits, saves, closes, ticks and writer steps.
 */
module RecoveryLaws {
  import opened Outcome
  import opened Recoveries

  /** The UI thread's memory, the jobs between the threads, and the recovery folder. */
  datatype System = System(ledger: Ledger, files: map<Key, Record>)

  /** A tick sees whatever documents edits, saves and closes have left. */
  datatype Event =
    | Tick(docs: map<Key, Doc>, now: Time, persist: bool, flush: bool)
    | WriteOne
    | DropAll

  /** At launch every record found is adopted. */
  function Launch(files: map<Key, Record>): System {
    System(Ledger(map[], map[], files.Keys, []), files)
  }

  ghost predicate StepTo(x: System, e: Event, y: System) {
    match e
    case Tick(docs, now, persist, flush) => y.files == x.files && Ticked(x.ledger, docs, now, persist, flush, y.ledger)
    case WriteOne =>
      x.ledger.queue != [] && y.ledger == x.ledger.(queue := x.ledger.queue[1..]) &&
      forall k :: Lookup(y.files, k) == Effect(Lookup(x.files, k), x.ledger.queue[0], k)
    case DropAll =>
      y == x.(ledger := x.ledger.(written := map[], queue := x.ledger.queue + [StripHistories]))
  }

  /** Every state of a run, the first one included. */
  ghost predicate IsRun(states: seq<System>, events: seq<Event>) {
    |states| == |events| + 1 && forall i :: 0 <= i < |events| ==> StepTo(states[i], events[i], states[i + 1])
  }

  /** A run from the launch on. */
  ghost predicate IsSession(states: seq<System>, events: seq<Event>) {
    IsRun(states, events) && states[0] == Launch(states[0].files)
  }

  /** The file of `k` once the writer has caught up. */
  function Final(x: System, k: Key): Option<Record> {
    Drained(Lookup(x.files, k), x.ledger.queue, k)
  }

  lemma {:induction false} DrainedCons(file: Option<Record>, jobs: seq<Job>, k: Key)
    requires jobs != []
    ensures Drained(file, jobs, k) == Drained(Effect(file, jobs[0], k), jobs[1..], k)
    decreases |jobs|
  {
    var init := jobs[..|jobs| - 1];
    if init == [] {
      assert jobs[1..] == [] && jobs == [] + [jobs[0]];
    } else {
      DrainedCons(file, init, k);
      assert jobs[1..][..|jobs| - 2] == init[1..];
    }
  }

  /** The writer's progress changes no final outcome. */
  lemma {:induction false} WritingKeepsFinal(x: System, y: System, k: Key)
    requires StepTo(x, WriteOne, y)
    ensures Final(y, k) == Final(x, k)
  {
    DrainedCons(Lookup(x.files, k), x.ledger.queue, k);
  }

  // ---------- one key at a time ----------

  /** What is remembered of a key, and what its file will hold in the end. */
  datatype Life = Life(slot: Slot, file: Option<Record>)

  function LifeOf(x: System, k: Key): Life {
    Life(x.ledger.At(k), Final(x, k))
  }

  function Next(k: Key, l: Life, e: Event): Life {
    match e
    case Tick(docs, now, persist, flush) =>
      var (slot, job) := SlotTick(k, l.slot, Lookup(docs, k), now, persist, flush);
      Life(slot, MaybeEffect(l.file, job, k))
    case WriteOne => l
    case DropAll => Life(l.slot.(written := None), Effect(l.file, StripHistories, k))
  }

  /** No key's life depends on another's. */
  lemma {:induction false} StepIsNext(x: System, e: Event, y: System, k: Key)
    requires StepTo(x, e, y)
    ensures LifeOf(y, k) == Next(k, LifeOf(x, k), e)
  {
    match e
    case Tick(docs, now, persist, flush) => TickIsNext(x, e, y, k);
    case WriteOne => WritingKeepsFinal(x, y, k);
    case DropAll => DrainedSnoc(Lookup(x.files, k), x.ledger.queue, StripHistories, k);
  }

  lemma {:induction false} TickIsNext(x: System, e: Event, y: System, k: Key)
    requires e.Tick? && StepTo(x, e, y)
    ensures LifeOf(y, k) == Next(k, LifeOf(x, k), e)
  {
    var slot, doc := x.ledger.At(k), Lookup(e.docs, k);
    assert y.ledger.At(k) == SlotTick(k, slot, doc, e.now, e.persist, e.flush).0;
    assert Final(y, k) == MaybeEffect(Final(x, k), SlotTick(k, slot, doc, e.now, e.persist, e.flush).1, k);
  }

  /** A tick that sees a document of `k` with something unsaved. */
  predicate Sees(e: Event, k: Key) {
    e.Tick? && k in e.docs && e.docs[k].Dirty()
  }

  /** An event that sends the current text of `k` to be written. */
  predicate Writes(k: Key, l: Life, e: Event) {
    Sees(e, k) && SlotTick(k, l.slot, Some(e.docs[k]), e.now, e.persist, e.flush).1.Some?
  }

  // ---------- one file for each key in charge ----------

  predicate InCharge(s: Ledger, k: Key) {
    k in s.written || k in s.adopted
  }

  /** The queue invariant for one key: it will have a file exactly when it is written or adopted, and
      it is never both. */
  ghost predicate Owned(x: System, k: Key) {
    (Final(x, k).Some? <==> InCharge(x.ledger, k)) && !(k in x.ledger.written && k in x.ledger.adopted)
  }

  /** A file nobody is in charge of. */
  ghost predicate Orphaned(x: System, k: Key) {
    Final(x, k).Some? && !InCharge(x.ledger, k)
  }

  lemma {:induction false} StepKeepsOwned(x: System, e: Event, y: System, k: Key)
    requires StepTo(x, e, y) && !e.DropAll? && Owned(x, k)
    ensures Owned(y, k)
  {
    StepIsNext(x, e, y, k);
    assert InCharge(x.ledger, k) <==> x.ledger.At(k).written.Some? || x.ledger.At(k).adopted;
    assert InCharge(y.ledger, k) <==> y.ledger.At(k).written.Some? || y.ledger.At(k).adopted;
  }

  /** Dropping histories orphans exactly the files that were written. */
  lemma {:induction false} DropOrphans(x: System, y: System, k: Key)
    requires StepTo(x, DropAll, y) && Owned(x, k)
    ensures Orphaned(y, k) <==> k in x.ledger.written
    ensures k !in x.ledger.written ==> Owned(y, k)
  {
    StepIsNext(x, DropAll, y, k);
    assert InCharge(y.ledger, k) <==> y.ledger.At(k).adopted;
  }

  /** An orphaned file is in charge again exactly when its document is next written; until then it
      stays. */
  lemma {:induction false} OrphanStaysUntilWritten(x: System, e: Event, y: System, k: Key)
    requires StepTo(x, e, y) && Orphaned(x, k)
    ensures if Writes(k, LifeOf(x, k), e) then Owned(y, k) else Orphaned(y, k)
  {
    StepIsNext(x, e, y, k);
    assert x.ledger.At(k).written.None? && !x.ledger.At(k).adopted;
    assert InCharge(y.ledger, k) <==> y.ledger.At(k).written.Some? || y.ledger.At(k).adopted;
  }

  /** At the `d`th event histories were dropped while `k` was written, and nothing has written it since. */
  ghost predicate NotWrittenSince(states: seq<System>, events: seq<Event>, d: nat, n: nat, k: Key)
    requires |states| == |events| + 1 && n <= |events|
  {
    d < n && events[d].DropAll? && k in states[d].ledger.written &&
    forall j :: d < j < n ==> !Writes(k, LifeOf(states[j], k), events[j])
  }

  ghost predicate DroppedUnwritten(states: seq<System>, events: seq<Event>, n: nat, k: Key)
    requires |states| == |events| + 1 && n <= |events|
  {
    exists d: nat :: NotWrittenSince(states, events, d, n, k)
  }

  /** Over every session, dropped histories included: a key's file is as it should be, unless histories
      were dropped while it was written and it has not been written since; and then the file is there and
      nobody's. */
  lemma {:induction false} OrphanedExactly(states: seq<System>, events: seq<Event>, n: nat, k: Key)
    requires IsSession(states, events) && n <= |events|
    ensures Orphaned(states[n], k) <==> DroppedUnwritten(states, events, n, k)
    ensures Owned(states[n], k) <==> !Orphaned(states[n], k)
    decreases n
  {
    if n > 0 {
      var x, e, y := states[n - 1], events[n - 1], states[n];
      OrphanedExactly(states, events, n - 1, k);
      assert StepTo(x, e, y);
      if Orphaned(x, k) {
        OrphanStaysUntilWritten(x, e, y, k);
        var d: nat :| NotWrittenSince(states, events, d, n - 1, k);
        if !Writes(k, LifeOf(x, k), e) {
          assert NotWrittenSince(states, events, d, n, k);
        } else {
          NothingPending(states, events, n, k);
        }
      } else if e.DropAll? {
        DropOrphans(x, y, k);
        if k in x.ledger.written {
          assert NotWrittenSince(states, events, n - 1, n, k);
        } else {
          NonePending(states, events, n, k);
        }
      } else {
        StepKeepsOwned(x, e, y, k);
        NonePending(states, events, n, k);
      }
    }
  }

  lemma {:induction false} NothingPending(states: seq<System>, events: seq<Event>, n: nat, k: Key)
    requires |states| == |events| + 1 && 0 < n <= |events| && Writes(k, LifeOf(states[n - 1], k), events[n - 1])
    ensures !DroppedUnwritten(states, events, n, k)
  {
  }

  lemma {:induction false} NonePending(states: seq<System>, events: seq<Event>, n: nat, k: Key)
    requires |states| == |events| + 1 && 0 < n <= |events|
    requires !DroppedUnwritten(states, events, n - 1, k)
    requires events[n - 1].DropAll? ==> k !in states[n - 1].ledger.written
    ensures !DroppedUnwritten(states, events, n, k)
  {
    forall d: nat | NotWrittenSince(states, events, d, n, k)
      ensures NotWrittenSince(states, events, d, n - 1, k)
    {
    }
  }

  /** As long as histories are not dropped, draining the queue leaves, whatever the interleaving, exactly
      one file for every key that is written or adopted, and no other; and no key is both. */
  lemma {:induction false} ExactlyOneFileEach(states: seq<System>, events: seq<Event>, n: nat, drained: map<Key, Record>)
    requires IsSession(states, events) && n <= |events| && forall i :: 0 <= i < n ==> !events[i].DropAll?
    requires forall k :: Lookup(drained, k) == Final(states[n], k)
    ensures drained.Keys == states[n].ledger.written.Keys + states[n].ledger.adopted
    ensures states[n].ledger.written.Keys !! states[n].ledger.adopted
  {
    forall k
      ensures k in drained.Keys <==> InCharge(states[n].ledger, k)
      ensures !(k in states[n].ledger.written && k in states[n].ledger.adopted)
    {
      OrphanedExactly(states, events, n, k);
      assert Lookup(drained, k) == Final(states[n], k);
    }
  }

  /** A tick that sees `k` clean, or closed and not adopted, should leave it no file. It leaves one exactly
      when histories were dropped while `k` was written and it went clean or was closed before it was
      written again. */
  lemma {:induction false} LeftBehindExactly(states: seq<System>, events: seq<Event>, n: nat, k: Key)
    requires IsSession(states, events) && n < |events| && events[n].Tick? && !Sees(events[n], k)
    requires k in events[n].docs || k !in states[n].ledger.adopted
    ensures Final(states[n + 1], k).Some? <==> DroppedUnwritten(states, events, n + 1, k)
  {
    OrphanedExactly(states, events, n + 1, k);
    StepIsNext(states[n], events[n], states[n + 1], k);
    assert InCharge(states[n + 1].ledger, k) <==>
      states[n + 1].ledger.At(k).written.Some? || states[n + 1].ledger.At(k).adopted;
    assert k in states[n].ledger.adopted <==> states[n].ledger.At(k).adopted;
  }

  // ---------- what the files hold ----------

  /** An event that leaves what was written of `k` as it is. */
  predicate Leaves(k: Key, l: Life, e: Event) {
    e.WriteOne? || (Sees(e, k) && !Writes(k, l, e))
  }

  /** The `i`th event wrote `k`, and every tick since has seen it unsaved and has not written it. */
  ghost predicate LastWrite(states: seq<System>, events: seq<Event>, i: nat, n: nat, k: Key)
    requires |states| == |events| + 1 && n <= |events|
  {
    i < n && Writes(k, LifeOf(states[i], k), events[i]) &&
    forall j :: i < j < n ==> Leaves(k, LifeOf(states[j], k), events[j])
  }

  ghost predicate HasLastWrite(states: seq<System>, events: seq<Event>, n: nat, k: Key)
    requires |states| == |events| + 1 && n <= |events|
  {
    exists i: nat :: LastWrite(states, events, i, n, k)
  }

  /** A record of all that a document holds, its history only if histories are kept. */
  predicate SaysAll(file: Option<Record>, d: Doc, persist: bool) {
    file.Some? && file.value.text == d.text && file.value.language == d.language && file.value.wrap == d.wrap &&
    file.value.history == if persist then Some(d.history) else None
  }

  /** What is written of a key is its last write: under that tick's tag, and that tick's text. */
  lemma {:induction false} LastWriteHolds(states: seq<System>, events: seq<Event>, i: nat, n: nat, k: Key)
    requires IsRun(states, events) && n <= |events| && LastWrite(states, events, i, n, k)
    ensures Lookup(states[n].ledger.written, k) == Some(events[i].docs[k].Tag())
    ensures Final(states[n], k) == Some(events[i].docs[k].ToRecord(events[i].persist))
    ensures SaysAll(Final(states[n], k), events[i].docs[k], events[i].persist)
    decreases n
  {
    assert StepTo(states[n - 1], events[n - 1], states[n]);
    StepIsNext(states[n - 1], events[n - 1], states[n], k);
    assert states[n].ledger.At(k).written == Lookup(states[n].ledger.written, k);
    if i < n - 1 {
      LastWriteHolds(states, events, i, n - 1, k);
      assert states[n - 1].ledger.At(k).written == Lookup(states[n - 1].ledger.written, k);
    }
  }

  /** And a key is written exactly when it has a last write. */
  lemma {:induction false} WrittenHasLastWrite(states: seq<System>, events: seq<Event>, n: nat, k: Key)
    requires IsSession(states, events) && n <= |events|
    ensures k in states[n].ledger.written <==> HasLastWrite(states, events, n, k)
    decreases n
  {
    if HasLastWrite(states, events, n, k) {
      var i: nat :| LastWrite(states, events, i, n, k);
      LastWriteHolds(states, events, i, n, k);
    }
    if n > 0 && k in states[n].ledger.written {
      WrittenHasLastWrite(states, events, n - 1, k);
      assert StepTo(states[n - 1], events[n - 1], states[n]);
      StillWritten(states[n - 1], events[n - 1], states[n], k);
      LastWriteGoesOn(states, events, n, k);
    }
  }

  lemma {:induction false} LastWriteGoesOn(states: seq<System>, events: seq<Event>, n: nat, k: Key)
    requires |states| == |events| + 1 && 0 < n <= |events|
    requires Writes(k, LifeOf(states[n - 1], k), events[n - 1]) ||
      (Leaves(k, LifeOf(states[n - 1], k), events[n - 1]) && HasLastWrite(states, events, n - 1, k))
    ensures HasLastWrite(states, events, n, k)
  {
    if Writes(k, LifeOf(states[n - 1], k), events[n - 1]) {
      assert LastWrite(states, events, n - 1, n, k);
    } else {
      var i: nat :| LastWrite(states, events, i, n - 1, k);
      assert LastWrite(states, events, i, n, k);
    }
  }

  lemma {:induction false} StillWritten(x: System, e: Event, y: System, k: Key)
    requires StepTo(x, e, y) && k in y.ledger.written
    ensures Writes(k, LifeOf(x, k), e) || (Leaves(k, LifeOf(x, k), e) && k in x.ledger.written)
  {
    StepIsNext(x, e, y, k);
    assert y.ledger.At(k).written.Some?;
    WrittenStays(k, LifeOf(x, k), e);
    assert x.ledger.At(k).written == Lookup(x.ledger.written, k);
  }

  lemma {:induction false} WrittenStays(k: Key, l: Life, e: Event)
    requires Next(k, l, e).slot.written.Some?
    ensures Writes(k, l, e) || (Leaves(k, l, e) && l.slot.written.Some?)
  {
  }

  /** The tag and the text a tick saw `k` with. */
  predicate SeenAs(e: Event, k: Key, tag: nat, text: string) {
    Sees(e, k) && e.docs[k].Tag() == tag && e.docs[k].text == text
  }

  /** What a written key's file will hold is the text some tick saw under that very tag. */
  lemma {:induction false} WrittenIsSeen(states: seq<System>, events: seq<Event>, n: nat, k: Key)
    requires IsSession(states, events) && n <= |events| && k in states[n].ledger.written
    ensures Final(states[n], k).Some?
    ensures exists i :: 0 <= i < n && SeenAs(events[i], k, states[n].ledger.written[k], Final(states[n], k).value.text)
  {
    WrittenHasLastWrite(states, events, n, k);
    var i: nat :| LastWrite(states, events, i, n, k);
    LastWriteHolds(states, events, i, n, k);
    assert SeenAs(events[i], k, states[n].ledger.written[k], Final(states[n], k).value.text);
  }

  /** The version tag tells the texts of `k` apart. */
  ghost predicate TagsTellTextsApart(events: seq<Event>, k: Key) {
    forall i, j :: 0 <= i < j < |events| && Sees(events[i], k) && Sees(events[j], k) ==>
      SameTagSameText(events[i].docs[k], events[j].docs[k])
  }

  predicate SameTagSameText(a: Doc, b: Doc) {
    a.Tag() == b.Tag() ==> a.text == b.text
  }

  /** From the `i`th event to the `j`th every tick sees `k` unsaved. */
  predicate SeenThroughout(events: seq<Event>, i: nat, j: nat, k: Key)
    requires i < j < |events|
  {
    Sees(events[i], k) && Sees(events[j], k) && forall m :: i < m < j && events[m].Tick? ==> Sees(events[m], k)
  }

  /** A document's version never goes down, and goes up with every change of its text. */
  ghost predicate VersionsAdvance(events: seq<Event>, k: Key) {
    forall i, j :: 0 <= i < j < |events| && SeenThroughout(events, i, j, k) ==> Advances(events[i].docs[k], events[j].docs[k])
  }

  predicate Advances(was: Doc, now: Doc) {
    was.version <= now.version && (was.version == now.version ==> was.text == now.text)
  }

  /** A flush of a dirty document either writes it or finds it written under its tag. */
  lemma {:induction false} FlushWritesOrSkips(states: seq<System>, events: seq<Event>, n: nat, k: Key)
    requires IsRun(states, events) && n < |events| && Sees(events[n], k) && events[n].flush
    ensures var d := events[n].docs[k];
      if Lookup(states[n].ledger.written, k) == Some(d.Tag()) then Final(states[n + 1], k) == Final(states[n], k)
      else Final(states[n + 1], k) == Some(d.ToRecord(events[n].persist))
  {
    assert StepTo(states[n], events[n], states[n + 1]);
    StepIsNext(states[n], events[n], states[n + 1], k);
    assert states[n].ledger.At(k).written == Lookup(states[n].ledger.written, k);
  }

  predicate Holds(file: Option<Record>, text: string) {
    file.Some? && file.value.text == text
  }

  /** After a flush tick every dirty document's file will hold its current text, provided its version tag
      tells its texts apart. */
  lemma {:induction false} FlushKeepsEverything(states: seq<System>, events: seq<Event>, n: nat, k: Key)
    requires IsSession(states, events) && n < |events| && Sees(events[n], k) && events[n].flush
    requires TagsTellTextsApart(events, k)
    ensures Holds(Final(states[n + 1], k), events[n].docs[k].text)
  {
    FlushWritesOrSkips(states, events, n, k);
    if Lookup(states[n].ledger.written, k) == Some(events[n].docs[k].Tag()) {
      WrittenHasLastWrite(states, events, n, k);
      var i: nat :| LastWrite(states, events, i, n, k);
      LastWriteHolds(states, events, i, n, k);
      assert SameTagSameText(events[i].docs[k], events[n].docs[k]);
    }
  }

  /** Two states of a document under one tag: its file was deleted, then it came back and the text was
      changed, one version on. */
  predicate Collide(was: Doc, now: Doc) {
    was.deleted && !now.deleted && now.version == was.version + 1 && was.text != now.text
  }

  lemma {:induction false} SameTagCollides(was: Doc, now: Doc)
    requires Advances(was, now)
    ensures was.Tag() == now.Tag() && was.text != now.text <==> Collide(was, now)
  {
  }

  /** From versions that only advance: after a flush a dirty document's file lacks its current text if and
      only if it was last written when its file had been deleted, one version ago and with another text. */
  lemma {:induction false} FlushExactly(states: seq<System>, events: seq<Event>, n: nat, k: Key)
    requires IsSession(states, events) && n < |events| && Sees(events[n], k) && events[n].flush
    requires VersionsAdvance(events, k)
    ensures !Holds(Final(states[n + 1], k), events[n].docs[k].text) <==>
      exists i: nat :: LastWrite(states, events, i, n, k) && Collide(events[i].docs[k], events[n].docs[k])
  {
    var d := events[n].docs[k];
    FlushWritesOrSkips(states, events, n, k);
    WrittenHasLastWrite(states, events, n, k);
    forall i: nat | LastWrite(states, events, i, n, k)
      ensures Lookup(states[n].ledger.written, k) == Some(events[i].docs[k].Tag())
      ensures Holds(Final(states[n], k), events[i].docs[k].text)
      ensures events[i].docs[k].Tag() == d.Tag() && events[i].docs[k].text != d.text <==> Collide(events[i].docs[k], d)
    {
      LastWriteHolds(states, events, i, n, k);
      assert SeenThroughout(events, i, n, k) by {
        forall m | i < m < n && events[m].Tick?
          ensures Sees(events[m], k)
        {
          assert Leaves(k, LifeOf(states[m], k), events[m]);
        }
      }
      SameTagCollides(events[i].docs[k], d);
    }
  }

  /** The tag can collide. A clean document whose file is deleted is written under its version plus
      one; when the file comes back and the document is edited once before the next tick, its tag is
      the same and its file keeps the old text. */
  lemma {:induction false} DeletedThenEditedOnceCollides(x: System, y: System, z: System, k: Key, v: nat, t0: Time, t1: Time)
    requires Owned(x, k) && !InCharge(x.ledger, k)
    requires StepTo(x, Tick(map[k := Doc(v, true, false, "old", "", None, None)], t0, false, true), y)
    requires StepTo(y, Tick(map[k := Doc(v + 1, false, true, "new", "", None, None)], t1, false, true), z)
    ensures Final(z, k).Some? && Final(z, k).value.text == "old"
  {
    StepIsNext(x, Tick(map[k := Doc(v, true, false, "old", "", None, None)], t0, false, true), y, k);
    StepIsNext(y, Tick(map[k := Doc(v + 1, false, true, "new", "", None, None)], t1, false, true), z, k);
    assert x.ledger.At(k).written.None?;
  }

  // ---------- the pause before a write ----------

  /** From the `m`th event to the `n`th, both ticks, every tick sees `k` unsaved under one tag. */
  ghost predicate StaysAs(events: seq<Event>, m: nat, n: nat, k: Key, tag: nat)
    requires m <= n < |events|
  {
    events[m].Tick? && events[n].Tick? &&
    forall j :: m <= j <= n && events[j].Tick? ==> Sees(events[j], k) && events[j].docs[k].Tag() == tag
  }

  /** The change to `tag` has been noticed, not later than `at`. */
  predicate Noticed(slot: Slot, tag: nat, at: Time) {
    slot.changed.Some? && slot.changed.value.0 == tag && slot.changed.value.1 <= at
  }

  /** Written under `tag`, but the change noticed last was another. */
  predicate Unnoticed(slot: Slot, tag: nat) {
    slot.written == Some(tag) && !(slot.changed.Some? && slot.changed.value.0 == tag)
  }

  lemma {:induction false} NoticedStays(states: seq<System>, events: seq<Event>, m: nat, n: nat, k: Key, tag: nat, j: nat)
    requires IsRun(states, events) && m <= n < |events| && StaysAs(events, m, n, k, tag) && m < j <= n + 1
    requires var slot := states[m].ledger.At(k);
      (slot.changed.Some? && slot.changed.value.0 == tag ==> slot.changed.value.1 <= events[m].now) &&
      (Unnoticed(slot, tag) ==> forall i :: m <= i <= n ==> !events[i].DropAll?)
    ensures var slot := states[j].ledger.At(k);
      Noticed(slot, tag, events[m].now) || (Unnoticed(states[m].ledger.At(k), tag) && slot.written == Some(tag))
    decreases j
  {
    if j > m + 1 {
      NoticedStays(states, events, m, n, k, tag, j - 1);
    }
    assert StepTo(states[j - 1], events[j - 1], states[j]);
    StepIsNext(states[j - 1], events[j - 1], states[j], k);
  }

  /** The clock does not go back. */
  ghost predicate ClockAscends(events: seq<Event>) {
    forall i, j :: 0 <= i < j < |events| && events[i].Tick? && events[j].Tick? ==> events[i].now <= events[j].now
  }

  lemma {:induction false} ChangesArePast(states: seq<System>, events: seq<Event>, n: nat, k: Key, now: Time)
    requires IsSession(states, events) && n <= |events|
    requires forall i :: 0 <= i < n && events[i].Tick? ==> events[i].now <= now
    ensures states[n].ledger.At(k).changed.Some? ==> states[n].ledger.At(k).changed.value.1 <= now
    decreases n
  {
    if n > 0 {
      ChangesArePast(states, events, n - 1, k, now);
      assert StepTo(states[n - 1], events[n - 1], states[n]);
      StepIsNext(states[n - 1], events[n - 1], states[n], k);
      ChangeIsNow(k, LifeOf(states[n - 1], k), events[n - 1], now);
    }
  }

  lemma {:induction false} ChangeIsNow(k: Key, l: Life, e: Event, now: Time)
    requires (l.slot.changed.Some? ==> l.slot.changed.value.1 <= now) && (e.Tick? ==> e.now <= now)
    ensures var slot := Next(k, l, e).slot; slot.changed.Some? ==> slot.changed.value.1 <= now
  {
  }

  /** A dirty document that stays as it is, is written at the latest by the first tick 400 ms after one
      saw it, however many ticks there are in between and even if histories are dropped meanwhile; unless
      they are while it stands written and another change was noticed since. */
  lemma {:induction false} WrittenAfterThePause(states: seq<System>, events: seq<Event>, m: nat, n: nat, k: Key, tag: nat)
    requires IsSession(states, events) && ClockAscends(events) && m < n < |events| && StaysAs(events, m, n, k, tag)
    requires Unnoticed(states[m].ledger.At(k), tag) ==> forall i :: m <= i <= n ==> !events[i].DropAll?
    ensures events[m].now + DEBOUNCE <= events[n].now ==> Lookup(states[n + 1].ledger.written, k) == Some(tag)
  {
    ChangesArePast(states, events, m, k, events[m].now);
    NoticedStays(states, events, m, n, k, tag, n);
    assert StepTo(states[n], events[n], states[n + 1]);
    StepIsNext(states[n], events[n], states[n + 1], k);
    assert states[n + 1].ledger.At(k).written == Lookup(states[n + 1].ledger.written, k);
  }

  /** That case is real. A document is written, its file is seen deleted and then back, and histories are
      dropped: what is rewritten must wait for its pause anew. */
  lemma {:induction false} BackThenDropped(a: System, b: System, c: System, d: System, e: System, k: Key, v: nat, t: Time)
    requires Lookup(a.ledger.written, k) == Some(v) && (k in a.ledger.changed ==> a.ledger.changed[k].0 == v)
    requires StepTo(a, Tick(map[k := Doc(v, true, true, "text", "", None, None)], t, false, false), b)
    requires StepTo(b, Tick(map[k := Doc(v, false, true, "text", "", None, None)], t, false, false), c)
    requires StepTo(c, DropAll, d)
    requires StepTo(d, Tick(map[k := Doc(v, false, true, "text", "", None, None)], t + DEBOUNCE, false, false), e)
    ensures Lookup(c.ledger.written, k) == Some(v) && Lookup(e.ledger.written, k) == None
  {
    StepIsNext(a, Tick(map[k := Doc(v, true, true, "text", "", None, None)], t, false, false), b, k);
    StepIsNext(b, Tick(map[k := Doc(v, false, true, "text", "", None, None)], t, false, false), c, k);
    StepIsNext(c, DropAll, d, k);
    StepIsNext(d, Tick(map[k := Doc(v, false, true, "text", "", None, None)], t + DEBOUNCE, false, false), e, k);
    assert a.ledger.At(k).written == Some(v) && c.ledger.At(k).written == Lookup(c.ledger.written, k);
    assert e.ledger.At(k).written == Lookup(e.ledger.written, k);
  }

  /** And one that has just changed is not written before, unless everything is flushed. */
  lemma {:induction false} NotWrittenBefore(states: seq<System>, events: seq<Event>, m: nat, n: nat, k: Key, tag: nat, j: nat)
    requires IsRun(states, events) && m <= j <= n < |events| && StaysAs(events, m, n, k, tag)
    requires var slot := states[m].ledger.At(k);
      slot.written != Some(tag) && (slot.changed.Some? ==> slot.changed.value.0 != tag)
    requires forall i :: m <= i <= n && events[i].Tick? ==>
      !events[i].flush && events[m].now <= events[i].now < events[m].now + DEBOUNCE
    ensures !Writes(k, LifeOf(states[j], k), events[j])
    ensures states[j].ledger.At(k).written != Some(tag)
    ensures j > m ==> states[j].ledger.At(k).changed == Some((tag, events[m].now))
    decreases j
  {
    if j == m {
      FirstSight(k, LifeOf(states[m], k), events[m], tag);
    } else {
      NotWrittenBefore(states, events, m, n, k, tag, j - 1);
      assert StepTo(states[j - 1], events[j - 1], states[j]);
      StepIsNext(states[j - 1], events[j - 1], states[j], k);
      if j - 1 == m {
        FirstSight(k, LifeOf(states[m], k), events[m], tag);
      } else {
        StillPausing(k, LifeOf(states[j - 1], k), events[j - 1], tag, events[m].now);
      }
      StillPausing(k, LifeOf(states[j], k), events[j], tag, events[m].now);
    }
  }

  lemma {:induction false} FirstSight(k: Key, l: Life, e: Event, tag: nat)
    requires Sees(e, k) && e.docs[k].Tag() == tag && !e.flush
    requires l.slot.written != Some(tag) && (l.slot.changed.Some? ==> l.slot.changed.value.0 != tag)
    ensures !Writes(k, l, e)
    ensures var slot := Next(k, l, e).slot; slot.written != Some(tag) && slot.changed == Some((tag, e.now))
  {
  }

  lemma {:induction false} StillPausing(k: Key, l: Life, e: Event, tag: nat, since: Time)
    requires l.slot.written != Some(tag) && l.slot.changed == Some((tag, since))
    requires e.Tick? ==> Sees(e, k) && e.docs[k].Tag() == tag && !e.flush && since <= e.now < since + DEBOUNCE
    ensures !Writes(k, l, e)
    ensures var slot := Next(k, l, e).slot; slot.written != Some(tag) && slot.changed == l.slot.changed
  {
  }

  // ---------- the wait that is announced ----------

  /** A wait is announced exactly for a document that is yet to be written: this tick leaves it, and of the
      later ones that see it as it is the first to write it is the first at which the wait is over. */
  lemma {:induction false} WaitIsExact(k: Key, slot: Slot, d: Doc, now: Time, persist: bool, later: Time)
    requires slot.changed.Some? ==> slot.changed.value.1 <= now
    requires now <= later
    ensures var (next, job) := SlotTick(k, slot, Some(d), now, persist, false);
      var wait := Wait(slot, d, now);
      (wait.Some? <==> d.Dirty() && slot.written != Some(d.Tag()) && job.None?) &&
      (wait.Some? ==>
        0 < wait.value <= DEBOUNCE &&
        (SlotTick(k, next, Some(d), later, persist, false).1.Some? <==> now + wait.value <= later))
  {
  }

  // ---------- what was found at launch ----------

  /** An event that sends a job about `k`. */
  predicate Touches(k: Key, l: Life, e: Event) {
    e.Tick? && SlotTick(k, l.slot, Lookup(e.docs, k), e.now, e.persist, e.flush).1.Some?
  }

  /** The same but for the history. */
  predicate SameContent(a: Option<Record>, b: Option<Record>) {
    (a.Some? <==> b.Some?) &&
    (a.Some? ==> a.value.text == b.value.text && a.value.language == b.value.language && a.value.wrap == b.value.wrap)
  }

  /** Only a job about a key changes what its file will hold, and stripping takes nothing but the history. */
  lemma {:induction false} OthersKeepContent(x: System, e: Event, y: System, k: Key)
    requires StepTo(x, e, y) && !Touches(k, LifeOf(x, k), e)
    ensures SameContent(Final(x, k), Final(y, k))
    ensures !e.DropAll? ==> Final(y, k) == Final(x, k)
  {
    StepIsNext(x, e, y, k);
  }

  /** What a file held at launch it still holds, but for the history, as long as no tick has sent a job
      about it, whatever else was ticked, written and dropped; and all of it if histories were kept. */
  lemma {:induction false} LaunchContentStays(states: seq<System>, events: seq<Event>, n: nat, k: Key)
    requires IsSession(states, events) && n <= |events|
    requires forall j :: 0 <= j < n ==> !Touches(k, LifeOf(states[j], k), events[j])
    ensures SameContent(Lookup(states[0].files, k), Final(states[n], k))
    ensures (forall j :: 0 <= j < n ==> !events[j].DropAll?) ==> Final(states[n], k) == Lookup(states[0].files, k)
    decreases n
  {
    if n > 0 {
      LaunchContentStays(states, events, n - 1, k);
      assert StepTo(states[n - 1], events[n - 1], states[n]);
      OthersKeepContent(states[n - 1], events[n - 1], states[n], k);
    } else {
      assert Final(states[0], k) == Lookup(states[0].files, k);
    }
  }

  /** So a record of the last session is safe while its document is not open. */
  lemma {:induction false} UnopenedIsSafe(states: seq<System>, events: seq<Event>, n: nat, k: Key)
    requires IsSession(states, events) && n <= |events|
    requires forall j :: 0 <= j < n && events[j].Tick? ==> k !in events[j].docs
    ensures k !in states[n].ledger.written && (k in states[n].ledger.adopted <==> k in states[0].files)
    ensures SameContent(Lookup(states[0].files, k), Final(states[n], k))
    decreases n
  {
    if n > 0 {
      UnopenedIsSafe(states, events, n - 1, k);
      assert StepTo(states[n - 1], events[n - 1], states[n]);
      StepIsNext(states[n - 1], events[n - 1], states[n], k);
      assert states[n - 1].ledger.At(k).written.None?;
      assert states[n].ledger.At(k).written.None? && (states[n].ledger.At(k).adopted <==> states[n - 1].ledger.At(k).adopted);
      OthersKeepContent(states[n - 1], events[n - 1], states[n], k);
    } else {
      assert Final(states[0], k) == Lookup(states[0].files, k);
    }
  }

  // ---------- dropping histories ----------

  /** Once histories are dropped, and as long as ticks write none, no file will hold one: a write
      already queued cannot bring one back. */
  lemma {:induction false} HistoriesStayDropped(states: seq<System>, events: seq<Event>, d: nat, n: nat, k: Key)
    requires IsRun(states, events) && d < n <= |events| && events[d].DropAll?
    requires forall i :: d < i < n && events[i].Tick? ==> !events[i].persist
    ensures Final(states[n], k).Some? ==> Final(states[n], k).value.history.None?
    decreases n
  {
    if d < n - 1 {
      HistoriesStayDropped(states, events, d, n - 1, k);
    }
    assert StepTo(states[n - 1], events[n - 1], states[n]);
    StepIsNext(states[n - 1], events[n - 1], states[n], k);
    NoHistoryComes(k, LifeOf(states[n - 1], k), events[n - 1]);
  }

  lemma {:induction false} NoHistoryComes(k: Key, l: Life, e: Event)
    requires (e.Tick? ==> !e.persist) && (e.DropAll? || (l.file.Some? ==> l.file.value.history.None?))
    ensures Next(k, l, e).file.Some? ==> Next(k, l, e).file.value.history.None?
  {
  }

  /** Whether a tick right after dropping histories writes a dirty document at once. */
  predicate DueNow(slot: Slot, d: Doc, now: Time, flush: bool) {
    d.Dirty() && (flush || Elapsed(Since(slot, d.Tag(), now), now) >= DEBOUNCE)
  }

  /** The tick that follows dropping histories, a flush or not, keeps the one-file rule for a key exactly
      unless it was written and is now clean, closed, or changed too short a while ago. */
  lemma {:induction false} DroppingOrphans(x: System, y: System, e: Event, z: System, k: Key)
    requires Owned(x, k) && StepTo(x, DropAll, y) && StepTo(y, e, z) && e.Tick?
    ensures Owned(z, k) <==>
      k !in x.ledger.written || (k in e.docs && DueNow(y.ledger.At(k), e.docs[k], e.now, e.flush))
    ensures !Owned(z, k) ==> Orphaned(z, k)
  {
    DropOrphans(x, y, k);
    if k in x.ledger.written {
      OrphanStaysUntilWritten(y, e, z, k);
      assert y.ledger.At(k).written.None?;
    } else {
      StepKeepsOwned(y, e, z, k);
    }
  }

  /** A file that is nobody's stays until its document is dirty again. */
  lemma {:induction false} OrphanStays(x: System, e: Event, y: System, k: Key)
    requires StepTo(x, e, y) && Orphaned(x, k) && !Sees(e, k)
    ensures Orphaned(y, k)
  {
    OrphanStaysUntilWritten(x, e, y, k);
  }

  /** The ordinary case of a file left behind: a document is written, edited, and histories are dropped;
      the tick at once after that still waits for the typing to pause, the document is saved, and the next
      tick sees nothing to delete. */
  lemma {:induction false} DroppedWhileTypingThenSaved(x: System, y: System, e: Event, z: System, f: Event, u: System, k: Key)
    requires Owned(x, k) && k in x.ledger.written && StepTo(x, DropAll, y)
    requires StepTo(y, e, z) && e.Tick? && !e.flush && k in e.docs && e.docs[k].Dirty()
    requires Elapsed(Since(x.ledger.At(k), e.docs[k].Tag(), e.now), e.now) < DEBOUNCE
    requires StepTo(z, f, u) && f.Tick? && k in f.docs && !f.docs[k].Dirty()
    ensures Orphaned(z, k) && Orphaned(u, k)
  {
    StepIsNext(x, DropAll, y, k);
    DroppingOrphans(x, y, e, z, k);
    OrphanStays(z, f, u, k);
  }
}
