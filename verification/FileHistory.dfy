/**
 * The undo and redo stacks of one project, with the newest entry at the end of each, and the bound they
 * keep together.
 */
module FileHistories {
  import opened Outcome
  import opened FileTree

  const LIMIT: nat := 50

  type Token = string

  datatype FileOp = Move(from: Path, to: Path) | Trash(path: Path, token: Token) {
    /** The path that names the entry's item in a refusal: the new place of a move, the old one of a delete. */
    function Item(): Path {
      if Move? then to else path
    }
  }

  datatype Stacks = Stacks(undo: seq<FileOp>, redo: seq<FileOp>)

  const EMPTY := Stacks([], [])

  function Init<T>(s: seq<T>): seq<T>
    requires s != []
  {
    s[..|s| - 1]
  }

  function Last<T>(s: seq<T>): T
    requires s != []
  {
    s[|s| - 1]
  }

  /** The newest entries a stack may keep. */
  function Newest(ops: seq<FileOp>): (r: seq<FileOp>)
    ensures |r| <= LIMIT && |r| <= |ops|
    ensures r == ops[|ops| - |r|..]
  {
    ops[(if |ops| > LIMIT then |ops| - LIMIT else 0)..]
  }

  function AfterRecord(s: Stacks, op: FileOp): Stacks {
    Stacks(Newest(s.undo + [op]), [])
  }

  function AfterUndone(s: Stacks): Stacks {
    if s.undo == [] then s else Stacks(Init(s.undo), s.redo + [Last(s.undo)])
  }

  function AfterRedone(s: Stacks, op: Option<FileOp>): Stacks {
    var redo := if s.redo == [] then [] else Init(s.redo);
    match op
    case None => Stacks(s.undo, redo)
    case Some(again) => Stacks(Newest(s.undo + [again]), Newest(redo))
  }

  class FileHistory {
    var undo: seq<FileOp>
    var redo: seq<FileOp>

    ghost function State(): Stacks
      reads this
    {
      Stacks(undo, redo)
    }

    constructor ()
      ensures State() == EMPTY
    {
      undo, redo := [], [];
    }

    method Trim()
      modifies this
      ensures State() == Stacks(Newest(old(undo)), Newest(old(redo)))
    {
      var over := if |undo| > LIMIT then |undo| - LIMIT else 0;
      undo := undo[over..];
      over := if |redo| > LIMIT then |redo| - LIMIT else 0;
      redo := redo[over..];
    }

    /** `op` goes on top of the undo stack, whose oldest entries make room; the redo stack is emptied. */
    method Record(op: FileOp)
      modifies this
      ensures State() == AfterRecord(old(State()), op)
    {
      undo := undo + [op];
      redo := [];
      Trim();
    }

    /** The top of the undo stack moves to the redo stack. */
    method Undone()
      modifies this
      ensures State() == AfterUndone(old(State()))
    {
      if undo != [] {
        var op := Last(undo);
        undo := Init(undo);
        redo := redo + [op];
      }
    }

    /** The top of the redo stack is dropped, and `op`, if there is one, takes its place on the undo stack. */
    method Redone(op: Option<FileOp>)
      modifies this
      ensures State() == AfterRedone(old(State()), op)
    {
      if redo != [] {
        redo := Init(redo);
      }
      if op.Some? {
        undo := undo + [op.value];
        Trim();
      }
    }
  }

  // ---------- the bound ----------

  datatype Call = Record(op: FileOp) | Undone | Redone(again: Option<FileOp>)

  function Apply(s: Stacks, call: Call): Stacks {
    match call
    case Record(op) => AfterRecord(s, op)
    case Undone => AfterUndone(s)
    case Redone(again) => AfterRedone(s, again)
  }

  /** The stacks after a run of calls on an empty history. */
  function Run(calls: seq<Call>): Stacks {
    if calls == [] then EMPTY else Apply(Run(Init(calls)), Last(calls))
  }

  /** Redo is only ever reported for an entry there is: `redo` returns early on an empty stack. */
  predicate Proper(calls: seq<Call>) {
    calls == [] || (Proper(Init(calls)) && (Last(calls).Redone? ==> Run(Init(calls)).redo != []))
  }

  /** However it is used, a history never holds more than the limit, both stacks together; so
      re-applying an entry never pushes another one out. */
  lemma {:induction false} BoundedTogether(calls: seq<Call>)
    requires Proper(calls)
    ensures var s := Run(calls); |s.undo| + |s.redo| <= LIMIT
  {
    if calls != [] {
      BoundedTogether(Init(calls));
    }
  }

  lemma {:induction false} RedoneKeepsAll(s: Stacks, again: FileOp)
    requires s.redo != [] && |s.undo| + |s.redo| <= LIMIT
    ensures AfterRedone(s, Some(again)) == Stacks(s.undo + [again], Init(s.redo))
  {
  }

  /** Only the oldest entries are ever dropped, and a new one is always kept. */
  lemma {:induction false} RecordKeepsNewest(s: Stacks, op: FileOp)
    ensures var r := AfterRecord(s, op).undo;
      r != [] && Last(r) == op && r == (s.undo + [op])[|s.undo| + 1 - |r|..] &&
      (|s.undo| < LIMIT ==> r == s.undo + [op]) && (|s.undo| >= LIMIT ==> |r| == LIMIT)
  {
  }
}
