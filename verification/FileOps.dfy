/**
 * One undo and one redo, on a disk that is a tree and a trash: what is looked at beforehand, what the
 * system is asked to do, and how disk, history and answer stand afterwards.
 */
module FileOps {
  import opened Outcome
  import opened FileTree
  import opened FileHistories

  /** An item in the trash, and the path it is put back at. */
  datatype Item = Item(path: Path, sub: Tree)

  datatype World = World(fs: Tree, trash: map<Token, Item>)

  datatype RestoreError = Gone | Taken | Unsupported | Failed(message: string)

  /** What the system does besides obeying the tree: each call may fail for reasons of its own, and a
      trash that can give an item back names it by a token. */
  datatype Weather = Weather(rename: Option<string>, trash: Option<string>, restore: Option<RestoreError>,
                             token: Option<Token>)

  datatype Change = MovedTo(from: Path, to: Path) | Restored(path: Path) | Trashed(path: Path)

  datatype Reason =
    | NoLongerAt(path: Path)
    | SomethingElseAt(path: Path)
    | FolderGone(folder: Path)
    | NothingAt(path: Path)
    | NotInTrash
    | CannotPutBack
    | System(message: string)

  datatype Refusal = Refusal(undoing: bool, op: FileOp, item: Path, reason: Reason)

  type Answer = Result<Option<Change>, Refusal>

  function Refuse(undoing: bool, op: FileOp, reason: Reason): Answer {
    Err(Refusal(undoing, op, op.Item(), reason))
  }

  // ---------- the seam ----------

  function RenameOutcome(fs: Tree, from: Path, to: Path, weather: Weather): Result<Tree, string> {
    if weather.rename.Some? then Err(weather.rename.value)
    else if CanMove(fs, from, to) then Ok(Moved(fs, from, to))
    else Err("The system refused the rename.")
  }

  function TrashOutcome(w: World, path: Path, weather: Weather): Result<World, string> {
    if weather.trash.Some? then Err(weather.trash.value)
    else if path == [] || path !in w.fs then Err("The system refused to trash it.")
    else
      Ok(World(Without(w.fs, path),
               if weather.token.Some? then w.trash[weather.token.value := Item(path, Sub(w.fs, path))] else w.trash))
  }

  function RestoreOutcome(w: World, token: Token, original: Path, weather: Weather): Result<World, RestoreError> {
    if weather.restore.Some? then Err(weather.restore.value)
    else if original in w.fs then Err(Taken)
    else if token !in w.trash then Err(Gone)
    else
      var item := w.trash[token];
      if item.path in w.fs then Err(Taken)
      else if !HasHome(w.fs, item.path) then Err(Failed("Its folder is gone."))
      else Ok(World(Graft(w.fs, item.path, item.sub), w.trash - {token}))
  }

  /** The trash holds the item, and its place is free and in a folder. */
  predicate CanRestore(w: World, token: Token) {
    token in w.trash && w.trash[token].path !in w.fs && HasHome(w.fs, w.trash[token].path)
  }

  class Disk {
    var fs: Tree
    var trash: map<Token, Item>

    ghost function State(): World
      reads this
    {
      World(fs, trash)
    }

    constructor (fs: Tree, trash: map<Token, Item>)
      ensures State() == World(fs, trash)
    {
      this.fs, this.trash := fs, trash;
    }

    method Rename(from: Path, to: Path, weather: Weather) returns (r: Result<(), string>)
      modifies this
      ensures trash == old(trash)
      ensures match RenameOutcome(old(fs), from, to, weather)
        case Ok(there) => r == Ok(()) && fs == there
        case Err(message) => r == Err(message) && fs == old(fs)
      ensures r.Ok? <==> weather.rename.None? && CanMove(old(fs), from, to)
      ensures r.Ok? && IsTree(old(fs)) ==> MovedSafely(old(fs), fs, from, to)
    {
      if weather.rename.Some? {
        return Err(weather.rename.value);
      }
      if !CanMove(fs, from, to) {
        return Err("The system refused the rename.");
      }
      MoveIsSafe(fs, from, to);
      fs := Moved(fs, from, to);
      r := Ok(());
    }

    method SendToTrash(path: Path, weather: Weather) returns (r: Result<Option<Token>, string>)
      modifies this
      ensures match TrashOutcome(old(State()), path, weather)
        case Ok(after) => r == Ok(weather.token) && State() == after
        case Err(message) => r == Err(message) && State() == old(State())
      ensures r.Ok? <==> weather.trash.None? && path != [] && path in old(fs)
      ensures r.Ok? ==> path !in fs && KeptOutside(old(fs), fs, path)
      ensures r.Ok? && weather.token.None? ==> trash == old(trash)
      ensures r.Ok? && weather.token.Some? ==>
        var token := weather.token.value;
        trash == old(trash)[token := trash[token]] && trash[token].path == path &&
        (IsTree(old(fs)) ==> Graft(fs, path, trash[token].sub) == old(fs))
    {
      if weather.trash.Some? {
        return Err(weather.trash.value);
      }
      if path == [] || path !in fs {
        return Err("The system refused to trash it.");
      }
      if IsTree(fs) {
        GraftBack(fs, path);
      }
      if weather.token.Some? {
        trash := trash[weather.token.value := Item(path, Sub(fs, path))];
      }
      fs := Without(fs, path);
      r := Ok(weather.token);
    }

    method Restore(token: Token, original: Path, weather: Weather) returns (r: Result<(), RestoreError>)
      modifies this
      ensures match RestoreOutcome(old(State()), token, original, weather)
        case Ok(after) => r == Ok(()) && State() == after
        case Err(e) => r == Err(e) && State() == old(State())
      ensures r.Ok? <==> weather.restore.None? && original !in old(fs) && CanRestore(old(State()), token)
      ensures r.Ok? ==> token !in trash && trash == old(trash) - {token}
      ensures r.Ok? && IsTree(old(fs)) ==>
        var item := old(trash)[token];
        Without(fs, item.path) == old(fs) && Sub(fs, item.path) == item.sub
    {
      if weather.restore.Some? {
        return Err(weather.restore.value);
      }
      if original in fs {
        return Err(Taken);
      }
      if token !in trash {
        return Err(Gone);
      }
      var item := trash[token];
      if item.path in fs {
        return Err(Taken);
      }
      if !HasHome(fs, item.path) {
        return Err(Failed("Its folder is gone."));
      }
      if IsTree(fs) {
        RemoveGrafted(fs, item.path, item.sub);
        SubOfGrafted(fs, item.path, item.sub);
      }
      fs, trash := Graft(fs, item.path, item.sub), trash - {token};
      r := Ok(());
    }
  }

  // ---------- undo and redo ----------

  /** The first of three obstacles: no item at `from`, an item at `to`, no folder around `to`. */
  function CheckMove(fs: Tree, from: Path, to: Path): Option<Reason> {
    if from !in fs then Some(NoLongerAt(from))
    else if to in fs then Some(SomethingElseAt(to))
    else if !HasHome(fs, to) then Some(FolderGone(to[..|to| - 1]))
    else None
  }

  function RestoreReason(e: RestoreError, path: Path): Reason {
    match e
    case Gone => NotInTrash
    case Taken => SomethingElseAt(path)
    case Unsupported => CannotPutBack
    case Failed(message) => System(message)
  }

  datatype Step = Step(world: World, stacks: Stacks, answer: Answer)

  /** What one undo does to the disk and the history. */
  function UndoStep(w: World, s: Stacks, weather: Weather): Step {
    if s.undo == [] then Step(w, s, Ok(None))
    else
      var op := Last(s.undo);
      match op
      case Move(from, to) =>
        var check := CheckMove(w.fs, to, from);
        if check.Some? then Step(w, s, Refuse(true, op, check.value))
        else
          (match RenameOutcome(w.fs, to, from, weather)
           case Err(message) => Step(w, s, Refuse(true, op, System(message)))
           case Ok(fs) => Step(World(fs, w.trash), AfterUndone(s), Ok(Some(MovedTo(to, from)))))
      case Trash(path, token) =>
        if !HasHome(w.fs, path) then Step(w, s, Refuse(true, op, FolderGone(path[..|path| - 1])))
        else
          (match RestoreOutcome(w, token, path, weather)
           case Err(e) => Step(w, s, Refuse(true, op, RestoreReason(e, path)))
           case Ok(after) => Step(after, AfterUndone(s), Ok(Some(Restored(path)))))
  }

  /** What one redo does. */
  function RedoStep(w: World, s: Stacks, weather: Weather): Step {
    if s.redo == [] then Step(w, s, Ok(None))
    else
      var op := Last(s.redo);
      match op
      case Move(from, to) =>
        var check := CheckMove(w.fs, from, to);
        if check.Some? then Step(w, s, Refuse(false, op, check.value))
        else
          (match RenameOutcome(w.fs, from, to, weather)
           case Err(message) => Step(w, s, Refuse(false, op, System(message)))
           case Ok(fs) => Step(World(fs, w.trash), AfterRedone(s, Some(op)), Ok(Some(MovedTo(from, to)))))
      case Trash(path, _) =>
        if path !in w.fs then Step(w, s, Refuse(false, op, NothingAt(path)))
        else
          (match TrashOutcome(w, path, weather)
           case Err(message) => Step(w, s, Refuse(false, op, System(message)))
           case Ok(after) =>
             var again := if weather.token.Some? then Some(Trash(path, weather.token.value)) else None;
             Step(after, AfterRedone(s, again), Ok(Some(Trashed(path)))))
  }

  method Undo(history: FileHistory, disk: Disk, weather: Weather) returns (answer: Answer)
    modifies history, disk
    ensures Step(disk.State(), history.State(), answer) == UndoStep(old(disk.State()), old(history.State()), weather)
  {
    if history.undo == [] {
      return Ok(None);
    }
    var op := Last(history.undo);
    var change: Change;
    match op {
      case Move(from, to) =>
        var check := CheckMove(disk.fs, to, from);
        if check.Some? {
          return Refuse(true, op, check.value);
        }
        var r := disk.Rename(to, from, weather);
        if r.Err? {
          return Refuse(true, op, System(r.error));
        }
        change := MovedTo(to, from);
      case Trash(path, token) =>
        if !HasHome(disk.fs, path) {
          return Refuse(true, op, FolderGone(path[..|path| - 1]));
        }
        var r := disk.Restore(token, path, weather);
        if r.Err? {
          return Refuse(true, op, RestoreReason(r.error, path));
        }
        change := Restored(path);
    }
    history.Undone();
    return Ok(Some(change));
  }

  method Redo(history: FileHistory, disk: Disk, weather: Weather) returns (answer: Answer)
    modifies history, disk
    ensures Step(disk.State(), history.State(), answer) == RedoStep(old(disk.State()), old(history.State()), weather)
  {
    if history.redo == [] {
      return Ok(None);
    }
    var op := Last(history.redo);
    var change: Change, again: Option<FileOp>;
    match op {
      case Move(from, to) =>
        var check := CheckMove(disk.fs, from, to);
        if check.Some? {
          return Refuse(false, op, check.value);
        }
        var r := disk.Rename(from, to, weather);
        if r.Err? {
          return Refuse(false, op, System(r.error));
        }
        change, again := MovedTo(from, to), Some(op);
      case Trash(path, _) =>
        if path !in disk.fs {
          return Refuse(false, op, NothingAt(path));
        }
        var r := disk.SendToTrash(path, weather);
        if r.Err? {
          return Refuse(false, op, System(r.error));
        }
        change := Trashed(path);
        again := if r.value.Some? then Some(Trash(path, r.value.value)) else None;
    }
    history.Redone(again);
    return Ok(Some(change));
  }
}
