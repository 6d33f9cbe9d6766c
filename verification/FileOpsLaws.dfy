/**
 * What undo promises. On a disk nobody else touches no undo or redo is refused, and undoing and
 * redoing lead back to where they started; on a disk others change at will, a refusal changes
 * nothing and a success overwrites nothing.
 */
module FileOpsLaws {
  import opened Outcome
  import opened FileTree
  import opened FileHistories
  import opened FileOps

  // ---------- what an entry says about the disk ----------

  /** The disk matches an entry that stands. */
  ghost predicate CanUndo(w: World, op: FileOp) {
    match op
    case Move(from, to) => CanMove(w.fs, to, from)
    case Trash(path, token) =>
      path != [] && path !in w.fs && HasHome(w.fs, path) && token in w.trash && w.trash[token].path == path
  }

  /** The disk before the newest operation. */
  ghost function Before(w: World, op: FileOp): World
    requires CanUndo(w, op)
  {
    match op
    case Move(from, to) => World(Moved(w.fs, to, from), w.trash)
    case Trash(path, token) => World(Graft(w.fs, path, w.trash[token].sub), w.trash - {token})
  }

  ghost predicate CanDo(fs: Tree, op: FileOp) {
    match op
    case Move(from, to) => CanMove(fs, from, to)
    case Trash(path, _) => path != [] && path in fs
  }

  /** The tree an operation leaves. */
  function After(fs: Tree, op: FileOp): Tree {
    match op
    case Move(from, to) => Moved(fs, from, to)
    case Trash(path, _) => Without(fs, path)
  }

  /** Undoing the whole stack, newest first, meets at every entry the disk that entry describes. */
  ghost predicate UndoChain(w: World, undo: seq<FileOp>)
    decreases |undo|
  {
    IsTree(w.fs) &&
    (undo != [] ==>
      Fits(w, Last(undo)) && UndoChain(Before(w, Last(undo)), Init(undo)))
  }

  /** The disk is what an operation left, and can be as it was before. */
  ghost predicate Fits(w: World, op: FileOp) {
    CanUndo(w, op) && CanDo(Before(w, op).fs, op) && After(Before(w, op).fs, op) == w.fs
  }

  ghost predicate RedoChain(fs: Tree, redo: seq<FileOp>)
    decreases |redo|
  {
    IsTree(fs) && (redo != [] ==> CanDo(fs, Last(redo)) && RedoChain(After(fs, Last(redo)), Init(redo)))
  }

  ghost predicate Consistent(w: World, s: Stacks) {
    UndoChain(w, s.undo) && RedoChain(w.fs, s.redo) && |s.undo| + |s.redo| <= LIMIT
  }

  /** A system that does what it can be asked to. */
  predicate Fair(weather: Weather) {
    weather.rename.None? && weather.trash.None? && weather.restore.None? && weather.token.Some?
  }

  // ---------- recording ----------

  lemma {:induction false} NewestOfNewest<T>(s: seq<T>, k: nat)
    requires k < |s|
    ensures Last(s[k..]) == Last(s) && Init(s[k..]) == Init(s)[k..]
  {
  }

  lemma {:induction false} ChainOfNewest(w: World, undo: seq<FileOp>, k: nat)
    requires UndoChain(w, undo) && k <= |undo|
    ensures UndoChain(w, undo[k..])
    decreases |undo|
  {
    if k < |undo| {
      NewestOfNewest(undo, k);
      ChainOfNewest(Before(w, Last(undo)), Init(undo), k);
    }
  }

  /** The disk after the user carries an operation out. */
  ghost function Doing(w: World, op: FileOp): World
    requires CanDo(w.fs, op)
  {
    match op
    case Move(from, to) => World(Moved(w.fs, from, to), w.trash)
    case Trash(path, token) => World(Without(w.fs, path), w.trash[token := Item(path, Sub(w.fs, path))])
  }

  /** A trash names an item by a token it does not use yet. */
  ghost predicate FreshFor(w: World, op: FileOp) {
    op.Trash? ==> op.token !in w.trash
  }

  lemma {:induction false} HomeSurvives(fs: Tree, path: Path)
    requires IsTree(fs) && path != [] && path in fs
    ensures path !in Without(fs, path) && HasHome(Without(fs, path), path)
  {
    HomeOutside(path, path);
  }

  lemma {:induction false} TokenReturned(trash: map<Token, Item>, token: Token, item: Item)
    requires token !in trash
    ensures trash[token := item] - {token} == trash
  {
  }

  lemma {:induction false} TrashedIsUndoable(w: World, path: Path, token: Token)
    requires IsTree(w.fs) && path != [] && path in w.fs && token !in w.trash
    ensures var op := Trash(path, token); var w' := Doing(w, op);
      CanUndo(w', op) && Before(w', op) == w
  {
    GraftBack(w.fs, path);
    HomeSurvives(w.fs, path);
    TokenReturned(w.trash, token, Item(path, Sub(w.fs, path)));
  }

  lemma {:induction false} MovedIsUndoable(w: World, from: Path, to: Path)
    requires IsTree(w.fs) && CanMove(w.fs, from, to)
    ensures var op := Move(from, to); var w' := Doing(w, op);
      IsTree(w'.fs) && CanUndo(w', op) && Before(w', op) == w
  {
    MovedIsTree(w.fs, from, to);
    MoveCanGoBack(w.fs, from, to);
    MoveBack(w.fs, from, to);
  }

  /** What is done can be undone, and undoing it gives back the very disk. */
  lemma {:induction false} DoneIsUndoable(w: World, op: FileOp)
    requires IsTree(w.fs) && CanDo(w.fs, op) && FreshFor(w, op)
    ensures var w' := Doing(w, op);
      IsTree(w'.fs) && w'.fs == After(w.fs, op) && CanUndo(w', op) && Before(w', op) == w
  {
    match op
    case Move(from, to) => MovedIsUndoable(w, from, to);
    case Trash(path, token) =>
      WithoutIsTree(w.fs, path);
      TrashedIsUndoable(w, path, token);
  }

  lemma {:induction false} HomeOutside(path: Path, p: Path)
    requires p != [] && path == p
    ensures !(path <= p[..|p| - 1])
  {
  }

  lemma {:induction false} ChainGrows(w: World, op: FileOp, undo: seq<FileOp>)
    requires UndoChain(w, undo) && CanDo(w.fs, op) && FreshFor(w, op)
    ensures UndoChain(Doing(w, op), undo + [op])
  {
    DoneIsUndoable(w, op);
    assert Init(undo + [op]) == undo && Last(undo + [op]) == op;
  }

  lemma {:induction false} NewestIsConsistent(w: World, undo: seq<FileOp>)
    requires UndoChain(w, undo)
    ensures Consistent(w, Stacks(Newest(undo), []))
  {
    NewestIsChain(w, undo);
    NothingToRedo(w, Newest(undo));
  }

  lemma {:induction false} NewestIsChain(w: World, undo: seq<FileOp>)
    requires UndoChain(w, undo)
    ensures UndoChain(w, Newest(undo))
  {
    ChainOfNewest(w, undo, |undo| - |Newest(undo)|);
  }

  lemma {:induction false} NothingToRedo(w: World, undo: seq<FileOp>)
    requires UndoChain(w, undo) && |undo| <= LIMIT
    ensures Consistent(w, Stacks(undo, []))
  {
  }

  /** Recording a move or a restorable delete the user made keeps every entry undoable. */
  lemma {:induction false} RecordKeeps(w: World, s: Stacks, op: FileOp)
    requires Consistent(w, s) && CanDo(w.fs, op) && FreshFor(w, op)
    ensures Consistent(Doing(w, op), AfterRecord(s, op))
  {
    ChainGrows(w, op, s.undo);
    NewestIsConsistent(Doing(w, op), s.undo + [op]);
  }

  // ---------- undoing and redoing ----------

  lemma {:induction false} Joined<T>(s: seq<T>)
    requires s != []
    ensures Init(s) + [Last(s)] == s
  {
  }

  /** On an undisturbed disk no undo is refused, and it keeps every entry usable. */
  lemma {:induction false} UndoSucceeds(w: World, s: Stacks, weather: Weather)
    requires Consistent(w, s) && s.undo != [] && Fair(weather)
    ensures var step := UndoStep(w, s, weather);
      step.answer.Ok? && step.world == Before(w, Last(s.undo)) && step.stacks == AfterUndone(s) &&
      Consistent(step.world, step.stacks)
  {
    UndoneIsConsistent(w, s);
    UndoneStep(w, s, weather);
  }

  lemma {:induction false} UndoneIsConsistent(w: World, s: Stacks)
    requires Consistent(w, s) && s.undo != []
    ensures CanUndo(w, Last(s.undo)) && Consistent(Before(w, Last(s.undo)), AfterUndone(s))
  {
    ChainStep(w, s.undo);
    UndoneFrom(w, Before(w, Last(s.undo)), Init(s.undo), Last(s.undo), s.redo);
  }

  lemma {:induction false} ChainStep(w: World, undo: seq<FileOp>)
    requires UndoChain(w, undo) && undo != []
    ensures Fits(w, Last(undo)) && UndoChain(Before(w, Last(undo)), Init(undo))
  {
  }

  lemma {:induction false} UndoneFrom(w: World, before: World, undo: seq<FileOp>, op: FileOp, redo: seq<FileOp>)
    requires UndoChain(before, undo) && CanDo(before.fs, op) && After(before.fs, op) == w.fs && RedoChain(w.fs, redo)
    requires |undo| + 1 + |redo| <= LIMIT
    ensures Consistent(before, Stacks(undo, redo + [op]))
  {
    RedoGrows(before.fs, op, redo);
  }

  lemma {:induction false} UndoneStep(w: World, s: Stacks, weather: Weather)
    requires s.undo != [] && CanUndo(w, Last(s.undo)) && Fair(weather)
    ensures var step := UndoStep(w, s, weather);
      step.answer.Ok? && step.world == Before(w, Last(s.undo)) && step.stacks == AfterUndone(s)
  {
  }

  lemma {:induction false} RedoGrows(fs: Tree, op: FileOp, redo: seq<FileOp>)
    requires IsTree(fs) && CanDo(fs, op) && RedoChain(After(fs, op), redo)
    ensures RedoChain(fs, redo + [op])
  {
    assert Last(redo + [op]) == op && Init(redo + [op]) == redo;
  }

  function WithToken(op: FileOp, token: Token): FileOp {
    if op.Trash? then Trash(op.path, token) else op
  }

  /** Nor is a redo; a redone delete has a new token and everything else is as it was. */
  lemma {:induction false} RedoSucceeds(w: World, s: Stacks, weather: Weather)
    requires Consistent(w, s) && s.redo != [] && Fair(weather) && weather.token.value !in w.trash
    ensures var step := RedoStep(w, s, weather);
      var op := WithToken(Last(s.redo), weather.token.value);
      step.answer.Ok? && CanDo(w.fs, op) && step.world == Doing(w, op) &&
      step.stacks == Stacks(s.undo + [op], Init(s.redo)) && Consistent(step.world, step.stacks)
  {
    RedoneStep(w, s, weather);
    RedoneIsConsistent(w, s, WithToken(Last(s.redo), weather.token.value));
  }

  lemma {:induction false} RedoneStep(w: World, s: Stacks, weather: Weather)
    requires s.redo != [] && |s.undo| + |s.redo| <= LIMIT && CanDo(w.fs, Last(s.redo)) && Fair(weather)
    ensures var step := RedoStep(w, s, weather);
      var op := WithToken(Last(s.redo), weather.token.value);
      step.answer.Ok? && CanDo(w.fs, op) && step.world == Doing(w, op) && step.stacks == Stacks(s.undo + [op], Init(s.redo))
  {
    RedoneKeepsAll(s, WithToken(Last(s.redo), weather.token.value));
  }

  lemma {:induction false} RedoneIsConsistent(w: World, s: Stacks, op: FileOp)
    requires Consistent(w, s) && s.redo != [] && CanDo(w.fs, op) && FreshFor(w, op)
    requires WithToken(op, "") == WithToken(Last(s.redo), "")
    ensures Consistent(Doing(w, op), Stacks(s.undo + [op], Init(s.redo)))
  {
    ChainGrows(w, op, s.undo);
    DoneIsUndoable(w, op);
  }

  // ---------- whole runs ----------

  datatype Event = Do(op: FileOp) | UndoOne | RedoOne(token: Token)

  ghost predicate Possible(w: World, s: Stacks, e: Event) {
    match e
    case Do(op) => CanDo(w.fs, op) && FreshFor(w, op)
    case UndoOne => true
    case RedoOne(token) => token !in w.trash
  }

  function Calm(token: Token): Weather {
    Weather(None, None, None, Some(token))
  }

  ghost function Next(w: World, s: Stacks, e: Event): Step
    requires Possible(w, s, e)
  {
    match e
    case Do(op) => Step(Doing(w, op), AfterRecord(s, op), Ok(None))
    case UndoOne => UndoStep(w, s, Calm(""))
    case RedoOne(token) => RedoStep(w, s, Calm(token))
  }

  datatype State = State(world: World, stacks: Stacks)

  ghost predicate Leads(x: State, e: Event, y: State) {
    Possible(x.world, x.stacks, e) &&
    Next(x.world, x.stacks, e).world == y.world && Next(x.world, x.stacks, e).stacks == y.stacks
  }

  /** A run from any tree, any trash and an empty history, and every state it passes through. */
  ghost predicate IsRun(states: seq<State>, events: seq<Event>) {
    |states| == |events| + 1 &&
    IsTree(states[0].world.fs) && states[0].stacks == EMPTY &&
    forall i :: 0 <= i < |events| ==> Leads(states[i], events[i], states[i + 1])
  }

  /** Doing, undoing and redoing keep every entry of both stacks usable in turn. */
  lemma {:induction false} EventKeeps(x: State, e: Event, y: State)
    requires Consistent(x.world, x.stacks) && Leads(x, e, y)
    ensures Consistent(y.world, y.stacks)
  {
    match e
    case Do(op) => RecordKeeps(x.world, x.stacks, op);
    case UndoOne =>
      if x.stacks.undo != [] {
        UndoSucceeds(x.world, x.stacks, Calm(""));
      }
    case RedoOne(token) =>
      if x.stacks.redo != [] {
        RedoSucceeds(x.world, x.stacks, Calm(token));
      }
  }

  /** So every entry of every reachable history can be undone or redone in turn. */
  lemma {:induction false} RunsAreConsistent(states: seq<State>, events: seq<Event>, n: nat)
    requires IsRun(states, events) && n < |states|
    ensures Consistent(states[n].world, states[n].stacks)
    decreases n
  {
    if n > 0 {
      RunsAreConsistent(states, events, n - 1);
      EventKeeps(states[n - 1], events[n - 1], states[n]);
    }
  }

  /** In any run on a disk nobody else touches, no undo and no redo is refused. */
  lemma {:induction false} NeverRefused(states: seq<State>, events: seq<Event>, n: nat, weather: Weather)
    requires IsRun(states, events) && n < |states|
    requires Fair(weather) && weather.token.value !in states[n].world.trash
    ensures UndoStep(states[n].world, states[n].stacks, weather).answer.Ok?
    ensures RedoStep(states[n].world, states[n].stacks, weather).answer.Ok?
  {
    var (w, s) := (states[n].world, states[n].stacks);
    RunsAreConsistent(states, events, n);
    if s.undo != [] {
      UndoSucceeds(w, s, weather);
    }
    if s.redo != [] {
      RedoSucceeds(w, s, weather);
    }
  }

  /** Carrying out a stack of operations, oldest first. */
  ghost function Replay(base: Tree, ops: seq<FileOp>): Tree {
    if ops == [] then base else After(Replay(base, Init(ops)), Last(ops))
  }

  ghost predicate Replayable(base: Tree, ops: seq<FileOp>) {
    ops == [] || (Replayable(base, Init(ops)) && CanDo(Replay(base, Init(ops)), Last(ops)))
  }

  /** The disk before the oldest entry of the undo stack. */
  ghost function Base(w: World, undo: seq<FileOp>): World
    requires UndoChain(w, undo)
    decreases |undo|
  {
    if undo == [] then w else Base(Before(w, Last(undo)), Init(undo))
  }

  lemma {:induction false} ReplayedFromBase(w: World, undo: seq<FileOp>)
    requires UndoChain(w, undo)
    ensures Replayable(Base(w, undo).fs, undo) && Replay(Base(w, undo).fs, undo) == w.fs
    decreases |undo|
  {
    if undo != [] {
      ReplayedFromBase(Before(w, Last(undo)), Init(undo));
    }
  }

  lemma {:induction false} BaseOfGrown(w: World, op: FileOp, undo: seq<FileOp>)
    requires UndoChain(w, undo) && CanDo(w.fs, op) && FreshFor(w, op)
    ensures UndoChain(Doing(w, op), undo + [op]) && Base(Doing(w, op), undo + [op]) == Base(w, undo)
  {
    ChainGrows(w, op, undo);
    DoneIsUndoable(w, op);
    assert Init(undo + [op]) == undo && Last(undo + [op]) == op;
  }

  /** As long as the stack has room, doing, undoing and redoing do not change the disk the undo stack
      starts from. */
  lemma {:induction false} BaseStays(w: World, s: Stacks, e: Event)
    requires Consistent(w, s) && Possible(w, s, e) && (e.Do? ==> |s.undo| < LIMIT)
    ensures var step := Next(w, s, e);
      UndoChain(step.world, step.stacks.undo) && Base(step.world, step.stacks.undo) == Base(w, s.undo)
  {
    match e
    case Do(op) =>
      BaseOfGrown(w, op, s.undo);
    case UndoOne =>
      if s.undo != [] {
        UndoSucceeds(w, s, Calm(""));
      }
    case RedoOne(token) =>
      if s.redo != [] {
        RedoSucceeds(w, s, Calm(token));
        BaseOfGrown(w, WithToken(Last(s.redo), token), s.undo);
      }
  }

  /** The disk always is what replaying the undo stack makes of some earlier disk. */
  lemma {:induction false} DiskIsReplay(states: seq<State>, events: seq<Event>, n: nat)
    requires IsRun(states, events) && n < |states|
    ensures UndoChain(states[n].world, states[n].stacks.undo)
    ensures var base := Base(states[n].world, states[n].stacks.undo).fs;
      Replayable(base, states[n].stacks.undo) && Replay(base, states[n].stacks.undo) == states[n].world.fs
  {
    RunsAreConsistent(states, events, n);
    ReplayedFromBase(states[n].world, states[n].stacks.undo);
  }

  // ---------- there and back ----------

  /** `k` undos in a row. */
  ghost function Undos(w: World, s: Stacks, k: nat): (World, Stacks)
    decreases k
  {
    if k == 0 then (w, s)
    else
      var step := UndoStep(w, s, Calm(""));
      Undos(step.world, step.stacks, k - 1)
  }

  /** A redo for each token, which the trash hands out in turn. */
  ghost function Redos(w: World, s: Stacks, tokens: seq<Token>): (World, Stacks)
    decreases |tokens|
  {
    if tokens == [] then (w, s)
    else
      var (w', s') := Redos(w, s, Init(tokens));
      var step := RedoStep(w', s', Calm(Last(tokens)));
      (step.world, step.stacks)
  }

  ghost predicate FreshTokens(w: World, s: Stacks, tokens: seq<Token>)
    decreases |tokens|
  {
    tokens == [] || (FreshTokens(w, s, Init(tokens)) && Last(tokens) !in Redos(w, s, Init(tokens)).0.trash)
  }

  /** The same operations, their trash tokens aside. */
  predicate SameButTokens(a: seq<FileOp>, b: seq<FileOp>) {
    |a| == |b| && forall i :: 0 <= i < |a| ==> WithToken(a[i], "") == WithToken(b[i], "")
  }

  lemma {:induction false} SameExtended(a: seq<FileOp>, b: seq<FileOp>, x: FileOp, y: FileOp)
    requires SameButTokens(a, b) && WithToken(x, "") == WithToken(y, "")
    ensures SameButTokens(a + [x], b + [y])
  {
  }

  /** `names` says which key of `b` stands for the value each key of `a` stands for, and `back` the other
      way around. */
  ghost predicate Renames<K, V>(names: map<K, K>, back: map<K, K>, a: map<K, V>, b: map<K, V>) {
    (forall t :: t in a ==> t in names && names[t] in b && names[t] in back && back[names[t]] == t) &&
    (forall u :: u in b ==> u in back && back[u] in a && back[u] in names && names[back[u]] == u && a[back[u]] == b[u])
  }

  lemma {:induction false} OneMore<K, V>(names: map<K, K>, back: map<K, K>, a: map<K, V>, b: map<K, V>,
                                         t: K, u: K, value: V)
    requires Renames(names, back, a, b) && t !in a && u !in b
    ensures Renames(names[t := u], back[u := t], a[t := value], b[u := value])
  {
    var (names', back', a', b') := (names[t := u], back[u := t], a[t := value], b[u := value]);
    forall x | x in a'
      ensures x in names' && names'[x] in b' && names'[x] in back' && back'[names'[x]] == x
    {
      assert x != t ==> x in a;
    }
    forall x | x in b'
      ensures x in back' && back'[x] in a' && back'[x] in names' && names'[back'[x]] == x && a'[back'[x]] == b'[x]
    {
      assert x != u ==> x in b;
    }
  }

  /** The same items, each once, whatever their tokens. */
  ghost predicate SameItems(a: map<Token, Item>, b: map<Token, Item>) {
    exists names, back :: Renames(names, back, a, b)
  }

  lemma {:induction false} SameAsItself(a: map<Token, Item>)
    ensures SameItems(a, a)
  {
    var names := map t | t in a :: t;
    assert Renames(names, names, a, a);
  }

  lemma {:induction false} OneMoreItem(a: map<Token, Item>, b: map<Token, Item>, t: Token, u: Token, item: Item)
    requires SameItems(a, b) && t !in a && u !in b
    ensures SameItems(a[t := item], b[u := item])
  {
    var names, back :| Renames(names, back, a, b);
    OneMore(names, back, a, b, t, u, item);
  }

  lemma {:induction false} FirstUndo(w: World, s: Stacks, k: nat)
    requires Consistent(w, s) && s.undo != [] && k > 0
    ensures Undos(w, s, k) == Undos(Before(w, Last(s.undo)), AfterUndone(s), k - 1)
    ensures Consistent(Before(w, Last(s.undo)), AfterUndone(s))
  {
    UndoSucceeds(w, s, Calm(""));
  }

  lemma {:induction false} LastRedo(w: World, s: Stacks, tokens: seq<Token>, w': World, s': Stacks)
    requires tokens != [] && Redos(w, s, Init(tokens)) == (w', s') && FreshTokens(w, s, tokens)
    requires Consistent(w', s') && s'.redo != []
    ensures var op := WithToken(Last(s'.redo), Last(tokens));
      CanDo(w'.fs, op) && FreshFor(w', op) &&
      Redos(w, s, tokens) == (Doing(w', op), Stacks(s'.undo + [op], Init(s'.redo))) &&
      Consistent(Redos(w, s, tokens).0, Redos(w, s, tokens).1)
  {
    RedoSucceeds(w', s', Calm(Last(tokens)));
  }

  /** The same tree, the same items in the trash, and the same history but for the tokens in it, of which
      every entry is usable. */
  ghost predicate CameBack(w: World, s: Stacks, w2: World, s2: Stacks) {
    w2.fs == w.fs && SameItems(w.trash, w2.trash) &&
    s2.redo == s.redo && SameButTokens(s2.undo, s.undo) && Consistent(w2, s2)
  }

  /** Any number of undos followed by as many redos leads back. */
  lemma {:induction false} ThereAndBack(w: World, s: Stacks, k: nat, tokens: seq<Token>)
    requires Consistent(w, s) && k <= |s.undo| && |tokens| == k
    requires FreshTokens(Undos(w, s, k).0, Undos(w, s, k).1, tokens)
    ensures var (w2, s2) := Redos(Undos(w, s, k).0, Undos(w, s, k).1, tokens);
      CameBack(w, s, w2, s2)
    decreases k
  {
    if k > 0 {
      FirstUndo(w, s, k);
      var (w1, s1) := Undos(w, s, k);
      ThereAndBack(Before(w, Last(s.undo)), AfterUndone(s), k - 1, Init(tokens));
      OneMoreRedo(w, s, w1, s1, tokens, Redos(w1, s1, Init(tokens)).0, Redos(w1, s1, Init(tokens)).1);
    } else {
      SameAsItself(w.trash);
    }
  }

  lemma {:induction false} OneMoreRedo(w: World, s: Stacks, w1: World, s1: Stacks, tokens: seq<Token>, w': World, s': Stacks)
    requires Consistent(w, s) && s.undo != [] && CanUndo(w, Last(s.undo))
    requires CameBack(Before(w, Last(s.undo)), AfterUndone(s), w', s')
    requires tokens != [] && Redos(w1, s1, Init(tokens)) == (w', s') && FreshTokens(w1, s1, tokens)
    ensures CameBack(w, s, Redos(w1, s1, tokens).0, Redos(w1, s1, tokens).1)
  {
    LastRedo(w1, s1, tokens, w', s');
    BackFrom(w, s, w', s', Last(tokens));
  }

  /** What the last redo of the way back leaves. */
  lemma {:induction false} BackFrom(w: World, s: Stacks, w': World, s': Stacks, token: Token)
    requires Consistent(w, s) && s.undo != [] && CanUndo(w, Last(s.undo)) && w'.fs == Before(w, Last(s.undo)).fs
    requires SameItems(Before(w, Last(s.undo)).trash, w'.trash) && token !in w'.trash
    requires s'.redo == s.redo + [Last(s.undo)] && SameButTokens(s'.undo, Init(s.undo))
    requires CanDo(w'.fs, WithToken(Last(s.undo), token))
    ensures var op := WithToken(Last(s.undo), token);
      Last(s'.redo) == Last(s.undo) && Init(s'.redo) == s.redo && Doing(w', op).fs == w.fs &&
      SameItems(w.trash, Doing(w', op).trash) && SameButTokens(s'.undo + [op], s.undo)
  {
    Returned(w, s, w', s', token);
    ItemReturned(w, Last(s.undo), w', token);
  }

  /** The last redo of the way back. */
  lemma {:induction false} Returned(w: World, s: Stacks, w': World, s': Stacks, token: Token)
    requires Consistent(w, s) && s.undo != [] && w'.fs == Before(w, Last(s.undo)).fs
    requires s'.redo == s.redo + [Last(s.undo)] && SameButTokens(s'.undo, Init(s.undo))
    ensures var op := WithToken(Last(s.undo), token);
      Last(s'.redo) == Last(s.undo) && Init(s'.redo) == s.redo &&
      (CanDo(w'.fs, op) ==> Doing(w', op).fs == w.fs) && SameButTokens(s'.undo + [op], s.undo)
  {
    SameExtended(s'.undo, Init(s.undo), WithToken(Last(s.undo), token), Last(s.undo));
    Joined(s.undo);
  }

  lemma {:induction false} TakenAndReturned(trash: map<Token, Item>, token: Token)
    requires token in trash
    ensures (trash - {token})[token := trash[token]] == trash
  {
  }

  /** The item an undo took out of the trash is the one the redo puts back in. */
  lemma {:induction false} ItemReturned(w: World, op: FileOp, w': World, token: Token)
    requires IsTree(w.fs) && CanUndo(w, op) && w'.fs == Before(w, op).fs && token !in w'.trash
    requires SameItems(Before(w, op).trash, w'.trash) && CanDo(w'.fs, WithToken(op, token))
    ensures SameItems(w.trash, Doing(w', WithToken(op, token)).trash)
  {
    if op.Trash? {
      var item := w.trash[op.token];
      SubOfGrafted(w.fs, op.path, item.sub);
      OneMoreItem(w.trash - {op.token}, w'.trash, op.token, token, item);
      TakenAndReturned(w.trash, op.token);
    }
  }

  // ---------- on a disk others change ----------

  /** Whatever has happened to the disk and however the system fails, a refused undo or redo changes
      neither the disk nor the history. */
  lemma {:induction false} RefusalChangesNothing(w: World, s: Stacks, weather: Weather)
    ensures var u := UndoStep(w, s, weather); u.answer.Err? ==> u.world == w && u.stacks == s
    ensures var r := RedoStep(w, s, weather); r.answer.Err? ==> r.world == w && r.stacks == s
  {
  }

  /** All that an undo looks at. The trash item of a token may lie at a path of its own. */
  ghost predicate Undoable(w: World, op: FileOp) {
    match op
    case Move(from, to) => CanMove(w.fs, to, from)
    case Trash(path, token) => path !in w.fs && HasHome(w.fs, path) && CanRestore(w, token)
  }

  /** The item a trashed entry's token stands for came from the entry's path. */
  ghost predicate Own(w: World, op: FileOp) {
    op.Trash? ==> op.path != [] && op.token in w.trash && w.trash[op.token].path == op.path
  }

  /** Where the system does not fail, an undo is carried out exactly when this holds; and the disk then
      matches the entry exactly when its token is still its own. */
  lemma {:induction false} UndoRefusedUnlessMatching(w: World, s: Stacks, weather: Weather)
    requires s.undo != [] && Fair(weather)
    ensures UndoStep(w, s, weather).answer.Ok? <==> Undoable(w, Last(s.undo))
    ensures CanUndo(w, Last(s.undo)) <==> Undoable(w, Last(s.undo)) && Own(w, Last(s.undo))
  {
  }

  /** A delete that is undone is back at its path exactly when its token was its own; some item is back
      in any case. */
  lemma {:induction false} ItemComesBackExactly(w: World, s: Stacks, weather: Weather)
    requires IsTree(w.fs) && s.undo != [] && Last(s.undo).Trash? && UndoStep(w, s, weather).answer.Ok?
    requires Last(s.undo).token in w.trash ==> [] in w.trash[Last(s.undo).token].sub
    ensures var Trash(path, token) := Last(s.undo);
      var step := UndoStep(w, s, weather);
      token in w.trash && step.answer == Ok(Some(Restored(path))) && w.trash[token].path in step.world.fs &&
      Without(step.world.fs, w.trash[token].path) == w.fs && step.world.trash == w.trash - {token} &&
      (path in step.world.fs <==> w.trash[token].path == path)
  {
    var Trash(path, token) := Last(s.undo);
    var item := w.trash[token];
    RemoveGrafted(w.fs, item.path, item.sub);
    GraftAt(w.fs, item.path, item.sub, item.path);
    assert item.path[|item.path|..] == [];
    GraftAt(w.fs, item.path, item.sub, path);
    if item.path <= path && item.path != path {
      NotAbove(w.fs, item.path, path);
    }
  }

  /** What does not exist is not above something that has a folder. */
  lemma {:induction false} NotAbove(fs: Tree, at: Path, path: Path)
    requires IsTree(fs) && HasHome(fs, path) && at <= path && at != path
    ensures at in fs
  {
    assert at <= path[..|path| - 1];
    NothingBelow(fs, at, path[..|path| - 1]);
  }

  /** It can fail: the trash was emptied and the token now stands for a file deleted elsewhere. Undoing
      says that `/a/foo` is back, and `/b/foo` is. */
  lemma {:induction false} RestoredElsewhere(w: World, s: Stacks, content: string)
    requires w.fs == map[[] := Folder, ["a"] := Folder, ["b"] := Folder]
    requires w.trash == map["foo.trashinfo" := Item(["b", "foo"], map[[] := File(content)])]
    requires s == Stacks([Trash(["a", "foo"], "foo.trashinfo")], [])
    ensures var step := UndoStep(w, s, Calm(""));
      IsTree(w.fs) && step.answer == Ok(Some(Restored(["a", "foo"]))) &&
      ["a", "foo"] !in step.world.fs && ["b", "foo"] in step.world.fs
  {
    assert ["a", "foo"][..1] == ["a"] && ["b", "foo"][..1] == ["b"];
    assert ["a"][..0] == [] && ["b"][..0] == [];
    Apart(["a", "foo"], ["b", "foo"]);
    assert Undoable(w, Last(s.undo));
    ItemComesBackExactly(w, s, Calm(""));
  }

  lemma {:induction false} Apart(a: Path, b: Path)
    requires a == ["a", "foo"] && b == ["b", "foo"]
    ensures a != b && |a| == 2 && |b| == 2
  {
    assert a[0][0] != b[0][0];
  }

  /** Every node of `before` is still there: where it was, or below where its item went; nothing was at the
      place something was put; and an item that went was there and no longer is. */
  ghost predicate NothingLost(before: Tree, after: Tree, change: Change) {
    match change
    case MovedTo(from, to) => from in before && from !in after && to !in before && AllFollow(before, after, from, to)
    case Restored(path) => path !in before && forall q :: q in before ==> q in after && after[q] == before[q]
    case Trashed(path) => path in before && path !in after && KeptOutside(before, after, path)
  }

  lemma {:induction false} MoveLosesNothing(fs: Tree, from: Path, to: Path)
    requires IsTree(fs) && CanMove(fs, from, to)
    ensures NothingLost(fs, Moved(fs, from, to), MovedTo(from, to))
  {
    MovedFollow(fs, from, to);
    VacantBelow(fs, to);
    MovedAt(fs, from, to, from);
  }

  /** Wherever the item comes back to. */
  lemma {:induction false} RestoreLosesNothing(fs: Tree, path: Path, at: Path, sub: Tree)
    requires IsTree(fs) && path !in fs && at !in fs
    ensures NothingLost(fs, Graft(fs, at, sub), Restored(path))
  {
    VacantBelow(fs, at);
    forall q | q in fs {
      GraftAt(fs, at, sub, q);
    }
  }

  /** No successful undo overwrites anything, on any disk. */
  lemma {:induction false} UndoLosesNothing(w: World, s: Stacks, weather: Weather)
    requires IsTree(w.fs) && UndoStep(w, s, weather).answer.Ok? && UndoStep(w, s, weather).answer.value.Some?
    ensures var step := UndoStep(w, s, weather);
      NothingLost(w.fs, step.world.fs, step.answer.value.value) && step.stacks == AfterUndone(s)
  {
    match Last(s.undo)
    case Move(from, to) => MoveLosesNothing(w.fs, to, from);
    case Trash(path, token) => RestoreLosesNothing(w.fs, path, w.trash[token].path, w.trash[token].sub);
  }

  lemma {:induction false} TrashLosesNothing(fs: Tree, path: Path)
    requires path in fs
    ensures NothingLost(fs, Without(fs, path), Trashed(path))
  {
  }

  lemma {:induction false} RedoneMove(w: World, s: Stacks, weather: Weather)
    requires s.redo != [] && Last(s.redo).Move? && RedoStep(w, s, weather).answer.Ok?
    ensures var step, op := RedoStep(w, s, weather), Last(s.redo);
      CanMove(w.fs, op.from, op.to) && step.world.fs == Moved(w.fs, op.from, op.to) &&
      step.answer == Ok(Some(MovedTo(op.from, op.to)))
  {
  }

  /** Nor does a redo. */
  lemma {:induction false} RedoLosesNothing(w: World, s: Stacks, weather: Weather)
    requires IsTree(w.fs) && s.redo != [] && RedoStep(w, s, weather).answer.Ok?
    ensures var step := RedoStep(w, s, weather);
      step.answer.value.Some? && NothingLost(w.fs, step.world.fs, step.answer.value.value)
  {
    var op := Last(s.redo);
    if op.Move? {
      RedoneMove(w, s, weather);
      MoveLosesNothing(w.fs, op.from, op.to);
    } else {
      TrashLosesNothing(w.fs, op.path);
    }
  }

  /** A delete that the trash takes for good is not undoable again: it leaves the redo stack and nothing else
      of the history changes. */
  lemma {:induction false} RedoneForGood(w: World, s: Stacks, weather: Weather)
    requires s.redo != [] && Last(s.redo).Trash? && RedoStep(w, s, weather).answer.Ok? && weather.token.None?
    ensures var step, path := RedoStep(w, s, weather), Last(s.redo).path;
      step == Step(World(Without(w.fs, path), w.trash), Stacks(s.undo, Init(s.redo)), Ok(Some(Trashed(path))))
  {
  }

  /** The path at which a user looks for an entry's item: where it is while the entry stands, for a move,
      and where it was, for a delete. */
  lemma {:induction false} ItemIsThere(w: World, op: FileOp)
    requires IsTree(w.fs) && CanDo(w.fs, op)
    ensures op.Item() in if op.Move? then Doing(w, op).fs else w.fs
    ensures op.Item() !in if op.Move? then w.fs else Doing(w, op).fs
  {
    if op.Move? {
      VacantBelow(w.fs, op.to);
      MovedAt(w.fs, op.from, op.to, op.to);
      assert op.from + op.to[|op.to|..] == op.from;
    }
  }

  /** What stands in the way of an item that is to go from one path to another: it is not
      there, something else is, there is no folder for it, or the folder is its own. */
  predicate InTheWay(fs: Tree, from: Path, to: Path, reason: Reason) {
    match reason
    case NoLongerAt(p) => p == from && from !in fs
    case SomethingElseAt(p) => p == to && from in fs && to in fs
    case FolderGone(folder) => to != [] && folder == to[..|to| - 1] && from in fs && to !in fs && !IsFolder(fs, folder)
    case NothingAt(_) => false
    case NotInTrash => false
    case CannotPutBack => false
    case System(_) => from in fs && to !in fs && (to == [] || IsFolder(fs, to[..|to| - 1])) && from <= to
  }

  /** Why a deleted item cannot be put back, when the trash does what it is asked. */
  ghost predicate NotToBeRestored(w: World, path: Path, token: Token, reason: Reason) {
    match reason
    case NoLongerAt(_) => false
    case SomethingElseAt(p) => p == path && (path in w.fs || (token in w.trash && w.trash[token].path in w.fs))
    case FolderGone(folder) => path != [] && folder == path[..|path| - 1] && !IsFolder(w.fs, folder)
    case NothingAt(_) => false
    case NotInTrash => token !in w.trash
    case CannotPutBack => false
    case System(_) => token in w.trash && !HasHome(w.fs, w.trash[token].path)
  }

  /** A refused undo says which entry, which item and what is true of the disk, if the system did not fail. */
  lemma {:induction false} UndoSaysWhy(w: World, s: Stacks, weather: Weather)
    requires s.undo != [] && UndoStep(w, s, weather).answer.Err?
    ensures var Refusal(undoing, op, item, reason) := UndoStep(w, s, weather).answer.error;
      undoing && op == Last(s.undo) && item == op.Item() &&
      (Fair(weather) ==>
        if op.Move? then InTheWay(w.fs, op.to, op.from, reason) else NotToBeRestored(w, op.path, op.token, reason))
  {
  }

  /** So does a refused redo. */
  lemma {:induction false} RedoSaysWhy(w: World, s: Stacks, weather: Weather)
    requires s.redo != [] && RedoStep(w, s, weather).answer.Err?
    ensures var Refusal(undoing, op, item, reason) := RedoStep(w, s, weather).answer.error;
      !undoing && op == Last(s.redo) && item == op.Item() &&
      (Fair(weather) ==>
        if op.Move? then InTheWay(w.fs, op.from, op.to, reason)
        else (reason == NothingAt(op.path) && op.path !in w.fs) || (reason.System? && op.path == []))
  {
  }

  predicate IsTold(answer: Answer, reason: Reason) {
    answer.Err? && answer.error.reason == reason
  }

  /** What the system says when it fails is what the user is told. */
  lemma {:induction false} FailureIsTold(w: World, s: Stacks, weather: Weather)
    requires s.undo != [] && Undoable(w, Last(s.undo))
    ensures Last(s.undo).Move? && weather.rename.Some? ==>
      IsTold(UndoStep(w, s, weather).answer, System(weather.rename.value))
    ensures Last(s.undo).Trash? && weather.restore == Some(Gone) ==> IsTold(UndoStep(w, s, weather).answer, NotInTrash)
    ensures Last(s.undo).Trash? && weather.restore == Some(Taken) ==>
      IsTold(UndoStep(w, s, weather).answer, SomethingElseAt(Last(s.undo).path))
    ensures Last(s.undo).Trash? && weather.restore == Some(Unsupported) ==>
      IsTold(UndoStep(w, s, weather).answer, CannotPutBack)
    ensures Last(s.undo).Trash? && weather.restore.Some? && weather.restore.value.Failed? ==>
      IsTold(UndoStep(w, s, weather).answer, System(weather.restore.value.message))
  {
  }

  /** So it is when something is done again. */
  lemma {:induction false} RedoFailureIsTold(w: World, s: Stacks, weather: Weather)
    requires s.redo != [] && CanDo(w.fs, Last(s.redo))
    ensures Last(s.redo).Move? && weather.rename.Some? ==>
      IsTold(RedoStep(w, s, weather).answer, System(weather.rename.value))
    ensures Last(s.redo).Trash? && weather.trash.Some? ==>
      IsTold(RedoStep(w, s, weather).answer, System(weather.trash.value))
  {
  }

  /** What a redone delete removed is in the trash, whole, when the trash can give it back. */
  lemma {:induction false} RedoneDeleteIsKept(w: World, s: Stacks, weather: Weather)
    requires s.redo != [] && Last(s.redo).Trash? && RedoStep(w, s, weather).answer.Ok? && weather.token.Some?
    ensures var step, path := RedoStep(w, s, weather), Last(s.redo).path;
      step.world == World(Without(w.fs, path), w.trash[weather.token.value := Item(path, Sub(w.fs, path))])
  {
  }
}
