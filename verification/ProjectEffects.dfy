/** What an input must be, what a colour's text says, and what each operation does to the book. */
module ProjectEffects {
  import opened Outcome
  import opened Chars
  import opened Paths
  import opened Projects
  import opened ProjectLaws

  // ---------- colours ----------

  /** The number that hexadecimal digits stand for. */
  function HexNumber(s: string): nat
    requires AllHex(s)
  {
    if s == "" then 0 else 16 * HexNumber(s[..|s| - 1]) + HexDigit(s[|s| - 1]).value
  }

  /** Red, green and blue as one number. */
  function ColourNumber(c: Colour): nat {
    c.r * 65536 + c.g * 256 + c.b
  }

  lemma {:induction false} HexDigitIs(c: char)
    ensures HexDigit(c).Some? <==> '0' <= c <= '9' || 'a' <= c <= 'f' || 'A' <= c <= 'F'
    ensures '0' <= c <= '9' ==> HexDigit(c) == Some(c as int - 48)
    ensures 'a' <= c <= 'f' ==> HexDigit(c) == Some(c as int - 87)
    ensures 'A' <= c <= 'F' ==> HexDigit(c) == Some(c as int - 55)
  {
  }

  lemma {:induction false} HexOfMore(s: string, n: nat)
    requires AllHex(s) && n < |s|
    ensures AllHex(s[..n]) && AllHex(s[..n + 1]) && HexDigit(s[n]).Some?
    ensures HexNumber(s[..n + 1]) == 16 * HexNumber(s[..n]) + HexDigit(s[n]).value
  {
    assert s[..n + 1][..n] == s[..n];
  }

  lemma {:induction false} SixDigits(s: string)
    requires AllHex(s) && |s| == 6
    ensures HexNumber(s) == Channel(s[0], s[1]) * 65536 + Channel(s[2], s[3]) * 256 + Channel(s[4], s[5])
  {
    TwoMore(s, 0);
    TwoMore(s, 2);
    TwoMore(s, 4);
    assert s[..6] == s && s[..0] == "";
  }

  lemma {:induction false} TwoMore(s: string, n: nat)
    requires AllHex(s) && n + 1 < |s|
    ensures AllHex(s[..n]) && AllHex(s[..n + 2]) && HexDigit(s[n]).Some? && HexDigit(s[n + 1]).Some?
    ensures HexNumber(s[..n + 2]) == 256 * HexNumber(s[..n]) + Channel(s[n], s[n + 1])
  {
    HexOfMore(s, n);
    HexOfMore(s, n + 1);
  }

  lemma {:induction false} HashIsTrimmed(s: string)
    requires AllHex(s) && s != ""
    ensures Trim("#" + s) == "#" + s && ("#" + s)[1..] == s
  {
    HexDigitIs(s[|s| - 1]);
    assert ("#" + s)[|s|] == s[|s| - 1];
    TrimmedStays("#" + s);
  }

  /** Six digits are the colour's number in hexadecimal, */
  lemma {:induction false} ColourSays(s: string)
    requires AllHex(s) && |s| == 6
    ensures var r := ParseColour("#" + s);
      r.Ok? && ColourNumber(r.value) == HexNumber(s) && r.value.r < 256 && r.value.g < 256 && r.value.b < 256
  {
    HashIsTrimmed(s);
    SixDigits(s);
    var t := "#" + s;
    assert t[1] == s[0] && t[2] == s[1] && t[3] == s[2] && t[4] == s[3] && t[5] == s[4] && t[6] == s[5];
  }

  /** and three are short for each of them twice. */
  lemma {:induction false} ShortColour(s: string, long: string)
    requires AllHex(s) && |s| == 3 && long == [s[0], s[0], s[1], s[1], s[2], s[2]]
    ensures AllHex(long) && ParseColour("#" + s) == ParseColour("#" + long)
  {
    HashIsTrimmed(s);
    HashIsTrimmed(long);
    var (t, u) := ("#" + s, "#" + long);
    assert t[1] == s[0] && t[2] == s[1] && t[3] == s[2];
    assert u[1] == long[0] && u[2] == long[1] && u[3] == long[2] && u[4] == long[3] && u[5] == long[4] && u[6] == long[5];
  }

  /** Nothing else is a colour. */
  lemma {:induction false} ColourExactly(text: string)
    ensures var t := Trim(text);
      ParseColour(text).Ok? <==>
      (|t| == 4 || |t| == 7) && t[0] == '#' && forall i :: 1 <= i < |t| ==> HexDigit(t[i]).Some?
    ensures ParseColour(text).Err? ==> ParseColour(text).error == InvalidColour(text)
  {
    var t := Trim(text);
    if t != "" {
      assert forall i :: 0 <= i < |t[1..]| ==> t[1..][i] == t[i + 1];
    }
  }

  // ---------- inputs ----------

  /** An input is accepted exactly when each of its fields is good; the first that is not is named. */
  lemma {:induction false} InputExactly(input: ProjectInput)
    ensures var (name, root, r) := (Trim(input.name), Trim(input.root), ValidateInput(input));
      (r == Err(EmptyName) <==> name == "") && (r == Err(NameTooLong) <==> |name| > 120) &&
      (r.Ok? <==>
        0 < |name| <= 120 && ParseColour(input.colour).Ok? && root != "" && root[0] == '/') &&
      (r.Ok? ==> r.value.name == name && r.value.root == root && ParseColour(input.colour) == Ok(r.value.colour)) &&
      (r == Err(EmptyRoot) <==> 0 < |name| <= 120 && ParseColour(input.colour).Ok? && root == "") &&
      (r == Err(RootNotAbsolute) <==> 0 < |name| <= 120 && ParseColour(input.colour).Ok? && root != "" && root[0] != '/') &&
      (r.Err? && r.error.InvalidColour? <==> 0 < |name| <= 120 && ParseColour(input.colour).Err?)
  {
    ColourExactly(input.colour);
  }

  // ---------- steps ----------

  /** The fields that a user gives. */
  predicate IsAsGiven(project: Project, input: ProjectInput) {
    project.name == Trim(input.name) && project.root == Trim(input.root) && Ok(project.colour) == ParseColour(input.colour)
  }

  /** The first project of that id. */
  predicate IsFirst(projects: seq<Project>, id: Id, i: nat) {
    i < |projects| && projects[i].id == id && forall k :: 0 <= k < i ==> projects[k].id != id
  }

  lemma {:induction false} PositionIsFirst(projects: seq<Project>, id: Id, i: nat)
    ensures PositionOf(projects, id) == Some(i) <==> IsFirst(projects, id, i)
  {
    if projects != [] {
      PositionIsFirst(projects[..|projects| - 1], id, i);
      if PositionOf(projects[..|projects| - 1], id).Some? {
        PositionIsFirst(projects[..|projects| - 1], id, PositionOf(projects[..|projects| - 1], id).value);
      }
    }
  }

  /** A step that was not refused. */
  predicate Done(rules: PathRules, book: Book, step: Step) {
    After(rules, book, step).1.None?
  }

  /** A created project is the last one, as given, new and with nothing hidden; it is active if none was. */
  lemma {:induction false} CreateDoes(rules: PathRules, book: Book, input: ProjectInput, id: Id, now: int)
    requires Done(rules, book, Create(input, id, now))
    ensures var next := After(rules, book, Create(input, id, now)).0;
      var n := |book.projects|;
      |next.projects| == n + 1 && next.projects[..n] == book.projects &&
      var p := next.projects[n];
      p.id == id && IsAsGiven(p, input) && p.hidden == [] && p.createdAt == now && p.updatedAt == now &&
      next.active == if book.active.None? then Some(id) else book.active
  {
    InputExactly(input);
  }

  /** An update changes one project's name, colour, root and time to those given, and nothing else. */
  lemma {:induction false} UpdateDoes(rules: PathRules, book: Book, id: Id, input: ProjectInput, now: int, i: nat)
    requires Done(rules, book, Update(id, input, now)) && IsFirst(book.projects, id, i)
    ensures var next := After(rules, book, Update(id, input, now)).0;
      next.active == book.active && |next.projects| == |book.projects| &&
      (forall k :: 0 <= k < |book.projects| && k != i ==> next.projects[k] == book.projects[k]) &&
      var (was, edited) := (book.projects[i], next.projects[i]);
      IsAsGiven(edited, input) && edited.updatedAt == now && edited.id == was.id && edited.hidden == was.hidden &&
      edited.createdAt == was.createdAt
  {
    InputExactly(input);
    PositionIsFirst(book.projects, id, i);
  }

  /** Hiding changes one project's hidden paths and time, and nothing else. */
  lemma {:induction false} SetHiddenDoes(rules: PathRules, book: Book, id: Id, hidden: seq<string>, now: int, i: nat)
    requires IsFirst(book.projects, id, i)
    ensures var (next, refused) := After(rules, book, SetHidden(id, hidden, now));
      refused == None && next.active == book.active && |next.projects| == |book.projects| &&
      (forall k :: 0 <= k < |book.projects| && k != i ==> next.projects[k] == book.projects[k]) &&
      next.projects[i] == book.projects[i].(hidden := Deduplicated(hidden), updatedAt := now)
  {
    PositionIsFirst(book.projects, id, i);
  }

  /** Paths are hidden in the order in which they are first given. */
  lemma {:induction false} FirstSeenFirst(paths: seq<string>, more: seq<string>)
    ensures Deduplicated(paths) <= Deduplicated(paths + more)
  {
    if more == [] {
      assert paths + more == paths;
    } else {
      var init := more[..|more| - 1];
      FirstSeenFirst(paths, init);
      assert (paths + more)[..|paths + more| - 1] == paths + init;
    }
  }

  /** The project asked for is active afterwards, and nothing else has changed. */
  lemma {:induction false} SetActiveDoes(rules: PathRules, book: Book, id: Id, i: nat)
    requires IsFirst(book.projects, id, i)
    ensures After(rules, book, SetActive(id)) == (Book(book.projects, Some(id)), None)
  {
    PositionIsFirst(book.projects, id, i);
  }

  /** A deleted project is gone and the others stay as they are; where it was active, the first of them now is. */
  lemma {:induction false} DeleteDoes(rules: PathRules, book: Book, id: Id, i: nat)
    requires IsFirst(book.projects, id, i)
    ensures var (next, refused) := After(rules, book, Delete(id));
      refused == None && next.projects == book.projects[..i] + book.projects[i + 1..] &&
      next.active ==
        if book.active != Some(id) then book.active else if next.projects == [] then None else Some(next.projects[0].id)
  {
    PositionIsFirst(book.projects, id, i);
  }

  /** What names no project is refused as such, and only that. */
  lemma {:induction false} UnknownIsRefused(rules: PathRules, book: Book, step: Step)
    requires !step.Create? && !step.Update?
    ensures After(rules, book, step).1 ==
      if forall i :: 0 <= i < |book.projects| ==> book.projects[i].id != step.id then Some(NotFound) else None
  {
    if PositionOf(book.projects, step.id).Some? {
      assert book.projects[PositionOf(book.projects, step.id).value].id == step.id;
    }
  }

  /** The project goes to the place asked for, or the last one if that is beyond it; the others keep their order. */
  lemma {:induction false} ReorderDoes(rules: PathRules, book: Book, id: Id, to: nat, i: nat)
    requires IsFirst(book.projects, id, i)
    ensures var (next, refused) := After(rules, book, Reorder(id, to));
      var at := if to < |book.projects| then to else |book.projects| - 1;
      refused == None && next.active == book.active && |next.projects| == |book.projects| &&
      next.projects[at] == book.projects[i] &&
      next.projects[..at] + next.projects[at + 1..] == book.projects[..i] + book.projects[i + 1..]
  {
    PositionIsFirst(book.projects, id, i);
    var rest := book.projects[..i] + book.projects[i + 1..];
    var at := if to < |book.projects| then to else |book.projects| - 1;
    PutIn(rest, at, book.projects[i]);
  }

  lemma {:induction false} PutIn<T>(rest: seq<T>, at: nat, x: T)
    requires at <= |rest|
    ensures var s := Inserted(rest, at, x); s[at] == x && s[..at] + s[at + 1..] == rest
  {
    var s := Inserted(rest, at, x);
    assert s[..at] == rest[..at] && s[at + 1..] == rest[at..];
  }

  // ---------- answers ----------

  /** The first project, but for the one of that id, whose folder is the same as the one asked for, inside it or around it. */
  predicate IsInTheWay(rules: PathRules, projects: seq<Project>, self: Option<Id>, root: string, i: nat) {
    i < |projects| && IsOverlapped(rules, projects[i], self, root) &&
    forall k :: 0 <= k < i ==> !IsOverlapped(rules, projects[k], self, root)
  }

  predicate IsOverlapped(rules: PathRules, project: Project, self: Option<Id>, root: string) {
    self != Some(project.id) && (IsWithin(rules, project.root, root) || IsWithin(rules, root, project.root))
  }

  lemma {:induction false} ConflictIsFirst(rules: PathRules, projects: seq<Project>, self: Option<Id>, root: string, i: nat)
    requires IsInTheWay(rules, projects, self, root, i)
    ensures FolderExclusive(rules, root, projects, self) == Err(FolderConflict(projects[i].name, projects[i].root))
  {
    forall k | 0 <= k <= i
      ensures Conflicts(rules, root, projects[k], self) <==> IsOverlapped(rules, projects[k], self, root)
    {
      OverlapsMeans(rules, projects[k], self, root);
    }
    ConflictFrom(rules, projects, self, root, 0, i);
  }

  lemma {:induction false} OverlapsMeans(rules: PathRules, project: Project, self: Option<Id>, root: string)
    ensures Conflicts(rules, root, project, self) <==> IsOverlapped(rules, project, self, root)
  {
  }

  lemma {:induction false} ConflictFrom(rules: PathRules, projects: seq<Project>, self: Option<Id>, root: string, from: nat, i: nat)
    requires from <= i < |projects| && ExclusiveUpTo(rules, root, projects, self, i) && Conflicts(rules, root, projects[i], self)
    ensures ExclusiveUpTo(rules, root, projects, self, from)
    ensures ExclusiveFrom(rules, root, projects, self, from) == Err(FolderConflict(projects[i].name, projects[i].root))
    decreases i - from
  {
    if from < i {
      ConflictFrom(rules, projects, self, root, from + 1, i);
    }
  }

  lemma {:induction false} NoneIsFree(rules: PathRules, projects: seq<Project>, self: Option<Id>, root: string)
    requires forall i :: 0 <= i < |projects| ==> !IsOverlapped(rules, projects[i], self, root)
    ensures FolderExclusive(rules, root, projects, self).Ok?
  {
    assert forall i :: 0 <= i < |projects| ==> !IsOverlapped(rules, projects[i], self, root);
  }

  /** Creating is refused for a bad field, then for the first project in the way, which is named, and else never. */
  lemma {:induction false} CreateIsAnswered(rules: PathRules, book: Book, input: ProjectInput, id: Id, now: int)
    ensures var answer := After(rules, book, Create(input, id, now)).1;
      (ValidateInput(input).Err? ==> answer == Some(ValidateInput(input).error)) &&
      (ValidateInput(input).Ok? ==>
        var root := ValidateInput(input).value.root;
        (forall i: nat :: IsInTheWay(rules, book.projects, None, root, i) ==>
          answer == Some(FolderConflict(book.projects[i].name, book.projects[i].root))) &&
        ((forall i :: 0 <= i < |book.projects| ==> !IsOverlapped(rules, book.projects[i], None, root)) ==> answer == None))
  {
    if ValidateInput(input).Ok? {
      Answers(rules, book.projects, None, ValidateInput(input).value.root);
    }
  }

  lemma {:induction false} Answers(rules: PathRules, projects: seq<Project>, self: Option<Id>, root: string)
    ensures forall i: nat :: IsInTheWay(rules, projects, self, root, i) ==>
      FolderExclusive(rules, root, projects, self) == Err(FolderConflict(projects[i].name, projects[i].root))
    ensures (forall i :: 0 <= i < |projects| ==> !IsOverlapped(rules, projects[i], self, root)) ==>
      FolderExclusive(rules, root, projects, self).Ok?
  {
    forall i: nat | IsInTheWay(rules, projects, self, root, i)
      ensures FolderExclusive(rules, root, projects, self) == Err(FolderConflict(projects[i].name, projects[i].root))
    {
      ConflictIsFirst(rules, projects, self, root, i);
    }
    if forall i :: 0 <= i < |projects| ==> !IsOverlapped(rules, projects[i], self, root) {
      NoneIsFree(rules, projects, self, root);
    }
  }

  /** So is an update, for which its own project is in nobody's way, and last for an id that no project has. */
  lemma {:induction false} UpdateIsAnswered(rules: PathRules, book: Book, id: Id, input: ProjectInput, now: int)
    ensures var answer := After(rules, book, Update(id, input, now)).1;
      (ValidateInput(input).Err? ==> answer == Some(ValidateInput(input).error)) &&
      (ValidateInput(input).Ok? ==>
        var root := ValidateInput(input).value.root;
        (forall i: nat :: IsInTheWay(rules, book.projects, Some(id), root, i) ==>
          answer == Some(FolderConflict(book.projects[i].name, book.projects[i].root))) &&
        ((forall i :: 0 <= i < |book.projects| ==> !IsOverlapped(rules, book.projects[i], Some(id), root)) ==>
          answer == if exists k :: 0 <= k < |book.projects| && book.projects[k].id == id then None else Some(NotFound)))
  {
    if ValidateInput(input).Ok? {
      Answers(rules, book.projects, Some(id), ValidateInput(input).value.root);
    }
    if PositionOf(book.projects, id).Some? {
      assert book.projects[PositionOf(book.projects, id).value].id == id;
    }
  }
}
