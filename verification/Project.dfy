/** Projects, each exclusively bound to a root folder, in display order with one of them active. */
module Projects {
  import opened Outcome
  import opened Chars
  import opened Paths

  const MAX_NAME_LENGTH := 120

  type Id = nat

  datatype Colour = Colour(r: nat, g: nat, b: nat)

  datatype Project = Project(id: Id, name: string, colour: Colour, root: string, hidden: seq<string>, createdAt: int, updatedAt: int)

  datatype ProjectInput = ProjectInput(name: string, colour: string, root: string)

  datatype ProjectError =
    | EmptyName | NameTooLong | InvalidColour(text: string) | EmptyRoot | RootNotAbsolute
    | FolderConflict(otherName: string, otherRoot: string) | NotFound

  datatype ValidInput = ValidInput(name: string, colour: Colour, root: string)

  // ---------- input ----------

  function HexDigit(c: char): (r: Option<nat>)
    ensures r.Some? ==> r.value < 16
  {
    if IsAsciiDigit(c) then Some(c as int - '0' as int)
    else if 'a' <= ToAsciiLower(c) <= 'f' then Some(ToAsciiLower(c) as int - 'a' as int + 10)
    else None
  }

  predicate AllHex(s: string) {
    forall i :: 0 <= i < |s| ==> HexDigit(s[i]).Some?
  }

  function Channel(high: char, low: char): nat
    requires HexDigit(high).Some? && HexDigit(low).Some?
  {
    HexDigit(high).value * 16 + HexDigit(low).value
  }

  /** `#rgb` or `#rrggbb`, in either case. */
  function ParseColour(text: string): Result<Colour, ProjectError> {
    var t := Trim(text);
    if t == "" || t[0] != '#' || !AllHex(t[1..]) then Err(InvalidColour(text))
    else if |t| == 4 then Ok(Colour(Channel(t[1], t[1]), Channel(t[2], t[2]), Channel(t[3], t[3])))
    else if |t| == 7 then Ok(Colour(Channel(t[1], t[2]), Channel(t[3], t[4]), Channel(t[5], t[6])))
    else Err(InvalidColour(text))
  }

  /** An input's fields checked on their own. */
  function ValidateInput(input: ProjectInput): Result<ValidInput, ProjectError> {
    var name, colour, root := Trim(input.name), ParseColour(input.colour), Trim(input.root);
    if name == "" then Err(EmptyName)
    else if |name| > MAX_NAME_LENGTH then Err(NameTooLong)
    else if colour.Err? then Err(colour.error)
    else if root == "" then Err(EmptyRoot)
    else if !IsAbsolute(root) then Err(RootNotAbsolute)
    else Ok(ValidInput(name, colour.value, root))
  }

  // ---------- the book ----------

  datatype Book = Book(projects: seq<Project>, active: Option<Id>)

  const EMPTY := Book([], None)

  function PositionOf(projects: seq<Project>, id: Id): (r: Option<nat>)
    ensures r.Some? ==> r.value < |projects| && projects[r.value].id == id
    ensures r.None? ==> forall i :: 0 <= i < |projects| ==> projects[i].id != id
  {
    if projects == [] then None
    else if projects[|projects| - 1].id == id && PositionOf(projects[..|projects| - 1], id).None? then Some(|projects| - 1)
    else PositionOf(projects[..|projects| - 1], id)
  }

  predicate Conflicts(rules: PathRules, candidate: string, project: Project, self: Option<Id>) {
    Some(project.id) != self && Overlaps(rules, candidate, project.root)
  }

  /** No project other than `self` overlaps the candidate root. */
  predicate Exclusive(rules: PathRules, candidate: string, existing: seq<Project>, self: Option<Id>) {
    ExclusiveUpTo(rules, candidate, existing, self, |existing|)
  }

  predicate ExclusiveUpTo(rules: PathRules, candidate: string, existing: seq<Project>, self: Option<Id>, n: nat) {
    forall i :: 0 <= i < n <= |existing| ==> !Conflicts(rules, candidate, existing[i], self)
  }

  predicate FirstConflict(rules: PathRules, candidate: string, existing: seq<Project>, self: Option<Id>, i: nat) {
    i < |existing| && Conflicts(rules, candidate, existing[i], self) && ExclusiveUpTo(rules, candidate, existing, self, i)
  }

  function ExclusiveFrom(rules: PathRules, candidate: string, existing: seq<Project>, self: Option<Id>, from: nat):
      (r: Result<(), ProjectError>)
    requires from <= |existing| && ExclusiveUpTo(rules, candidate, existing, self, from)
    ensures r.Ok? <==> Exclusive(rules, candidate, existing, self)
    ensures r.Err? ==> exists i: nat ::
      FirstConflict(rules, candidate, existing, self, i) && r.error == FolderConflict(existing[i].name, existing[i].root)
    decreases |existing| - from
  {
    if from == |existing| then Ok(())
    else if Conflicts(rules, candidate, existing[from], self) then
      assert FirstConflict(rules, candidate, existing, self, from);
      Err(FolderConflict(existing[from].name, existing[from].root))
    else ExclusiveFrom(rules, candidate, existing, self, from + 1)
  }

  function FolderExclusive(rules: PathRules, candidate: string, existing: seq<Project>, self: Option<Id>):
      (r: Result<(), ProjectError>)
    ensures r.Ok? <==> Exclusive(rules, candidate, existing, self)
  {
    ExclusiveFrom(rules, candidate, existing, self, 0)
  }

  lemma {:induction false} OneMoreExclusive(rules: PathRules, candidate: string, existing: seq<Project>, self: Option<Id>, i: nat)
    requires i < |existing| && ExclusiveUpTo(rules, candidate, existing, self, i)
    ensures Conflicts(rules, candidate, existing[i], self) ==> FirstConflict(rules, candidate, existing, self, i)
    ensures Conflicts(rules, candidate, existing[i], self) ==>
      ExclusiveFrom(rules, candidate, existing, self, i) == Err(FolderConflict(existing[i].name, existing[i].root))
    ensures !Conflicts(rules, candidate, existing[i], self) ==> ExclusiveUpTo(rules, candidate, existing, self, i + 1)
    ensures !Conflicts(rules, candidate, existing[i], self) ==>
      ExclusiveFrom(rules, candidate, existing, self, i) == ExclusiveFrom(rules, candidate, existing, self, i + 1)
  {
  }

  /** The refusal names the first project in the way. */
  method AssertFolderExclusive(rules: PathRules, candidate: string, existing: seq<Project>, self: Option<Id>)
    returns (r: Result<(), ProjectError>)
    ensures r == FolderExclusive(rules, candidate, existing, self)
    ensures r.Ok? <==> Exclusive(rules, candidate, existing, self)
    ensures r.Err? ==> exists i: nat ::
      FirstConflict(rules, candidate, existing, self, i) && r.error == FolderConflict(existing[i].name, existing[i].root)
  {
    for i := 0 to |existing|
      invariant ExclusiveUpTo(rules, candidate, existing, self, i)
      invariant ExclusiveFrom(rules, candidate, existing, self, 0) == ExclusiveFrom(rules, candidate, existing, self, i)
    {
      OneMoreExclusive(rules, candidate, existing, self, i);
      if Some(existing[i].id) == self {
        continue;
      }
      if Overlaps(rules, candidate, existing[i].root) {
        return Err(FolderConflict(existing[i].name, existing[i].root));
      }
    }
    return Ok(());
  }

  function Without<T>(s: seq<T>, i: nat): (r: seq<T>)
    requires i < |s|
    ensures |r| == |s| - 1
  {
    s[..i] + s[i + 1..]
  }

  function Inserted<T>(s: seq<T>, i: nat, x: T): (r: seq<T>)
    requires i <= |s|
    ensures |r| == |s| + 1
  {
    s[..i] + [x] + s[i..]
  }

  function Least(a: nat, b: nat): nat {
    if a < b then a else b
  }

  /** Paths kept once each, in first-seen order, without empties. */
  function Deduplicated(paths: seq<string>): (seen: seq<string>) {
    if paths == [] then []
    else
      var seen, last := Deduplicated(paths[..|paths| - 1]), paths[|paths| - 1];
      if last != "" && last !in seen then seen + [last] else seen
  }

  datatype Step =
    | Create(input: ProjectInput, newId: Id, now: int)
    | Update(id: Id, input: ProjectInput, now: int)
    | SetHidden(id: Id, hidden: seq<string>, now: int)
    | SetActive(id: Id)
    | Delete(id: Id)
    | Reorder(id: Id, to: nat)

  function AfterSetHidden(book: Book, id: Id, hidden: seq<string>, now: int): (Book, Option<ProjectError>) {
    var projects := book.projects;
    if PositionOf(projects, id).None? then (book, Some(NotFound))
    else
      var i := PositionOf(projects, id).value;
      (book.(projects := projects[i := projects[i].(hidden := Deduplicated(hidden), updatedAt := now)]), None)
  }

  function AfterSetActive(book: Book, id: Id): (Book, Option<ProjectError>) {
    if PositionOf(book.projects, id).None? then (book, Some(NotFound)) else (book.(active := Some(id)), None)
  }

  function AfterDelete(book: Book, id: Id): (Book, Option<ProjectError>) {
    if PositionOf(book.projects, id).None? then (book, Some(NotFound))
    else
      var rest := Without(book.projects, PositionOf(book.projects, id).value);
      (Book(rest, if book.active != Some(id) then book.active else if rest == [] then None else Some(rest[0].id)), None)
  }

  function AfterReorder(book: Book, id: Id, to: nat): (Book, Option<ProjectError>) {
    if PositionOf(book.projects, id).None? then (book, Some(NotFound))
    else
      var from := PositionOf(book.projects, id).value;
      var rest := Without(book.projects, from);
      (book.(projects := Inserted(rest, Least(to, |rest|), book.projects[from])), None)
  }

  /** The book after a step, and why the step was refused. */
  function After(rules: PathRules, book: Book, step: Step): (Book, Option<ProjectError>) {
    var projects := book.projects;
    match step
    case Create(input, id, now) =>
      var valid := ValidateInput(input);
      if valid.Err? then (book, Some(valid.error))
      else
        var exclusive := FolderExclusive(rules, valid.value.root, projects, None);
        if exclusive.Err? then (book, Some(exclusive.error))
        else
          var v := valid.value;
          (Book(projects + [Project(id, v.name, v.colour, v.root, [], now, now)], if book.active.None? then Some(id) else book.active), None)
    case Update(id, input, now) =>
      var valid := ValidateInput(input);
      if valid.Err? then (book, Some(valid.error))
      else
        var exclusive := FolderExclusive(rules, valid.value.root, projects, Some(id));
        if exclusive.Err? then (book, Some(exclusive.error))
        else if PositionOf(projects, id).None? then (book, Some(NotFound))
        else
          var v, i := valid.value, PositionOf(projects, id).value;
          (book.(projects := projects[i := projects[i].(name := v.name, colour := v.colour, root := v.root, updatedAt := now)]), None)
    case SetHidden(id, hidden, now) => AfterSetHidden(book, id, hidden, now)
    case SetActive(id) => AfterSetActive(book, id)
    case Delete(id) => AfterDelete(book, id)
    case Reorder(id, to) => AfterReorder(book, id, to)
  }

  function OwnerIn(rules: PathRules, projects: seq<Project>, path: string): (r: Option<Project>)
    ensures r.Some? ==> r.value in projects && IsWithin(rules, r.value.root, path)
    ensures r.None? ==> forall i :: 0 <= i < |projects| ==> !IsWithin(rules, projects[i].root, path)
  {
    if projects == [] then None
    else if IsWithin(rules, projects[0].root, path) then Some(projects[0])
    else OwnerIn(rules, projects[1..], path)
  }

  /** The user's projects. Identifiers for new projects come from outside. */
  class ProjectBook {
    var projects: seq<Project>
    var active: Option<Id>

    function Contents(): Book
      reads this
    {
      Book(projects, active)
    }

    constructor Empty()
      ensures Contents() == EMPTY
    {
      projects, active := [], None;
    }

    /** `wanted` is active if it is the id of a saved project, and no project is otherwise. */
    constructor New(saved: seq<Project>, wanted: Option<Id>)
      ensures projects == saved
      ensures active == if wanted.Some? && PositionOf(saved, wanted.value).Some? then wanted else None
    {
      projects := saved;
      active := if wanted.Some? && PositionOf(saved, wanted.value).Some? then wanted else None;
    }

    /** On success `r` stands last in the book, and is active if none was. */
    method Create(rules: PathRules, input: ProjectInput, id: Id, now: int) returns (r: Result<Project, ProjectError>)
      modifies this
      ensures (Contents(), if r.Ok? then None else Some(r.error)) == After(rules, old(Contents()), Step.Create(input, id, now))
      ensures r.Ok? ==> projects == old(projects) + [r.value] && r.value.id == id
    {
      var valid := ValidateInput(input);
      if valid.Err? {
        return Err(valid.error);
      }
      var exclusive := AssertFolderExclusive(rules, valid.value.root, projects, None);
      if exclusive.Err? {
        return Err(exclusive.error);
      }
      var project := Project(id, valid.value.name, valid.value.colour, valid.value.root, [], now, now);
      if active.None? {
        active := Some(id);
      }
      projects := projects + [project];
      return Ok(project);
    }

    /** On success the project of that id has the validated input and the new time, in its old place. */
    method Update(rules: PathRules, id: Id, input: ProjectInput, now: int) returns (r: Result<Project, ProjectError>)
      modifies this
      ensures (Contents(), if r.Ok? then None else Some(r.error)) == After(rules, old(Contents()), Step.Update(id, input, now))
      ensures r.Ok? ==> r.value in projects && r.value.id == id
    {
      var valid := ValidateInput(input);
      if valid.Err? {
        return Err(valid.error);
      }
      var exclusive := AssertFolderExclusive(rules, valid.value.root, projects, Some(id));
      if exclusive.Err? {
        return Err(exclusive.error);
      }
      var at := PositionOf(projects, id);
      if at.None? {
        return Err(NotFound);
      }
      var project := projects[at.value];
      project := project.(name := valid.value.name);
      project := project.(colour := valid.value.colour);
      project := project.(root := valid.value.root);
      project := project.(updatedAt := now);
      projects := projects[at.value := project];
      assert projects[at.value] == project;
      return Ok(project);
    }

    /** The loop computes `Deduplicated(hidden)`. */
    method SetHidden(id: Id, hidden: seq<string>, now: int) returns (refused: Option<ProjectError>)
      modifies this
      ensures (Contents(), refused) == AfterSetHidden(old(Contents()), id, hidden, now)
    {
      var at := PositionOf(projects, id);
      if at.None? {
        return Some(NotFound);
      }
      var seen: seq<string> := [];
      for i := 0 to |hidden|
        invariant seen == Deduplicated(hidden[..i])
      {
        assert hidden[..i + 1][..i] == hidden[..i];
        if hidden[i] != "" && hidden[i] !in seen {
          seen := seen + [hidden[i]];
        }
      }
      assert hidden[..|hidden|] == hidden;
      projects := projects[at.value := projects[at.value].(hidden := seen, updatedAt := now)];
      return None;
    }

    /** Make a project the active one. */
    method SetActive(id: Id) returns (refused: Option<ProjectError>)
      modifies this
      ensures (Contents(), refused) == AfterSetActive(old(Contents()), id)
    {
      if PositionOf(projects, id).None? {
        return Some(NotFound);
      }
      active := Some(id);
      return None;
    }

    /** On success `r` is out of the book, and `active` names the first one left if it named `r`. */
    method Delete(id: Id) returns (r: Result<Project, ProjectError>)
      modifies this
      ensures (Contents(), if r.Ok? then None else Some(r.error)) == AfterDelete(old(Contents()), id)
      ensures r.Ok? ==> r.value in old(projects) && r.value.id == id
    {
      var at := PositionOf(projects, id);
      if at.None? {
        return Err(NotFound);
      }
      var removed := projects[at.value];
      projects := Without(projects, at.value);
      if active == Some(id) {
        active := if projects == [] then None else Some(projects[0].id);
      }
      return Ok(removed);
    }

    /** Taken out and put in again at `to`, or at the end if that is beyond it. */
    method Reorder(id: Id, to: nat) returns (refused: Option<ProjectError>)
      modifies this
      ensures (Contents(), refused) == AfterReorder(old(Contents()), id, to)
    {
      var from := PositionOf(projects, id);
      if from.None? {
        return Some(NotFound);
      }
      var project := projects[from.value];
      projects := Without(projects, from.value);
      projects := Inserted(projects, Least(to, |projects|), project);
      return None;
    }

    /** The loop stops at the first root the path is within. */
    method OwnerOf(rules: PathRules, path: string) returns (owner: Option<Project>)
      ensures owner == OwnerIn(rules, projects, path)
    {
      for i := 0 to |projects|
        invariant OwnerIn(rules, projects, path) == OwnerIn(rules, projects[i..], path)
      {
        assert projects[i..][1..] == projects[i + 1..];
        if IsWithin(rules, projects[i].root, path) {
          return Some(projects[i]);
        }
      }
      return None;
    }
  }
}
