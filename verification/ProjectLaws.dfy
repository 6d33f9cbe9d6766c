/**
 * What a user's projects rest on: in every book that can be reached no two roots overlap, so each
 * path has at most one owner whatever the display order, and some project is active exactly when
 * there is one.
 */
module ProjectLaws {
  import opened Outcome
  import opened Chars
  import opened Paths
  import opened PathLaws
  import opened Projects

  predicate DistinctIds(projects: seq<Project>) {
    forall i, j :: 0 <= i < j < |projects| ==> projects[i].id != projects[j].id
  }

  predicate NoOverlap(rules: PathRules, projects: seq<Project>) {
    forall i, j :: 0 <= i < |projects| && 0 <= j < |projects| && i != j ==>
      !Overlaps(rules, projects[i].root, projects[j].root)
  }

  predicate WellFormed(project: Project) {
    project.name != "" && |project.name| <= MAX_NAME_LENGTH && Trimmed(project.name) && IsAbsolute(project.root)
  }

  predicate ActiveIsOne(book: Book) {
    match book.active
    case None => book.projects == []
    case Some(id) => exists i :: 0 <= i < |book.projects| && book.projects[i].id == id
  }

  predicate Sound(rules: PathRules, book: Book) {
    DistinctIds(book.projects) && NoOverlap(rules, book.projects) && ActiveIsOne(book) && AllWellFormed(book.projects)
  }

  predicate AllWellFormed(projects: seq<Project>) {
    forall i :: 0 <= i < |projects| ==> WellFormed(projects[i])
  }

  lemma {:induction false} ValidIsWellFormed(input: ProjectInput, project: Project)
    requires ValidateInput(input).Ok?
    requires project.name == ValidateInput(input).value.name && project.root == ValidateInput(input).value.root
    ensures WellFormed(project)
  {
    TrimTrims(input.name);
  }

  lemma {:induction false} CreateKeeps(rules: PathRules, book: Book, step: Step)
    requires step.Create? && Sound(rules, book) && PositionOf(book.projects, step.newId).None?
    ensures Sound(rules, After(rules, book, step).0)
  {
    var next := After(rules, book, step).0;
    if next != book {
      var project := next.projects[|book.projects|];
      ValidIsWellFormed(step.input, project);
      AppendKeeps(rules, book, next, project);
    }
  }

  /** Appending a well-formed project with a new id, out of every other's way. */
  lemma {:induction false} AppendKeeps(rules: PathRules, book: Book, next: Book, project: Project)
    requires Sound(rules, book) && WellFormed(project) && PositionOf(book.projects, project.id).None?
    requires next.projects == book.projects + [project] && Exclusive(rules, project.root, book.projects, None)
    requires next.active == if book.active.None? then Some(project.id) else book.active
    ensures Sound(rules, next)
  {
    AppendNoOverlap(rules, book.projects, project);
    AppendedActive(book, next, project);
    AppendEach(book.projects, project);
  }

  lemma {:induction false} AppendEach(projects: seq<Project>, project: Project)
    requires DistinctIds(projects) && PositionOf(projects, project.id).None?
    requires AllWellFormed(projects) && WellFormed(project)
    ensures DistinctIds(projects + [project]) && AllWellFormed(projects + [project])
  {
  }

  lemma {:induction false} AppendNoOverlap(rules: PathRules, projects: seq<Project>, project: Project)
    requires NoOverlap(rules, projects) && Exclusive(rules, project.root, projects, None)
    ensures NoOverlap(rules, projects + [project])
  {
    var n, next := |projects|, projects + [project];
    forall i, j | 0 <= i <= n && 0 <= j <= n && i != j
      ensures !Overlaps(rules, next[i].root, next[j].root)
    {
      if i == n {
        assert !Conflicts(rules, project.root, projects[j], None);
      } else if j == n {
        assert !Conflicts(rules, project.root, projects[i], None);
      }
    }
  }

  lemma {:induction false} AppendedActive(book: Book, next: Book, project: Project)
    requires ActiveIsOne(book) && next.projects == book.projects + [project]
    requires next.active == if book.active.None? then Some(project.id) else book.active
    ensures ActiveIsOne(next)
  {
    var n := |book.projects|;
    if book.active.Some? {
      var k :| 0 <= k < n && book.projects[k].id == book.active.value;
      assert next.projects[k] == book.projects[k];
    } else {
      assert next.projects[n] == project;
    }
  }

  /** Replacing a project by one with the same id, well formed and out of the others' way. */
  lemma {:induction false} ReplaceKeeps(rules: PathRules, book: Book, i: nat, project: Project)
    requires Sound(rules, book) && i < |book.projects| && project.id == book.projects[i].id && WellFormed(project)
    requires forall j :: 0 <= j < |book.projects| && j != i ==> !Overlaps(rules, project.root, book.projects[j].root)
    ensures Sound(rules, book.(projects := book.projects[i := project]))
  {
    var next := book.(projects := book.projects[i := project]);
    assert forall j :: 0 <= j < |book.projects| ==> next.projects[j].id == book.projects[j].id;
  }

  lemma {:induction false} UpdateKeeps(rules: PathRules, book: Book, step: Step)
    requires step.Update? && Sound(rules, book)
    ensures Sound(rules, After(rules, book, step).0)
  {
    var next := After(rules, book, step).0;
    if next != book {
      var i := PositionOf(book.projects, step.id).value;
      var project := next.projects[i];
      ValidIsWellFormed(step.input, project);
      forall j | 0 <= j < |book.projects| && j != i
        ensures !Overlaps(rules, project.root, book.projects[j].root)
      {
        assert !Conflicts(rules, project.root, book.projects[j], Some(step.id));
      }
      ReplaceKeeps(rules, book, i, project);
    }
  }

  /** `next` holds some of the projects of `projects`, each at most once: its `k`th is their `source[k]`th. */
  predicate DrawnFrom(next: seq<Project>, projects: seq<Project>, source: seq<nat>) {
    |source| == |next| &&
    (forall k :: 0 <= k < |next| ==> source[k] < |projects| && next[k] == projects[source[k]]) &&
    (forall k, m :: 0 <= k < m < |next| ==> source[k] != source[m])
  }

  lemma {:induction false} DrawnKeeps(rules: PathRules, book: Book, next: Book, source: seq<nat>)
    requires Sound(rules, book) && DrawnFrom(next.projects, book.projects, source) && ActiveIsOne(next)
    ensures Sound(rules, next)
  {
    var n := |next.projects|;
    forall i, j | 0 <= i < n && 0 <= j < n && i != j
      ensures !Overlaps(rules, next.projects[i].root, next.projects[j].root)
      ensures next.projects[i].id != next.projects[j].id
    {
      assert source[i] != source[j];
    }
  }

  lemma {:induction false} WithoutAt<T>(s: seq<T>, i: nat, k: nat)
    requires i < |s| && k < |s| - 1
    ensures Without(s, i)[k] == s[if k < i then k else k + 1]
  {
  }

  function WithoutSource(n: nat, i: nat): (source: seq<nat>) {
    seq(n, k requires 0 <= k < n => if k < i then k else k + 1)
  }

  lemma {:induction false} WithoutIsDrawn(projects: seq<Project>, i: nat)
    requires i < |projects|
    ensures DrawnFrom(Without(projects, i), projects, WithoutSource(|projects| - 1, i))
  {
    forall k | 0 <= k < |projects| - 1
      ensures Without(projects, i)[k] == projects[WithoutSource(|projects| - 1, i)[k]]
    {
      WithoutAt(projects, i, k);
    }
  }

  /** Another project is still there once one is deleted. */
  lemma {:induction false} OthersStay(projects: seq<Project>, i: nat, k: nat)
    requires i < |projects| && k < |projects| && k != i
    ensures projects[k] in Without(projects, i)
  {
    var m := if k < i then k else k - 1;
    WithoutAt(projects, i, m);
    assert Without(projects, i)[m] == projects[k];
  }

  lemma {:induction false} ActiveAfterDelete(book: Book, next: Book, i: nat, id: Id)
    requires ActiveIsOne(book) && i < |book.projects| && book.projects[i].id == id
    requires next.projects == Without(book.projects, i)
    requires next.active == if book.active != Some(id) then book.active else if next.projects == [] then None else Some(next.projects[0].id)
    ensures ActiveIsOne(next)
  {
    if book.active.Some? && book.active != Some(id) {
      var k :| 0 <= k < |book.projects| && book.projects[k].id == book.active.value;
      OthersStay(book.projects, i, k);
    }
  }

  lemma {:induction false} DeleteKeeps(rules: PathRules, book: Book, step: Step)
    requires step.Delete? && Sound(rules, book)
    ensures Sound(rules, After(rules, book, step).0)
  {
    var at := PositionOf(book.projects, step.id);
    if at.Some? {
      var next := After(rules, book, step).0;
      ActiveAfterDelete(book, next, at.value, step.id);
      WithoutIsDrawn(book.projects, at.value);
      DrawnKeeps(rules, book, next, WithoutSource(|book.projects| - 1, at.value));
    }
  }

  /** Where position `k` of the reordered list comes from. */
  function Source(from: nat, to: nat, k: nat): nat {
    if k == to then from
    else
      var r := if k < to then k else k - 1;
      if r < from then r else r + 1
  }

  function MovedSource(n: nat, from: nat, to: nat): seq<nat> {
    seq(n, k requires 0 <= k < n => Source(from, to, k))
  }

  lemma {:induction false} MovedAt<T>(s: seq<T>, from: nat, to: nat, k: nat)
    requires from < |s| && to < |s| && k < |s|
    ensures Inserted(Without(s, from), to, s[from])[k] == s[Source(from, to, k)]
  {
    var rest := Without(s, from);
    if k < to {
      WithoutAt(s, from, k);
    } else if k > to {
      WithoutAt(s, from, k - 1);
    }
  }

  lemma {:induction false} MovedIsDrawn(projects: seq<Project>, from: nat, to: nat)
    requires from < |projects| && to < |projects|
    ensures DrawnFrom(Inserted(Without(projects, from), to, projects[from]), projects, MovedSource(|projects|, from, to))
  {
    forall k | 0 <= k < |projects|
      ensures Inserted(Without(projects, from), to, projects[from])[k] == projects[MovedSource(|projects|, from, to)[k]]
    {
      MovedAt(projects, from, to, k);
    }
  }

  lemma {:induction false} SamePieces<T>(s: seq<T>, i: nat)
    requires i <= |s|
    ensures multiset(s) == multiset(s[..i]) + multiset(s[i..])
  {
    assert s == s[..i] + s[i..];
  }

  lemma {:induction false} InsertedCounts<T>(s: seq<T>, i: nat, x: T)
    requires i <= |s|
    ensures multiset(Inserted(s, i, x)) == multiset(s) + multiset{x}
    ensures Inserted(s, i, x)[i] == x && Without(Inserted(s, i, x), i) == s
  {
    SamePieces(s, i);
  }

  lemma {:induction false} WithoutCounts<T>(s: seq<T>, i: nat)
    requires i < |s|
    ensures multiset(s) == multiset(Without(s, i)) + multiset{s[i]}
  {
    assert s == s[..i] + [s[i]] + s[i + 1..];
  }

  lemma {:induction false} MovedCounts<T>(s: seq<T>, from: nat, to: nat)
    requires from < |s| && to < |s|
    ensures var moved := Inserted(Without(s, from), to, s[from]);
      multiset(moved) == multiset(s) && moved[to] == s[from] && Without(moved, to) == Without(s, from)
  {
    WithoutCounts(s, from);
    InsertedCounts(Without(s, from), to, s[from]);
  }

  /** Reordering is a permutation: the moved project lands at the clamped place, nothing is lost or
      duplicated, and the others keep their order. */
  lemma {:induction false} ReorderPermutes(rules: PathRules, book: Book, id: Id, to: nat)
    requires PositionOf(book.projects, id).Some?
    ensures var next := After(rules, book, Reorder(id, to)).0;
      var (from, at) := (PositionOf(book.projects, id).value, Least(to, |book.projects| - 1));
      multiset(next.projects) == multiset(book.projects) && next.active == book.active &&
      next.projects[at].id == id && Without(next.projects, at) == Without(book.projects, from)
  {
    MovedCounts(book.projects, PositionOf(book.projects, id).value, Least(to, |book.projects| - 1));
  }

  lemma {:induction false} ActiveSurvives(book: Book, next: Book)
    requires ActiveIsOne(book) && multiset(book.projects) == multiset(next.projects) && next.active == book.active
    ensures ActiveIsOne(next)
  {
    if book.active.Some? {
      var k :| 0 <= k < |book.projects| && book.projects[k].id == book.active.value;
      assert book.projects[k] in multiset(next.projects);
    } else {
      assert |multiset(next.projects)| == 0;
    }
  }

  lemma {:induction false} ReorderKeeps(rules: PathRules, book: Book, step: Step)
    requires step.Reorder? && Sound(rules, book)
    ensures Sound(rules, After(rules, book, step).0)
  {
    var at := PositionOf(book.projects, step.id);
    if at.Some? {
      var next := After(rules, book, step).0;
      var to := Least(step.to, |book.projects| - 1);
      ReorderPermutes(rules, book, step.id, step.to);
      ActiveSurvives(book, next);
      MovedIsDrawn(book.projects, at.value, to);
      DrawnKeeps(rules, book, next, MovedSource(|book.projects|, at.value, to));
    }
  }

  /** What every operation keeps. */
  lemma {:induction false} StepKeepsSound(rules: PathRules, book: Book, step: Step)
    requires Sound(rules, book)
    requires step.Create? ==> PositionOf(book.projects, step.newId).None?
    ensures Sound(rules, After(rules, book, step).0)
  {
    match step
    case Create(_, _, _) => CreateKeeps(rules, book, step);
    case Update(_, _, _) => UpdateKeeps(rules, book, step);
    case SetHidden(id, hidden, now) =>
      if PositionOf(book.projects, id).Some? {
        var i := PositionOf(book.projects, id).value;
        ReplaceKeeps(rules, book, i, After(rules, book, step).0.projects[i]);
      }
    case SetActive(id) =>
    case Delete(_) => DeleteKeeps(rules, book, step);
    case Reorder(_, _) => ReorderKeeps(rules, book, step);
  }

  /** A run from the empty book in which every new project gets an id not in use. */
  ghost predicate Reached(rules: PathRules, book: Book, steps: seq<Step>)
    decreases |steps|, 1
  {
    if steps == [] then book == EMPTY
    else exists before: Book :: ReachedThrough(rules, before, book, steps)
  }

  ghost predicate ReachedThrough(rules: PathRules, before: Book, book: Book, steps: seq<Step>)
    requires steps != []
    decreases |steps|, 0
  {
    Reached(rules, before, steps[..|steps| - 1]) && Leads(rules, before, steps[|steps| - 1], book)
  }

  predicate Leads(rules: PathRules, before: Book, step: Step, book: Book) {
    After(rules, before, step).0 == book && (step.Create? ==> PositionOf(before.projects, step.newId).None?)
  }

  /** Every book reachable from empty, by any steps, refused ones included. */
  lemma {:induction false} EveryBookIsSound(rules: PathRules, book: Book, steps: seq<Step>)
    requires Reached(rules, book, steps)
    ensures Sound(rules, book)
    decreases |steps|
  {
    if steps != [] {
      var init, last := steps[..|steps| - 1], steps[|steps| - 1];
      var before :| ReachedThrough(rules, before, book, steps);
      EveryBookIsSound(rules, before, init);
      StepKeepsSound(rules, before, last);
    }
  }

  /** A refused step changes nothing. */
  lemma {:induction false} RefusalChangesNothing(rules: PathRules, book: Book, step: Step)
    ensures After(rules, book, step).1.Some? ==> After(rules, book, step).0 == book
  {
  }

  // ---------- ownership ----------

  /** At most one project owns a path. */
  lemma {:induction false} AtMostOneOwner(rules: PathRules, book: Book, path: string, i: nat, j: nat)
    requires Sound(rules, book) && i < |book.projects| && j < |book.projects|
    requires IsWithin(rules, book.projects[i].root, path) && IsWithin(rules, book.projects[j].root, path)
    ensures i == j
  {
    if i != j {
      WithinIsOrder(rules, book.projects[i].root, book.projects[j].root, path);
    }
  }

  /** So the owner is the project that contains the path, wherever it stands in the order. */
  lemma {:induction false} OwnerIsWhoContains(rules: PathRules, book: Book, path: string, i: nat)
    requires Sound(rules, book) && i < |book.projects|
    ensures OwnerIn(rules, book.projects, path) == Some(book.projects[i]) <==> IsWithin(rules, book.projects[i].root, path)
  {
    var owner := OwnerIn(rules, book.projects, path);
    if IsWithin(rules, book.projects[i].root, path) {
      var j :| 0 <= j < |book.projects| && book.projects[j] == owner.value;
      AtMostOneOwner(rules, book, path, i, j);
    }
  }

  /** Two books with the same projects in whatever order agree on every owner. */
  lemma {:induction false} OwnerIgnoresOrder(rules: PathRules, a: Book, b: Book, path: string)
    requires Sound(rules, a) && Sound(rules, b) && multiset(a.projects) == multiset(b.projects)
    ensures OwnerIn(rules, a.projects, path) == OwnerIn(rules, b.projects, path)
  {
    if OwnerIn(rules, a.projects, path).Some? {
      OwnerCarries(rules, a, b, path);
    } else if OwnerIn(rules, b.projects, path).Some? {
      OwnerCarries(rules, b, a, path);
    }
  }

  lemma {:induction false} OwnerCarries(rules: PathRules, a: Book, b: Book, path: string)
    requires Sound(rules, b) && multiset(a.projects) == multiset(b.projects)
    requires OwnerIn(rules, a.projects, path).Some?
    ensures OwnerIn(rules, a.projects, path) == OwnerIn(rules, b.projects, path)
  {
    var p := OwnerIn(rules, a.projects, path).value;
    assert p in multiset(a.projects);
    assert p in b.projects;
    var i :| 0 <= i < |b.projects| && b.projects[i] == p;
    OwnerIsWhoContains(rules, b, path, i);
  }

  lemma {:induction false} OwnerOfOneMore(rules: PathRules, projects: seq<Project>, last: Project, path: string)
    ensures OwnerIn(rules, projects + [last], path) ==
      if OwnerIn(rules, projects, path).Some? then OwnerIn(rules, projects, path)
      else if IsWithin(rules, last.root, path) then Some(last) else None
  {
    if projects == [] {
      assert [] + [last] == [last];
    } else {
      assert (projects + [last])[1..] == projects[1..] + [last];
      OwnerOfOneMore(rules, projects[1..], last, path);
    }
  }

  /** A new project takes no path from anyone: it owns exactly what its root contains, nobody owned
      any of that, and every other path keeps the owner it had. */
  lemma {:induction false} CreateTakesNothing(rules: PathRules, book: Book, step: Step, path: string)
    requires step.Create? && Sound(rules, book) && PositionOf(book.projects, step.newId).None?
    requires After(rules, book, step).1.None?
    ensures var next, created := After(rules, book, step).0.projects, After(rules, book, step).0.projects[|book.projects|];
      if IsWithin(rules, created.root, path) then
        OwnerIn(rules, next, path) == Some(created) && OwnerIn(rules, book.projects, path).None?
      else OwnerIn(rules, next, path) == OwnerIn(rules, book.projects, path)
  {
    var next := After(rules, book, step).0;
    var n := |book.projects|;
    var created := next.projects[n];
    CreateKeeps(rules, book, step);
    assert next.projects == book.projects + [created];
    OwnerOfOneMore(rules, book.projects, created, path);
    var owner := OwnerIn(rules, book.projects, path);
    if owner.Some? && IsWithin(rules, created.root, path) {
      var i :| 0 <= i < n && book.projects[i] == owner.value;
      AtMostOneOwner(rules, next, path, i, n);
    }
  }

  /** A root names a folder alike however it is spelled: what overlaps one spelling overlaps the other. */
  lemma {:induction false} SameOverlaps(rules: PathRules, a: string, b: string, c: string)
    requires Same(rules, a, b)
    ensures Overlaps(rules, a, c) == Overlaps(rules, b, c)
  {
  }

  /** While a project has a folder no other can be created on it, under any spelling; once that
      project is deleted, one can. */
  lemma {:induction false} OneProjectPerFolder(rules: PathRules, book: Book, i: nat, input: ProjectInput)
    requires Sound(rules, book) && i < |book.projects|
    requires ValidateInput(input).Ok? && Same(rules, ValidateInput(input).value.root, book.projects[i].root)
    ensures forall id, now :: After(rules, book, Create(input, id, now)).1.Some?
    ensures Exclusive(rules, ValidateInput(input).value.root, Without(book.projects, i), None)
    ensures PositionOf(book.projects, book.projects[i].id) == Some(i)
  {
    var root := ValidateInput(input).value.root;
    TakenFolder(rules, root, book.projects[i]);
    FreedFolder(rules, root, book.projects, i);
  }

  lemma {:induction false} TakenFolder(rules: PathRules, root: string, project: Project)
    requires WellFormed(project) && Same(rules, root, project.root)
    ensures Conflicts(rules, root, project, None)
  {
    AbsoluteHasKey(rules, project.root);
    WithinIsOrder(rules, project.root, project.root, project.root);
    SameOverlaps(rules, root, project.root, project.root);
  }

  lemma {:induction false} FreedFolder(rules: PathRules, root: string, projects: seq<Project>, i: nat)
    requires NoOverlap(rules, projects) && i < |projects| && Same(rules, root, projects[i].root)
    ensures Exclusive(rules, root, Without(projects, i), None)
  {
    var left := Without(projects, i);
    forall k | 0 <= k < |left|
      ensures !Conflicts(rules, root, left[k], None)
    {
      WithoutAt(projects, i, k);
      SameOverlaps(rules, root, projects[i].root, left[k].root);
    }
  }

  lemma {:induction false} AbsoluteHasKey(rules: PathRules, path: string)
    requires IsAbsolute(path)
    ensures KeyOf(rules, path) != ""
  {
    assert Unify(rules.windowsNames, path)[0] == '/';
  }

  /** An update is refused for another project's folder and never for the project's own. */
  lemma {:induction false} UpdateSucceeds(rules: PathRules, book: Book, id: Id, input: ProjectInput, now: int)
    ensures After(rules, book, Update(id, input, now)).1.None? <==>
      ValidateInput(input).Ok? && PositionOf(book.projects, id).Some? &&
      forall i :: 0 <= i < |book.projects| && book.projects[i].id != id ==>
        !Overlaps(rules, ValidateInput(input).value.root, book.projects[i].root)
  {
    if ValidateInput(input).Ok? {
      var root := ValidateInput(input).value.root;
      if FolderExclusive(rules, root, book.projects, Some(id)).Ok? {
        forall i | 0 <= i < |book.projects| && book.projects[i].id != id
          ensures !Overlaps(rules, root, book.projects[i].root)
        {
          assert !Conflicts(rules, root, book.projects[i], Some(id));
        }
      }
    }
  }

  // ---------- hidden paths ----------

  /** Hidden paths are kept once each and in their first order: a path is kept exactly when it is given
      and not empty, and setting what was kept changes nothing. */
  lemma {:induction false} HiddenAreDistinct(paths: seq<string>)
    ensures forall p :: p in Deduplicated(paths) <==> p in paths && p != ""
    ensures forall i, j :: 0 <= i < j < |Deduplicated(paths)| ==> Deduplicated(paths)[i] != Deduplicated(paths)[j]
    ensures Deduplicated(Deduplicated(paths)) == Deduplicated(paths)
  {
    if paths != [] {
      var init, last := paths[..|paths| - 1], paths[|paths| - 1];
      HiddenAreDistinct(init);
      assert paths == init + [last];
      var kept := Deduplicated(init);
      if last != "" && last !in kept {
        assert (kept + [last])[..|kept|] == kept;
      }
    }
  }
}
