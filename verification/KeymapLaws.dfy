/** What key bindings promise: files round-trip, and a chord runs one command where it is live. */
module KeymapLaws {
  import opened Outcome
  import opened Chords
  import opened Keymaps

  // ---------- the table ----------

  lemma {:induction false} FoundById(table: seq<Command>, i: nat)
    requires DistinctIds(table) && i < |table|
    ensures CommandOf(table, table[i].id) == Some(table[i])
  {
    var r := CommandOf(table, table[i].id);
    var j :| 0 <= j < |table| && table[j] == r.value;
  }

  // ---------- the file ----------

  predicate Distinct(chords: seq<Chord>) {
    forall i, j :: 0 <= i < j < |chords| ==> chords[i] != chords[j]
  }

  /** A list a file can hold for a command: no chord twice, none refused, each one that parsing makes. */
  predicate Storable(command: Command, mac: bool, chords: seq<Chord>) {
    Distinct(chords) && forall i :: 0 <= i < |chords| ==> IsToken(chords[i].key) && !Refused(command, mac, chords[i])
  }

  lemma {:induction false} AddKeepsStorable(command: Command, mac: bool, chords: seq<Chord>, c: Chord)
    requires Storable(command, mac, chords) && c !in chords && IsToken(c.key) && !Refused(command, mac, c)
    ensures Storable(command, mac, chords + [c])
  {
  }

  lemma {:induction false} TokenIsRead(command: Command, mac: bool, tokens: seq<Json>, token: Json)
    ensures var before, chord := ReadTokens(command, mac, tokens), TokenOf(token);
      ReadTokens(command, mac, tokens + [token]) ==
      if chord.None? || chord.value in before || Refused(command, mac, chord.value) then before else before + [chord.value]
  {
    assert (tokens + [token])[..|tokens|] == tokens;
  }

  /** Whatever a file holds, what is read from it is storable: no file binds a refused chord. */
  lemma {:induction false} ReadIsStorable(command: Command, mac: bool, tokens: seq<Json>)
    ensures Storable(command, mac, ReadTokens(command, mac, tokens))
  {
    if tokens != [] {
      var init, last := tokens[..|tokens| - 1], tokens[|tokens| - 1];
      ReadIsStorable(command, mac, init);
      assert tokens == init + [last];
      OneMoreIsStorable(command, mac, init, last);
    }
  }

  lemma {:induction false} OneMoreIsStorable(command: Command, mac: bool, tokens: seq<Json>, token: Json)
    requires Storable(command, mac, ReadTokens(command, mac, tokens))
    ensures Storable(command, mac, ReadTokens(command, mac, tokens + [token]))
  {
    var before, chord := ReadTokens(command, mac, tokens), TokenOf(token);
    TokenIsRead(command, mac, tokens, token);
    if chord.Some? && chord.value !in before && !Refused(command, mac, chord.value) {
      ParsedIsToken(token.s);
      AddKeepsStorable(command, mac, before, chord.value);
    }
  }

  lemma {:induction false} StorableIsRead(command: Command, mac: bool, chords: seq<Chord>)
    requires Storable(command, mac, chords)
    ensures ReadTokens(command, mac, PrintAll(chords)) == chords
  {
    if chords != [] {
      var init, last := chords[..|chords| - 1], chords[|chords| - 1];
      LastOfStorable(command, mac, chords);
      StorableIsRead(command, mac, init);
      OneMoreIsRead(command, mac, init, last);
      assert chords == init + [last];
    }
  }

  lemma {:induction false} OneMoreIsRead(command: Command, mac: bool, init: seq<Chord>, last: Chord)
    requires ReadTokens(command, mac, PrintAll(init)) == init
    requires last !in init && IsToken(last.key) && !Refused(command, mac, last)
    ensures ReadTokens(command, mac, PrintAll(init + [last])) == init + [last]
  {
    PrintedParsesBack(last);
    PrintOneMore(init, last);
    TokenIsRead(command, mac, PrintAll(init), String(Print(last)));
  }

  lemma {:induction false} PrintOneMore(init: seq<Chord>, last: Chord)
    ensures PrintAll(init + [last]) == PrintAll(init) + [String(Print(last))]
  {
  }

  lemma {:induction false} LastOfStorable(command: Command, mac: bool, chords: seq<Chord>)
    requires Storable(command, mac, chords) && chords != []
    ensures var init, last := chords[..|chords| - 1], chords[|chords| - 1];
      Storable(command, mac, init) && last !in init && IsToken(last.key) && !Refused(command, mac, last)
  {
  }

  /** Exactly the storable lists come back. */
  lemma {:induction false} ReadsBackExactly(command: Command, mac: bool, chords: seq<Chord>)
    ensures ReadTokens(command, mac, PrintAll(chords)) == chords <==> Storable(command, mac, chords)
  {
    ReadIsStorable(command, mac, PrintAll(chords));
    if Storable(command, mac, chords) {
      StorableIsRead(command, mac, chords);
    }
  }

  lemma {:induction false} InitIsDistinct(table: seq<Command>)
    requires DistinctIds(table) && table != []
    ensures DistinctIds(table[..|table| - 1])
    ensures forall i :: 0 <= i < |table| - 1 ==> table[i].id != table[|table| - 1].id
  {
  }

  /** What the written `bindings` hold for a command. */
  lemma {:induction false} WrittenCommand(table: seq<Command>, b: Bindings, listed: map<string, Json>, i: nat)
    requires DistinctIds(table) && i < |table|
    ensures var (c, w) := (table[i], WrittenOver(table, b, listed));
      if ChordsOf(b, c.id) == c.defaults then c.id !in w else c.id in w && w[c.id] == Array(PrintAll(ChordsOf(b, c.id)))
  {
    InitIsDistinct(table);
    if i < |table| - 1 {
      WrittenCommand(table[..|table| - 1], b, listed, i);
    }
  }

  /** And for everything else: what the file held. */
  lemma {:induction false} WrittenElsewhere(table: seq<Command>, b: Bindings, listed: map<string, Json>, id: string)
    requires forall i :: 0 <= i < |table| ==> table[i].id != id
    ensures id in WrittenOver(table, b, listed) <==> id in listed
    ensures id in listed ==> WrittenOver(table, b, listed)[id] == listed[id]
  {
    if table != [] {
      WrittenElsewhere(table[..|table| - 1], b, listed, id);
    }
  }

  lemma {:induction false} EqualOnTable(table: seq<Command>, a: Bindings, b: Bindings)
    requires a.Keys == Ids(table) && b.Keys == Ids(table)
    ensures forall i :: 0 <= i < |table| ==> table[i].id in Ids(table)
    ensures a == b <==> forall i :: 0 <= i < |table| ==> a[table[i].id] == b[table[i].id]
  {
    assert forall i :: 0 <= i < |table| ==> table[i] in table;
    forall id | id in a && a[id] != b[id]
      ensures exists i :: 0 <= i < |table| && a[table[i].id] != b[table[i].id]
    {
      var c :| c in table && c.id == id;
      var i :| 0 <= i < |table| && table[i] == c;
      assert a[table[i].id] != b[table[i].id];
    }
  }

  predicate AtDefaultOrStorable(command: Command, mac: bool, chords: seq<Chord>) {
    chords == command.defaults || Storable(command, mac, chords)
  }

  /** A keymap written over any file reads back as itself exactly when every list that is not the
      default is storable. */
  lemma {:induction false} WriteThenParse(table: seq<Command>, mac: bool, b: Bindings, existing: Option<Json>)
    requires DistinctIds(table) && b.Keys == Ids(table)
    ensures Parsed(table, mac, Some(Written(table, b, existing))) == b <==>
      forall i :: 0 <= i < |table| ==> AtDefaultOrStorable(table[i], mac, ChordsOf(b, table[i].id))
  {
    var again := Parsed(table, mac, Some(Written(table, b, existing)));
    EqualOnTable(table, again, b);
    forall i | 0 <= i < |table|
      ensures again[table[i].id] == b[table[i].id] <==> AtDefaultOrStorable(table[i], mac, ChordsOf(b, table[i].id))
    {
      OneCommandReadBack(table, mac, b, existing, i);
    }
  }

  lemma {:induction false} OneCommandReadBack(table: seq<Command>, mac: bool, b: Bindings, existing: Option<Json>, i: nat)
    requires DistinctIds(table) && b.Keys == Ids(table) && i < |table|
    ensures var again := Parsed(table, mac, Some(Written(table, b, existing)));
      table[i].id in again && table[i].id in b &&
      (again[table[i].id] == b[table[i].id] <==> AtDefaultOrStorable(table[i], mac, ChordsOf(b, table[i].id)))
  {
    var c, file := table[i], Written(table, b, existing);
    assert c.id in Ids(table);
    FoundById(table, i);
    var w := WrittenOver(table, b, BindingsIn(existing));
    assert BindingsIn(Some(file)) == w;
    WrittenCommand(table, b, BindingsIn(existing), i);
    ReadsBackExactly(c, mac, b[c.id]);
  }

  /** Fields besides the bindings are untouched, and so are bindings of ids that the table does not have. */
  lemma {:induction false} WritingKeepsTheRest(table: seq<Command>, b: Bindings, existing: Option<Json>, name: string)
    ensures var fields := Written(table, b, existing).fields;
      (name in FieldsOf(existing) && name != "bindings" ==> name in fields && fields[name] == FieldsOf(existing)[name]) &&
      "version" in fields &&
      (name in BindingsIn(existing) && name !in Ids(table) ==>
        name in BindingsIn(Some(Written(table, b, existing))) &&
        BindingsIn(Some(Written(table, b, existing)))[name] == BindingsIn(existing)[name])
  {
    if name !in Ids(table) {
      forall i | 0 <= i < |table|
        ensures table[i].id != name
      {
        assert table[i] in table;
      }
      WrittenElsewhere(table, b, BindingsIn(existing), name);
    }
  }

  /** Writing what was read from a file and reading it again changes nothing. */
  lemma {:induction false} ParsedWritesBack(table: seq<Command>, mac: bool, file: Option<Json>, existing: Option<Json>)
    requires DistinctIds(table)
    ensures Parsed(table, mac, Some(Written(table, Parsed(table, mac, file), existing))) == Parsed(table, mac, file)
  {
    var b := Parsed(table, mac, file);
    WriteThenParse(table, mac, b, existing);
    forall i | 0 <= i < |table|
      ensures AtDefaultOrStorable(table[i], mac, ChordsOf(b, table[i].id))
    {
      var c := table[i];
      assert c.id in Ids(table);
      FoundById(table, i);
      if c.id in BindingsIn(file) && BindingsIn(file)[c.id].Array? {
        ReadIsStorable(c, mac, BindingsIn(file)[c.id].items);
      }
    }
  }

  // ---------- what a chord runs ----------

  /** No chord runs two commands that are live in a common scope. */
  ghost predicate Unambiguous(table: seq<Command>, b: Bindings) {
    forall i, j, c :: 0 <= i < |table| && 0 <= j < |table| && Rivals(table[i], table[j]) ==>
      !(c in ChordsOf(b, table[i].id) && c in ChordsOf(b, table[j].id))
  }

  lemma {:induction false} LookupFinds(table: seq<Command>, b: Bindings, c: Chord, scope: Scope)
    ensures LookupIn(table, b, c, scope).None? ==> forall i :: 0 <= i < |table| ==> !Runs(table[i], b, c, scope)
    ensures LookupIn(table, b, c, scope).Some? ==>
      exists i :: 0 <= i < |table| && table[i].id == LookupIn(table, b, c, scope).value && Runs(table[i], b, c, scope)
  {
    if table != [] && !Runs(table[0], b, c, scope) {
      LookupFinds(table[1..], b, c, scope);
      if LookupIn(table, b, c, scope).Some? {
        var i :| 0 <= i < |table[1..]| && table[1..][i].id == LookupIn(table, b, c, scope).value && Runs(table[1..][i], b, c, scope);
        assert table[i + 1] == table[1..][i];
      } else {
        assert forall i :: 1 <= i < |table| ==> table[i] == table[1..][i - 1];
      }
    }
  }

  lemma {:induction false} OneRuns(table: seq<Command>, b: Bindings, c: Chord, scope: Scope, i: nat, j: nat)
    requires DistinctIds(table) && Unambiguous(table, b) && i < |table| && j < |table| && Runs(table[j], b, c, scope)
    ensures Runs(table[i], b, c, scope) ==> i == j
  {
    assert scope in table[i].scopes ==> scope in table[j].scopes * table[i].scopes;
    assert Rivals(table[i], table[j]) ==> c !in ChordsOf(b, table[i].id);
  }

  /** Where no chord is ambiguous, a lookup finds a command exactly when that command is live there and
      has the chord: the order of the table plays no part. */
  lemma {:induction false} LookupIsUnique(table: seq<Command>, b: Bindings, c: Chord, scope: Scope, i: nat)
    requires DistinctIds(table) && Unambiguous(table, b) && i < |table|
    ensures LookupIn(table, b, c, scope) == Some(table[i].id) <==> Runs(table[i], b, c, scope)
  {
    LookupFinds(table, b, c, scope);
    if LookupIn(table, b, c, scope).Some? {
      var j :| 0 <= j < |table| && table[j].id == LookupIn(table, b, c, scope).value && Runs(table[j], b, c, scope);
      OneRuns(table, b, c, scope, i, j);
    }
  }

  // ---------- binding ----------

  lemma {:induction false} RemoveTakes(chords: seq<Chord>, c: Chord, d: Chord)
    ensures d in Remove(chords, c) <==> d in chords && d != c
  {
    if chords != [] {
      RemoveTakes(chords[..|chords| - 1], c, d);
      assert chords == chords[..|chords| - 1] + [chords[|chords| - 1]];
    }
  }

  lemma {:induction false} StrippedChords(b: Bindings, ids: seq<string>, c: Chord, id: string, d: Chord)
    ensures d in ChordsOf(Stripped(b, ids, c), id) <==> d in ChordsOf(b, id) && !(d == c && id in ids)
  {
    if ids != [] {
      var init, last := ids[..|ids| - 1], ids[|ids| - 1];
      StrippedChords(b, init, c, id, d);
      assert ids == init + [last];
      RemoveTakes(ChordsOf(Stripped(b, init, c), id), c, d);
    }
  }

  lemma {:induction false} ConflictsAre(table: seq<Command>, b: Bindings, mine: Command, c: Chord, id: string)
    ensures id in ConflictsIn(table, b, mine, c) <==>
      exists i :: 0 <= i < |table| && table[i].id == id && Rivals(mine, table[i]) && c in ChordsOf(b, id)
  {
    if table != [] {
      var init, last := table[..|table| - 1], table[|table| - 1];
      ConflictsAre(init, b, mine, c, id);
      assert forall i :: 0 <= i < |init| ==> init[i] == table[i];
      if last.id == id && Rivals(mine, last) && c in ChordsOf(b, id) {
        assert table[|table| - 1].id == id;
      }
    }
  }

  /** What binding leaves each command with: the command itself gains the chord, its rivals lose it,
      and nothing else changes. */
  lemma {:induction false} BoundChords(table: seq<Command>, b: Bindings, m: nat, c: Chord, k: nat, d: Chord)
    requires DistinctIds(table) && m < |table| && k < |table|
    ensures d in ChordsOf(Bound(table, b, table[m].id, c), table[k].id) <==>
      if d != c then d in ChordsOf(b, table[k].id)
      else k == m || (c in ChordsOf(b, table[k].id) && !Rivals(table[m], table[k]))
  {
    var mine, id := table[m], table[k].id;
    FoundById(table, m);
    var ids := ConflictsIn(table, b, mine, c);
    StrippedChords(b, ids, c, id, d);
    ConflictsAre(table, b, mine, c, id);
    if k != m && id in ids {
      var i :| 0 <= i < |table| && table[i].id == id && Rivals(mine, table[i]) && c in ChordsOf(b, id);
      assert i == k;
    }
  }

  /** After binding, the chord runs that command wherever it is live, whatever it ran before. */
  lemma {:induction false} BindThenLookup(table: seq<Command>, b: Bindings, m: nat, c: Chord, scope: Scope)
    requires DistinctIds(table) && m < |table| && scope in table[m].scopes
    ensures LookupIn(table, Bound(table, b, table[m].id, c), c, scope) == Some(table[m].id)
  {
    var after := Bound(table, b, table[m].id, c);
    BoundChords(table, b, m, c, m, c);
    LookupFinds(table, after, c, scope);
    assert Runs(table[m], after, c, scope);
    var j :| 0 <= j < |table| && table[j].id == LookupIn(table, after, c, scope).value && Runs(table[j], after, c, scope);
    BoundChords(table, b, m, c, j, c);
    assert scope in table[j].scopes * table[m].scopes;
  }

  lemma {:induction false} SameLookup(table: seq<Command>, a: Bindings, b: Bindings, c: Chord, scope: Scope)
    requires forall i :: 0 <= i < |table| ==> Runs(table[i], a, c, scope) == Runs(table[i], b, c, scope)
    ensures LookupIn(table, a, c, scope) == LookupIn(table, b, c, scope)
  {
    if table != [] {
      assert forall i :: 0 <= i < |table| - 1 ==> table[1..][i] == table[i + 1];
      assert Runs(table[0], a, c, scope) == Runs(table[0], b, c, scope);
      SameLookup(table[1..], a, b, c, scope);
    }
  }

  /** Every other chord still runs what it ran, everywhere. */
  lemma {:induction false} BindLeavesOtherChords(table: seq<Command>, b: Bindings, m: nat, c: Chord, d: Chord, scope: Scope)
    requires DistinctIds(table) && m < |table| && d != c
    ensures LookupIn(table, Bound(table, b, table[m].id, c), d, scope) == LookupIn(table, b, d, scope)
  {
    var after := Bound(table, b, table[m].id, c);
    forall i | 0 <= i < |table|
      ensures Runs(table[i], after, d, scope) == Runs(table[i], b, d, scope)
    {
      BoundChords(table, b, m, c, i, d);
    }
    SameLookup(table, after, b, d, scope);
  }

  /** One command for each chord and scope is what binding keeps, */
  lemma {:induction false} BindKeepsUnambiguous(table: seq<Command>, b: Bindings, id: string, c: Chord)
    requires DistinctIds(table) && Unambiguous(table, b)
    ensures Unambiguous(table, Bound(table, b, id, c))
  {
    var after := Bound(table, b, id, c);
    if CommandOf(table, id).Some? {
      var m :| 0 <= m < |table| && table[m] == CommandOf(table, id).value;
      forall i, j, d | 0 <= i < |table| && 0 <= j < |table| && Rivals(table[i], table[j])
        ensures !(d in ChordsOf(after, table[i].id) && d in ChordsOf(after, table[j].id))
      {
        BoundChords(table, b, m, c, i, d);
        BoundChords(table, b, m, c, j, d);
      }
    }
  }

  /** and unbinding; and the unbound chord runs nothing where its command is live. */
  lemma {:induction false} UnbindKeepsUnambiguous(table: seq<Command>, b: Bindings, m: nat, c: Chord, scope: Scope)
    requires DistinctIds(table) && Unambiguous(table, b) && m < |table|
    ensures Unambiguous(table, Unbound(b, table[m].id, c))
    ensures Runs(table[m], b, c, scope) ==> LookupIn(table, Unbound(b, table[m].id, c), c, scope) == None
  {
    var after := Unbound(b, table[m].id, c);
    forall i, d | 0 <= i < |table|
      ensures d in ChordsOf(after, table[i].id) <==> d in ChordsOf(b, table[i].id) && !(i == m && d == c)
    {
      RemoveTakes(ChordsOf(b, table[i].id), c, d);
    }
    LookupFinds(table, after, c, scope);
    if Runs(table[m], b, c, scope) {
      forall j | 0 <= j < |table|
        ensures !Runs(table[j], after, c, scope)
      {
        OneRuns(table, b, c, scope, j, m);
      }
    }
  }

  /** Resetting keeps it exactly when no rival has one of the command's defaults. */
  lemma {:induction false} ResetKeepsUnambiguous(table: seq<Command>, b: Bindings, m: nat)
    requires DistinctIds(table) && Unambiguous(table, b) && m < |table|
    ensures Unambiguous(table, WithDefaults(table, b, table[m].id)) <==>
      forall c :: c in table[m].defaults ==> ConflictsIn(table, b, table[m], c) == []
  {
    var after := WithDefaults(table, b, table[m].id);
    FoundById(table, m);
    forall c | c in table[m].defaults
      ensures ConflictsIn(table, b, table[m], c) == [] <==>
        forall j :: 0 <= j < |table| && Rivals(table[m], table[j]) ==> c !in ChordsOf(b, table[j].id)
    {
      var ids := ConflictsIn(table, b, table[m], c);
      if ids != [] {
        ConflictsAre(table, b, table[m], c, ids[0]);
      }
      forall j | 0 <= j < |table| && Rivals(table[m], table[j]) && c in ChordsOf(b, table[j].id)
        ensures ids != []
      {
        ConflictsAre(table, b, table[m], c, table[j].id);
      }
    }
    assert forall i :: 0 <= i < |table| && i != m ==> ChordsOf(after, table[i].id) == ChordsOf(b, table[i].id);
    if Unambiguous(table, after) {
      forall c, j | c in table[m].defaults && 0 <= j < |table| && Rivals(table[m], table[j])
        ensures c !in ChordsOf(b, table[j].id)
      {
        assert c in ChordsOf(after, table[m].id);
      }
    }
  }

  /** So resetting alone need not keep it: the rival that took a default still has it. */
  lemma {:induction false} ResetCanClash()
    ensures var f2, f3 := Chord(false, false, false, "F2"), Chord(false, false, false, "F3");
      var table := [Command("a", {Editor}, [f2]), Command("b", {Editor}, [f3])];
      var taken := Bound(table, Defaults(table), "b", f2);
      Unambiguous(table, Defaults(table)) && Unambiguous(table, taken) &&
      !Unambiguous(table, WithDefaults(table, taken, "a"))
  {
    var f2, f3 := Chord(false, false, false, "F2"), Chord(false, false, false, "F3");
    var a, b := Command("a", {Editor}, [f2]), Command("b", {Editor}, [f3]);
    var table := [a, b];
    assert f2 != f3 by { assert f2.key[1] != f3.key[1]; }
    assert a.id != b.id by { assert a.id[0] != b.id[0]; }
    FoundById(table, 0);
    FoundById(table, 1);
    assert table[0] in table && table[1] in table;
    var defaults := Defaults(table);
    assert ChordsOf(defaults, "a") == [f2] && ChordsOf(defaults, "b") == [f3];
    assert Unambiguous(table, defaults);
    BindKeepsUnambiguous(table, defaults, "b", f2);
    var taken := Bound(table, defaults, "b", f2);
    BoundChords(table, defaults, 1, f2, 1, f2);
    var reset := WithDefaults(table, taken, "a");
    assert f2 in ChordsOf(reset, table[0].id) && f2 in ChordsOf(reset, table[1].id);
    assert Editor in table[1].scopes * table[0].scopes;
    assert Rivals(table[0], table[1]);
  }

  // ---------- what the user sets is kept ----------

  /** Every command has a list that a file can hold, or its defaults. */
  ghost predicate AllStorable(table: seq<Command>, mac: bool, b: Bindings) {
    b.Keys == Ids(table) && forall i :: 0 <= i < |table| ==> Storable(table[i], mac, ChordsOf(b, table[i].id))
  }

  lemma {:induction false} RemoveKeepsStorable(command: Command, mac: bool, chords: seq<Chord>, c: Chord)
    requires Storable(command, mac, chords)
    ensures Storable(command, mac, Remove(chords, c))
  {
    if chords != [] {
      var init, last := chords[..|chords| - 1], chords[|chords| - 1];
      LastOfStorable(command, mac, chords);
      RemoveKeepsStorable(command, mac, init, c);
      RemoveTakes(init, c, last);
      if last != c {
        AddKeepsStorable(command, mac, Remove(init, c), last);
      }
    }
  }

  lemma {:induction false} SetKeepsStorable(table: seq<Command>, mac: bool, b: Bindings, i: nat, chords: seq<Chord>)
    requires DistinctIds(table) && AllStorable(table, mac, b) && i < |table| && Storable(table[i], mac, chords)
    ensures AllStorable(table, mac, b[table[i].id := chords])
  {
    var id := table[i].id;
    var after := b[id := chords];
    assert table[i] in table && id in b.Keys;
    assert after.Keys == b.Keys;
    forall j | 0 <= j < |table|
      ensures Storable(table[j], mac, ChordsOf(after, table[j].id))
    {
      assert ChordsOf(after, table[j].id) == if j == i then chords else ChordsOf(b, table[j].id);
    }
  }

  lemma {:induction false} UnbindKeepsStorable(table: seq<Command>, mac: bool, b: Bindings, id: string, c: Chord)
    requires DistinctIds(table) && AllStorable(table, mac, b)
    ensures AllStorable(table, mac, Unbound(b, id, c))
  {
    if id in b {
      var command :| command in table && command.id == id;
      var i :| 0 <= i < |table| && table[i] == command;
      RemoveKeepsStorable(table[i], mac, ChordsOf(b, id), c);
      SetKeepsStorable(table, mac, b, i, Remove(b[id], c));
    }
  }

  lemma {:induction false} StripKeepsStorable(table: seq<Command>, mac: bool, b: Bindings, ids: seq<string>, c: Chord)
    requires DistinctIds(table) && AllStorable(table, mac, b)
    ensures AllStorable(table, mac, Stripped(b, ids, c))
  {
    if ids != [] {
      StripKeepsStorable(table, mac, b, ids[..|ids| - 1], c);
      UnbindKeepsStorable(table, mac, Stripped(b, ids[..|ids| - 1], c), ids[|ids| - 1], c);
    }
  }

  lemma {:induction false} BindKeepsStorable(table: seq<Command>, mac: bool, b: Bindings, i: nat, c: Chord)
    requires DistinctIds(table) && AllStorable(table, mac, b) && i < |table|
    requires IsToken(c.key) && !Refused(table[i], mac, c)
    ensures AllStorable(table, mac, Bound(table, b, table[i].id, c))
  {
    var id := table[i].id;
    FoundById(table, i);
    var ids := ConflictsIn(table, b, table[i], c);
    StripKeepsStorable(table, mac, b, ids, c);
    var freed := ChordsOf(Stripped(b, ids, c), id);
    if c !in freed {
      AddKeepsStorable(table[i], mac, freed, c);
    }
    SetKeepsStorable(table, mac, Stripped(b, ids, c), i, if c in freed then freed else freed + [c]);
  }

  /** What the user can do to a keymap. */
  datatype Change = Add(id: string, chord: Chord) | Take(id: string, chord: Chord) | Restore(id: string)

  function Changed(table: seq<Command>, b: Bindings, change: Change): Bindings {
    match change
    case Add(id, c) => Bound(table, b, id, c)
    case Take(id, c) => Unbound(b, id, c)
    case Restore(id) => WithDefaults(table, b, id)
  }

  function AllChanged(table: seq<Command>, b: Bindings, changes: seq<Change>): Bindings {
    if changes == [] then b else Changed(table, AllChanged(table, b, changes[..|changes| - 1]), changes[|changes| - 1])
  }

  /** A chord is added only where it is not refused, and is one that typing or parsing makes. */
  predicate Allowed(table: seq<Command>, mac: bool, change: Change) {
    change.Add? ==>
      IsToken(change.chord.key) &&
      forall i :: 0 <= i < |table| && table[i].id == change.id ==> !Refused(table[i], mac, change.chord)
  }

  /** The defaults themselves can be held by a file. */
  predicate GoodDefaults(table: seq<Command>, mac: bool) {
    forall i :: 0 <= i < |table| ==> Storable(table[i], mac, table[i].defaults)
  }

  lemma {:induction false} ChangeKeepsStorable(table: seq<Command>, mac: bool, b: Bindings, change: Change)
    requires DistinctIds(table) && GoodDefaults(table, mac) && AllStorable(table, mac, b) && Allowed(table, mac, change)
    ensures AllStorable(table, mac, Changed(table, b, change))
  {
    match change
    case Take(id, c) => UnbindKeepsStorable(table, mac, b, id, c);
    case Add(id, c) =>
      if CommandOf(table, id).Some? {
        var i :| 0 <= i < |table| && table[i] == CommandOf(table, id).value;
        BindKeepsStorable(table, mac, b, i, c);
      }
    case Restore(id) =>
      if CommandOf(table, id).Some? {
        var i :| 0 <= i < |table| && table[i] == CommandOf(table, id).value;
        SetKeepsStorable(table, mac, b, i, table[i].defaults);
      }
  }

  lemma {:induction false} ParsedIsStorable(table: seq<Command>, mac: bool, file: Option<Json>)
    requires DistinctIds(table) && GoodDefaults(table, mac)
    ensures AllStorable(table, mac, Parsed(table, mac, file))
  {
    var b := Parsed(table, mac, file);
    forall i | 0 <= i < |table|
      ensures Storable(table[i], mac, ChordsOf(b, table[i].id))
    {
      assert table[i] in table && table[i].id in Ids(table);
      FoundById(table, i);
      var listed := BindingsIn(file);
      if table[i].id in listed && listed[table[i].id].Array? {
        ReadIsStorable(table[i], mac, listed[table[i].id].items);
      }
    }
  }

  lemma {:induction false} ChangesKeepStorable(table: seq<Command>, mac: bool, file: Option<Json>, changes: seq<Change>)
    requires DistinctIds(table) && GoodDefaults(table, mac)
    requires forall k :: 0 <= k < |changes| ==> Allowed(table, mac, changes[k])
    ensures AllStorable(table, mac, AllChanged(table, Parsed(table, mac, file), changes))
  {
    if changes == [] {
      ParsedIsStorable(table, mac, file);
    } else {
      ChangesKeepStorable(table, mac, file, changes[..|changes| - 1]);
      ChangeKeepsStorable(table, mac, AllChanged(table, Parsed(table, mac, file), changes[..|changes| - 1]), changes[|changes| - 1]);
    }
  }

  /** What a user sets is what is read next time: whatever a keymap was read from and however it was
      changed since, written over any file it reads back as itself. */
  lemma {:induction false} ChangesReadBack(table: seq<Command>, mac: bool, file: Option<Json>, changes: seq<Change>,
                                           existing: Option<Json>)
    requires DistinctIds(table) && GoodDefaults(table, mac)
    requires forall k :: 0 <= k < |changes| ==> Allowed(table, mac, changes[k])
    ensures var b := AllChanged(table, Parsed(table, mac, file), changes);
      Parsed(table, mac, Some(Written(table, b, existing))) == b
  {
    var b := AllChanged(table, Parsed(table, mac, file), changes);
    ChangesKeepStorable(table, mac, file, changes);
    WriteThenParse(table, mac, b, existing);
  }
}
