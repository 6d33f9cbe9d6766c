/** What reading, writing and changing a keymap do, field by field and chord by chord. */
module KeymapEffects {
  import opened Outcome
  import opened Chords
  import opened Keymaps
  import opened KeymapLaws

  // ---------- files ----------

  /** The file is an object whose `bindings` are an object with these entries. */
  predicate Lists(file: Option<Json>, entries: map<string, Json>) {
    file.Some? && file.value.Object? && "bindings" in file.value.fields && file.value.fields["bindings"] == Object(entries)
  }

  /** There are no bindings in the file: it is no JSON, no object, or its `bindings` are missing or no object. */
  predicate ListsNothing(file: Option<Json>) {
    file.None? || !file.value.Object? || "bindings" !in file.value.fields || !file.value.fields["bindings"].Object?
  }

  /** A list in the file is read for its command; whatever else stands there, or nothing, leaves it its defaults. */
  lemma {:induction false} FileIsRead(table: seq<Command>, mac: bool, file: Option<Json>, entries: map<string, Json>, i: nat)
    requires DistinctIds(table) && i < |table|
    ensures table[i].id in Parsed(table, mac, file)
    ensures Lists(file, entries) ==>
      Parsed(table, mac, file)[table[i].id] ==
      if table[i].id in entries && entries[table[i].id].Array? then ReadTokens(table[i], mac, entries[table[i].id].items)
      else table[i].defaults
    ensures ListsNothing(file) ==> Parsed(table, mac, file)[table[i].id] == table[i].defaults
  {
    assert table[i] in table;
    FoundById(table, i);
  }

  predicate Names(tokens: seq<Json>, c: Chord) {
    exists i :: 0 <= i < |tokens| && IsText(tokens[i], c)
  }

  /** What a list is read as has the chords of its texts that parse and are not refused, and no others. */
  lemma {:induction false} ListHas(command: Command, mac: bool, tokens: seq<Json>, c: Chord)
    ensures c in ReadTokens(command, mac, tokens) <==> !Refused(command, mac, c) && Names(tokens, c)
  {
    if tokens != [] {
      var init, last := tokens[..|tokens| - 1], tokens[|tokens| - 1];
      ListHas(command, mac, init, c);
      assert tokens == init + [last];
      NamedInMore(init, last, c);
      TokenIsRead(command, mac, init, last);
      OneMoreHas(command, mac, ReadTokens(command, mac, init), last, ReadTokens(command, mac, tokens), c);
    }
  }

  lemma {:induction false} OneMoreHas(command: Command, mac: bool, before: seq<Chord>, token: Json, after: seq<Chord>, c: Chord)
    requires var chord := TokenOf(token);
      after == if chord.None? || chord.value in before || Refused(command, mac, chord.value) then before else before + [chord.value]
    ensures c in after <==> c in before || (IsText(token, c) && !Refused(command, mac, c))
  {
  }

  lemma {:induction false} NamedInMore(init: seq<Json>, last: Json, c: Chord)
    ensures Names(init + [last], c) <==> Names(init, c) || IsText(last, c)
  {
    var all := init + [last];
    assert all[|init|] == last && forall i :: 0 <= i < |init| ==> all[i] == init[i];
  }

  predicate IsText(token: Json, c: Chord) {
    token.String? && ParseChord(token.s) == Some(c)
  }

  /** They stay in order: a longer list only adds chords behind those of its front. */
  lemma {:induction false} ListGrows(command: Command, mac: bool, tokens: seq<Json>, more: seq<Json>)
    ensures ReadTokens(command, mac, tokens) <= ReadTokens(command, mac, tokens + more)
  {
    if more == [] {
      assert tokens + more == tokens;
    } else {
      var init := more[..|more| - 1];
      ListGrows(command, mac, tokens, init);
      assert (tokens + more)[..|tokens + more| - 1] == tokens + init;
    }
  }

  predicate HasEntry(fields: map<string, Json>, name: string, value: Json) {
    name in fields && fields[name] == value
  }

  /** Writing over an object keeps each of its fields, puts a version in if it has none, and writes `bindings`. */
  lemma {:induction false} FieldsAreKept(table: seq<Command>, b: Bindings, old_: map<string, Json>, name: string, value: Json)
    requires name != "bindings"
    ensures Written(table, b, Some(Object(old_))).Object?
    ensures HasEntry(Written(table, b, Some(Object(old_))).fields, name, value) <==>
      HasEntry(old_, name, value) || (name == "version" && name !in old_ && value == Number(1))
  {
  }

  /** Over anything else it writes `version` and `bindings` alone. */
  lemma {:induction false} NothingElseIsWritten(table: seq<Command>, b: Bindings, existing: Option<Json>, name: string, value: Json)
    requires (existing.None? || !existing.value.Object?) && name != "bindings"
    ensures Written(table, b, existing).Object?
    ensures HasEntry(Written(table, b, existing).fields, name, value) <==> name == "version" && value == Number(1)
  {
  }

  /** The written `bindings` have a list for each command of the table that is not at its defaults; entries of other
      names are kept, and there are no more. */
  lemma {:induction false} BindingsAreWritten(table: seq<Command>, b: Bindings, existing: Option<Json>, listed: map<string, Json>, name: string, value: Json)
    requires DistinctIds(table) && (Lists(existing, listed) || (ListsNothing(existing) && listed == map[]))
    ensures Lists(Some(Written(table, b, existing)), BindingsIn(Some(Written(table, b, existing))))
    ensures var entries := BindingsIn(Some(Written(table, b, existing)));
      (forall i :: 0 <= i < |table| && table[i].id == name ==>
        (HasEntry(entries, name, value) <==>
          ChordsOf(b, name) != table[i].defaults && value == Array(PrintAll(ChordsOf(b, name))))) &&
      ((forall i :: 0 <= i < |table| ==> table[i].id != name) ==> (HasEntry(entries, name, value) <==> HasEntry(listed, name, value)))
  {
    var w := WrittenOver(table, b, listed);
    assert BindingsIn(existing) == listed;
    assert BindingsIn(Some(Written(table, b, existing))) == w;
    if i :| 0 <= i < |table| && table[i].id == name {
      WrittenCommand(table, b, listed, i);
    } else {
      WrittenElsewhere(table, b, listed, name);
    }
  }

  // ---------- changes ----------

  /** A chord that is taken out leaves the others in their order. */
  lemma {:induction false} RemoveKeepsOrder(chords: seq<Chord>, more: seq<Chord>, c: Chord)
    ensures Remove(chords + more, c) == Remove(chords, c) + Remove(more, c)
    ensures Remove([c], c) == []
    ensures c !in chords ==> Remove(chords, c) == chords
  {
    assert [c][..0] == [];
    if c !in chords {
      StaysWithout(chords, c);
    }
    if more == [] {
      assert chords + more == chords;
    } else {
      var init := more[..|more| - 1];
      RemoveKeepsOrder(chords, init, c);
      assert (chords + more)[..|chords + more| - 1] == chords + init;
    }
  }

  lemma {:induction false} StaysWithout(chords: seq<Chord>, c: Chord)
    requires c !in chords
    ensures Remove(chords, c) == chords
  {
    if chords != [] {
      StaysWithout(chords[..|chords| - 1], c);
      assert chords == chords[..|chords| - 1] + [chords[|chords| - 1]];
    }
  }

  lemma {:induction false} StrippedStays(b: Bindings, ids: seq<string>, c: Chord, id: string)
    requires id !in ids
    ensures ChordsOf(Stripped(b, ids, c), id) == ChordsOf(b, id)
  {
    if ids != [] {
      StrippedStays(b, ids[..|ids| - 1], c, id);
      assert ids[|ids| - 1] in ids;
    }
  }

  /** A chord is bound behind the command's others, which stay in their order. */
  lemma {:induction false} BoundAtTheEnd(table: seq<Command>, b: Bindings, m: nat, c: Chord)
    requires DistinctIds(table) && m < |table|
    ensures var (id, after) := (table[m].id, Bound(table, b, table[m].id, c));
      ChordsOf(after, id) == if c in ChordsOf(b, id) then ChordsOf(b, id) else ChordsOf(b, id) + [c]
  {
    var id := table[m].id;
    FoundById(table, m);
    ConflictsAre(table, b, table[m], c, id);
    StrippedStays(b, ConflictsIn(table, b, table[m], c), c, id);
  }

  /** A chord is unbound from the one command asked for. */
  lemma {:induction false} UnboundDoes(b: Bindings, id: string, c: Chord, other: string)
    ensures ChordsOf(Unbound(b, id, c), other) == if other == id then Remove(ChordsOf(b, id), c) else ChordsOf(b, other)
  {
  }

  /** A reset gives one command its defaults and leaves all others as they are; what names no command changes nothing. */
  lemma {:induction false} ResetDoes(table: seq<Command>, b: Bindings, m: nat, id: string, other: string)
    requires DistinctIds(table) && m < |table|
    ensures ChordsOf(WithDefaults(table, b, table[m].id), other) ==
      if other == table[m].id then table[m].defaults else ChordsOf(b, other)
    ensures (forall i :: 0 <= i < |table| ==> table[i].id != id) ==> WithDefaults(table, b, id) == b
    ensures (forall i :: 0 <= i < |table| ==> table[i].id != id) ==> forall c :: Bound(table, b, id, c) == b
  {
    FoundById(table, m);
  }

  // ---------- looking up ----------

  /** A chord runs the first command of the table that is live in the scope and has it. */
  lemma {:induction false} LookupIsFirst(table: seq<Command>, b: Bindings, c: Chord, scope: Scope, i: nat)
    requires i < |table| && scope in table[i].scopes && c in ChordsOf(b, table[i].id)
    requires forall k :: 0 <= k < i ==> !(scope in table[k].scopes && c in ChordsOf(b, table[k].id))
    ensures LookupIn(table, b, c, scope) == Some(table[i].id)
  {
    if i > 0 {
      assert !Runs(table[0], b, c, scope);
      LookupIsFirst(table[1..], b, c, scope, i - 1);
    }
  }

  /** The commands in a chord's way: others that are live in some scope of this one and have it, in the table's order. */
  lemma {:induction false} ConflictsInOrder(table: seq<Command>, more: seq<Command>, b: Bindings, mine: Command, c: Chord)
    ensures ConflictsIn(table + more, b, mine, c) == ConflictsIn(table, b, mine, c) + ConflictsIn(more, b, mine, c)
    ensures forall other :: Rivals(mine, other) <==>
      other.id != mine.id && exists scope :: scope in mine.scopes && scope in other.scopes
  {
    forall other: Command
      ensures Rivals(mine, other) <==> other.id != mine.id && exists scope :: scope in mine.scopes && scope in other.scopes
    {
      RivalsMean(mine, other);
    }
    if more == [] {
      assert table + more == table;
    } else {
      var init := more[..|more| - 1];
      ConflictsInOrder(table, init, b, mine, c);
      assert (table + more)[..|table + more| - 1] == table + init;
    }
  }

  lemma {:induction false} RivalsMean(mine: Command, other: Command)
    ensures Rivals(mine, other) <==> other.id != mine.id && exists scope :: scope in mine.scopes && scope in other.scopes
  {
    if scope :| scope in mine.scopes && scope in other.scopes {
      assert scope in other.scopes * mine.scopes;
    }
    if other.scopes * mine.scopes != {} {
      var scope :| scope in other.scopes * mine.scopes;
      assert scope in mine.scopes && scope in other.scopes;
    }
  }
}
