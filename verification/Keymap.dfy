/**
 * Keymaps as maps from command ids to lists of chords: reading and writing them, looking a chord up, and
 * changing them. The command table is a parameter, with its defaults; a file is a JSON value.
 */
module Keymaps {
  import opened Outcome
  import opened Chords

  datatype Scope = Editor | Terminal | Explorer | Preview | FindInFiles

  datatype Command = Command(id: string, scopes: set<Scope>, defaults: seq<Chord>)

  datatype Json = Null | Bool(b: bool) | Number(n: int) | String(s: string) | Array(items: seq<Json>) | Object(fields: map<string, Json>)

  type Bindings = map<string, seq<Chord>>

  predicate DistinctIds(table: seq<Command>) {
    forall i, j :: 0 <= i < j < |table| ==> table[i].id != table[j].id
  }

  function Ids(table: seq<Command>): set<string> {
    set c | c in table :: c.id
  }

  function CommandOf(table: seq<Command>, id: string): (r: Option<Command>)
    ensures r.Some? ==> r.value in table && r.value.id == id
    ensures r.None? ==> forall i :: 0 <= i < |table| ==> table[i].id != id
  {
    if table == [] then None else if table[0].id == id then Some(table[0]) else CommandOf(table[1..], id)
  }

  // ---------- the terminal's own chords ----------

  datatype Tier = Free | Shadowable | Reserved

  /** Only control with a letter is ever the terminal's, and never on macOS. */
  function TerminalTier(c: Chord, mac: bool): Tier {
    if mac || !c.ctrl || c.shift || c.alt then Free
    else if c.key in {"C", "D", "Z", "A", "E", "W", "U", "K", "R", "L", "Q"} then Reserved
    else if c.key in {"B", "F", "N", "P", "H", "S"} then Shadowable
    else Free
  }

  /** No command can have the chord, or this one is live in terminals, which reserve it. */
  predicate Refused(command: Command, mac: bool, c: Chord) {
    !Bindable(c) || (TerminalTier(c, mac) == Reserved && Terminal in command.scopes)
  }

  // ---------- the file ----------

  function ChordsOf(b: Bindings, id: string): seq<Chord> {
    if id in b then b[id] else []
  }

  function DefaultsOf(table: seq<Command>, id: string): seq<Chord> {
    match CommandOf(table, id)
    case None => []
    case Some(command) => command.defaults
  }

  function Defaults(table: seq<Command>): Bindings {
    map id | id in Ids(table) :: DefaultsOf(table, id)
  }

  function TokenOf(j: Json): Option<Chord> {
    if j.String? then ParseChord(j.s) else None
  }

  /** The chords a list names: those that parse, are not refused, and are not there yet. */
  function ReadTokens(command: Command, mac: bool, tokens: seq<Json>): seq<Chord> {
    if tokens == [] then []
    else
      var chords, token := ReadTokens(command, mac, tokens[..|tokens| - 1]), TokenOf(tokens[|tokens| - 1]);
      if token.None? || token.value in chords || Refused(command, mac, token.value) then chords
      else chords + [token.value]
  }

  function BindingsIn(file: Option<Json>): map<string, Json> {
    if file.Some? && file.value.Object? && "bindings" in file.value.fields && file.value.fields["bindings"].Object?
    then file.value.fields["bindings"].fields
    else map[]
  }

  /** A command that the file gives a list takes it, read; any other has its defaults. */
  function ReadCommand(table: seq<Command>, mac: bool, listed: map<string, Json>, id: string): seq<Chord> {
    match CommandOf(table, id)
    case None => []
    case Some(command) =>
      if id in listed && listed[id].Array? then ReadTokens(command, mac, listed[id].items) else command.defaults
  }

  function Parsed(table: seq<Command>, mac: bool, file: Option<Json>): Bindings {
    var listed := BindingsIn(file);
    map id | id in Ids(table) :: ReadCommand(table, mac, listed, id)
  }

  function PrintAll(chords: seq<Chord>): (tokens: seq<Json>)
    ensures |tokens| == |chords|
  {
    seq(|chords|, i requires 0 <= i < |chords| => String(Print(chords[i])))
  }

  /** `listed` with an entry for each command of the table that differs from its defaults, and none for
      the others. */
  function WrittenOver(table: seq<Command>, b: Bindings, listed: map<string, Json>): map<string, Json> {
    if table == [] then listed
    else
      var before, c := WrittenOver(table[..|table| - 1], b, listed), table[|table| - 1];
      if ChordsOf(b, c.id) == c.defaults then before - {c.id} else before[c.id := Array(PrintAll(ChordsOf(b, c.id)))]
  }

  function FieldsOf(existing: Option<Json>): map<string, Json> {
    if existing.Some? && existing.value.Object? then existing.value.fields else map[]
  }

  function Versioned(fields: map<string, Json>): map<string, Json> {
    if "version" in fields then fields else fields["version" := Number(1)]
  }

  function Written(table: seq<Command>, b: Bindings, existing: Option<Json>): Json {
    Object(Versioned(FieldsOf(existing))["bindings" := Object(WrittenOver(table, b, BindingsIn(existing)))])
  }

  // ---------- looking up and changing ----------

  predicate Runs(command: Command, b: Bindings, c: Chord, scope: Scope) {
    scope in command.scopes && c in ChordsOf(b, command.id)
  }

  function LookupIn(table: seq<Command>, b: Bindings, c: Chord, scope: Scope): (r: Option<string>) {
    if table == [] then None
    else if Runs(table[0], b, c, scope) then Some(table[0].id)
    else LookupIn(table[1..], b, c, scope)
  }

  predicate Rivals(mine: Command, other: Command) {
    other.id != mine.id && other.scopes * mine.scopes != {}
  }

  /** The ids of the rivals of `mine` that have the chord, in the table's order. */
  function ConflictsIn(table: seq<Command>, b: Bindings, mine: Command, c: Chord): seq<string> {
    if table == [] then []
    else
      var before, last := ConflictsIn(table[..|table| - 1], b, mine, c), table[|table| - 1];
      if Rivals(mine, last) && c in ChordsOf(b, last.id) then before + [last.id] else before
  }

  function Remove(chords: seq<Chord>, c: Chord): seq<Chord> {
    if chords == [] then []
    else
      var before, last := Remove(chords[..|chords| - 1], c), chords[|chords| - 1];
      if last == c then before else before + [last]
  }

  function Unbound(b: Bindings, id: string, c: Chord): Bindings {
    if id in b then b[id := Remove(b[id], c)] else b
  }

  function Stripped(b: Bindings, ids: seq<string>, c: Chord): Bindings {
    if ids == [] then b else Unbound(Stripped(b, ids[..|ids| - 1], c), ids[|ids| - 1], c)
  }

  function Bound(table: seq<Command>, b: Bindings, id: string, c: Chord): Bindings {
    match CommandOf(table, id)
    case None => b
    case Some(command) =>
      var freed := Stripped(b, ConflictsIn(table, b, command, c), c);
      freed[id := if c in ChordsOf(freed, id) then ChordsOf(freed, id) else ChordsOf(freed, id) + [c]]
  }

  function WithDefaults(table: seq<Command>, b: Bindings, id: string): Bindings {
    match CommandOf(table, id)
    case None => b
    case Some(command) => b[id := command.defaults]
  }

  /** The defaults with every command the file lists, but those in `left`, read over them. */
  predicate PartlyRead(table: seq<Command>, mac: bool, listed: map<string, Json>, left: set<string>, b: Bindings) {
    b.Keys == Ids(table) &&
    forall id :: id in b ==> b[id] == if id in left then DefaultsOf(table, id) else ReadCommand(table, mac, listed, id)
  }

  class Keymap {
    const table: seq<Command>
    const mac: bool
    var bindings: Bindings

    ghost predicate Valid()
      reads this
    {
      DistinctIds(table)
    }

    constructor AtDefaults(commands: seq<Command>, onMac: bool)
      requires DistinctIds(commands)
      ensures Valid() && table == commands && mac == onMac && bindings == Defaults(commands)
    {
      table, mac, bindings := commands, onMac, Defaults(commands);
    }

    /** Read a file over the defaults; `None` is text that is no JSON. */
    constructor Parse(commands: seq<Command>, onMac: bool, file: Option<Json>)
      requires DistinctIds(commands)
      ensures Valid() && table == commands && mac == onMac && bindings == Parsed(commands, onMac, file)
    {
      table, mac, bindings := commands, onMac, Defaults(commands);
      new;
      bindings := ReadAll(commands, onMac, BindingsIn(file));
    }

    static method ReadAll(table: seq<Command>, mac: bool, listed: map<string, Json>) returns (b: Bindings)
      ensures PartlyRead(table, mac, listed, {}, b)
    {
      b := Defaults(table);
      var left := listed.Keys;
      while left != {}
        invariant left <= listed.Keys
        invariant PartlyRead(table, mac, listed, left, b)
        decreases left
      {
        var id :| id in left;
        b := ReadOne(table, mac, listed, left, id, b);
        left := left - {id};
      }
    }

    static method ReadOne(table: seq<Command>, mac: bool, listed: map<string, Json>, ghost left: set<string>, id: string, before: Bindings)
      returns (b: Bindings)
      requires left <= listed.Keys && id in left && PartlyRead(table, mac, listed, left, before)
      ensures PartlyRead(table, mac, listed, left - {id}, b)
    {
      b := before;
      var command := CommandOf(table, id);
      if command.Some? && listed[id].Array? {
        var chords := ReadList(command.value, mac, listed[id].items);
        b := b[id := chords];
      }
    }

    static method ReadList(command: Command, mac: bool, tokens: seq<Json>) returns (chords: seq<Chord>)
      ensures chords == ReadTokens(command, mac, tokens)
    {
      chords := [];
      for i := 0 to |tokens|
        invariant chords == ReadTokens(command, mac, tokens[..i])
      {
        assert tokens[..i + 1][..i] == tokens[..i];
        var token := TokenOf(tokens[i]);
        if token.Some? && token.value !in chords && !Refused(command, mac, token.value) {
          chords := chords + [token.value];
        }
      }
      assert tokens[..|tokens|] == tokens;
    }

    /** The document to be stored in place of `existing`. */
    method WriteInto(existing: Option<Json>) returns (doc: Json)
      ensures doc == Written(table, bindings, existing)
    {
      var fields := Versioned(FieldsOf(existing));
      var listed := BindingsIn(existing);
      for i := 0 to |table|
        invariant listed == WrittenOver(table[..i], bindings, BindingsIn(existing))
      {
        assert table[..i + 1][..i] == table[..i];
        var c := table[i];
        var chords := ChordsOf(bindings, c.id);
        if chords == c.defaults {
          listed := listed - {c.id};
        } else {
          listed := listed[c.id := Array(PrintAll(chords))];
        }
      }
      assert table[..|table|] == table;
      return Object(fields["bindings" := Object(listed)]);
    }

    /** The loop that stops at the first command of the table for which `Runs` holds. */
    method Lookup(c: Chord, scope: Scope) returns (id: Option<string>)
      ensures id == LookupIn(table, bindings, c, scope)
    {
      for i := 0 to |table|
        invariant LookupIn(table, bindings, c, scope) == LookupIn(table[i..], bindings, c, scope)
      {
        assert table[i..][1..] == table[i + 1..];
        if Runs(table[i], bindings, c, scope) {
          return Some(table[i].id);
        }
      }
      return None;
    }

    method Conflicts(id: string, c: Chord) returns (others: seq<string>)
      ensures CommandOf(table, id).None? ==> others == []
      ensures CommandOf(table, id).Some? ==> others == ConflictsIn(table, bindings, CommandOf(table, id).value, c)
    {
      others := [];
      var mine := CommandOf(table, id);
      if mine.None? {
        return;
      }
      for i := 0 to |table|
        invariant others == ConflictsIn(table[..i], bindings, mine.value, c)
      {
        assert table[..i + 1][..i] == table[..i];
        if Rivals(mine.value, table[i]) && c in ChordsOf(bindings, table[i].id) {
          others := others + [table[i].id];
        }
      }
      assert table[..|table|] == table;
    }

    /** First every rival loses the chord, then the command gains it, once. */
    method Bind(id: string, c: Chord)
      requires Valid()
      modifies this
      ensures Valid() && bindings == Bound(table, old(bindings), id, c)
    {
      if CommandOf(table, id).None? {
        return;
      }
      var others := Conflicts(id, c);
      for i := 0 to |others|
        invariant bindings == Stripped(old(bindings), others[..i], c)
      {
        assert others[..i + 1][..i] == others[..i];
        Unbind(others[i], c);
      }
      assert others[..|others|] == others;
      var chords := ChordsOf(bindings, id);
      if c !in chords {
        chords := chords + [c];
      }
      bindings := bindings[id := chords];
    }

    method Unbind(id: string, c: Chord)
      modifies this
      ensures bindings == Unbound(old(bindings), id, c)
    {
      if id in bindings {
        bindings := bindings[id := Remove(bindings[id], c)];
      }
    }

    method Reset(id: string)
      modifies this
      ensures bindings == WithDefaults(table, old(bindings), id)
    {
      var command := CommandOf(table, id);
      if command.Some? {
        bindings := bindings[id := command.value.defaults];
      }
    }
  }
}
