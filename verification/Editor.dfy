/**
 * A document and the file behind it: what saving, noticing a change on disk, reloading and keeping
 * one's own edits do to the buffer. The buffer is its text and the text last loaded or saved.
 */
module Editor {
  import opened Outcome
  import opened Unicode
  import opened Diff
  import opened Lines
  import opened TextCodec

  /** Enough of a file's metadata to tell one's own write from another's. */
  datatype Stamp = Stamp(len: nat, modified: Option<nat>)

  datatype Disk = InSync | Changed | Deleted

  /** A file as one check meets it: missing, or there without metadata, or with metadata, the bytes if
      they could be read, and the metadata once they were. */
  datatype Look =
    | Missing
    | Unclear
    | File(stamp: Stamp, bytes: Option<seq<Byte>>, after: Option<Stamp>)

  datatype Doc = Doc(path: Option<string>, text: Text, saved: Text, format: TextFormat, disk: Disk, stamp: Option<Stamp>)

  datatype SaveError = NoPath | WriteFailed

  datatype ReadError = NeverSaved | NoFile | TooLarge | Unreadable | NotText(error: DecodeError)

  function StampOf(look: Look): Option<Stamp> {
    if look.File? then Some(look.stamp) else None
  }

  /** The decoded text with the stamp taken afterwards; the size is looked at before the bytes are. */
  function Read(look: Look, maxBytes: nat, eol: LineEnding): Result<(Decoded, Option<Stamp>), ReadError> {
    if !look.File? then Err(NoFile)
    else if look.stamp.len > maxBytes then Err(TooLarge)
    else if look.bytes.None? then Err(Unreadable)
    else
      match Decode(look.bytes.value, eol)
      case Err(e) => Err(NotText(e))
      case Ok(d) => Ok((d, look.after))
  }

  /** There is something to lose: the buffer is not the text last loaded or saved. */
  predicate Edited(doc: Doc) {
    doc.text != doc.saved
  }

  predicate IsDirty(doc: Doc) {
    Edited(doc) || doc.disk == Deleted
  }

  function Reset(doc: Doc, found: Decoded): Doc {
    doc.(text := found.text, saved := found.text, format := found.format, disk := InSync)
  }

  /** What a change notification does. */
  function Checked(doc: Doc, look: Look, maxBytes: nat): Doc {
    if doc.path.None? || look.Unclear? then doc
    else if look.Missing? then doc.(disk := Deleted, stamp := None)
    else if Some(look.stamp) == doc.stamp && doc.disk != Deleted then doc
    else
      match Read(look, maxBytes, doc.format.eol)
      case Err(_) => doc
      case Ok((found, stamp)) =>
        if doc.saved == found.text then
          if doc.disk == Deleted && Edited(doc) then doc.(stamp := stamp, disk := Disk.Changed)
          else doc.(stamp := stamp, disk := InSync, format := found.format)
        else if Edited(doc) then doc.(stamp := stamp, disk := Disk.Changed)
        else Reset(doc.(stamp := stamp), found)
  }

  function Reloaded(doc: Doc, look: Look, maxBytes: nat): (Doc, Option<ReadError>) {
    if doc.path.None? then (doc, Some(NeverSaved))
    else
      match Read(look, maxBytes, doc.format.eol)
      case Err(e) => (doc, Some(e))
      case Ok((found, stamp)) => (Reset(doc.(stamp := stamp), found), None)
  }

  function Kept(doc: Doc, look: Look): Doc {
    doc.(stamp := if doc.path.Some? then StampOf(look) else doc.stamp, disk := InSync)
  }

  function Target(doc: Doc, path: Option<string>): Option<string> {
    if path.Some? then path else doc.path
  }

  /** What a save that reaches the disk leaves: the format is derived again from the bytes written. */
  function SavedAs(doc: Doc, path: Option<string>, bytes: seq<Byte>, after: Option<Stamp>): Doc {
    Doc(Target(doc, path), doc.text, doc.text,
        match Decode(bytes, doc.format.eol)
        case Ok(d) => d.format
        case Err(_) => doc.format,
        InSync, after)
  }

  /** The document of a file that was read. */
  function Opened(file: string, found: Decoded, seen: Option<Stamp>): Doc {
    Doc(Some(file), found.text, found.text, found.format, InSync, seen)
  }

  class Document {
    var path: Option<string>
    var text: Text
    var saved: Text
    var format: TextFormat
    var disk: Disk
    var stamp: Option<Stamp>

    function Contents(): Doc
      reads this
    {
      Doc(path, text, saved, format, disk, stamp)
    }

    /** Empty and clean, without a path. */
    constructor Untitled(eol: LineEnding)
      ensures Contents() == Doc(None, [], [], TextFormat(Utf8(false), eol, None), InSync, None)
    {
      path, text, saved, format, disk, stamp := None, [], [], TextFormat(Utf8(false), eol, None), InSync, None;
    }

    /** The document of a file that was read. */
    constructor Open(file: string, found: Decoded, seen: Option<Stamp>)
      ensures Contents() == Opened(file, found, seen)
    {
      path, text, saved, format, disk, stamp := Some(file), found.text, found.text, found.format, InSync, seen;
    }

    /** `r` is the bytes handed to the disk at `Target`; `written` is whether the disk took them. */
    method SaveTo(to: Option<string>, ops: seq<DiffOp>, written: bool, after: Option<Stamp>)
      returns (r: Result<seq<Byte>, SaveError>)
      requires DiffFor(text, format, ops)
      modifies this
      ensures r == Err(NoPath) <==> Target(old(Contents()), to).None?
      ensures r == Err(WriteFailed) <==> Target(old(Contents()), to).Some? && !written
      ensures r.Err? ==> Contents() == old(Contents())
      ensures r.Ok? ==> r.value == old(Encoded(text, format, ops))
      ensures r.Ok? ==> Contents() == SavedAs(old(Contents()), to, r.value, after)
    {
      var target := if to.Some? then to else path;
      if target.None? {
        return Err(NoPath);
      }
      var snapshot := text;
      var bytes := Encode(snapshot, format, ops);
      if !written {
        return Err(WriteFailed);
      }
      var decoded := DecodeBytes(bytes, format.eol);
      if decoded.Ok? {
        format := decoded.value.format;
      }
      saved := snapshot;
      path := target;
      stamp := after;
      disk := InSync;
      return Ok(bytes);
    }

    /** One notification, in the order of `Checked`: no path, missing, same stamp, unreadable, same text,
        and only then another text. */
    method CheckDisk(look: Look, maxBytes: nat)
      modifies this
      ensures Contents() == Checked(old(Contents()), look, maxBytes)
    {
      if path.None? || look.Unclear? {
        return;
      }
      if look.Missing? {
        disk := Deleted;
        stamp := None;
        return;
      }
      if Some(look.stamp) == stamp && disk != Deleted {
        return;
      }
      var r := ReadFile(look, maxBytes, format.eol);
      if r.Err? {
        return;
      }
      var (found, seen) := r.value;
      stamp := seen;
      if saved == found.text {
        disk := if disk == Deleted && text != saved then Disk.Changed else InSync;
        if disk == InSync {
          format := found.format;
        }
        return;
      }
      if text != saved {
        disk := Disk.Changed;
      } else {
        ReloadFrom(found);
      }
    }

    /** `Reset` to what is read, whatever the buffer held; on failure the state is the old one. */
    method Reload(look: Look, maxBytes: nat) returns (failed: Option<ReadError>)
      modifies this
      ensures (Contents(), failed) == Reloaded(old(Contents()), look, maxBytes)
    {
      if path.None? {
        return Some(NeverSaved);
      }
      var r := ReadFile(look, maxBytes, format.eol);
      if r.Err? {
        return Some(r.error);
      }
      stamp := r.value.1;
      ReloadFrom(r.value.0);
      return None;
    }

    method ReloadFrom(found: Decoded)
      modifies this
      ensures Contents() == Reset(old(Contents()), found)
    {
      text := found.text;
      saved := found.text;
      format := found.format;
      disk := InSync;
    }

    /** Only the stamp and the mark change; the text is not looked at. */
    method KeepMine(look: Look)
      modifies this
      ensures Contents() == Kept(old(Contents()), look)
    {
      if path.Some? {
        stamp := StampOf(look);
      }
      disk := InSync;
    }
  }

  method ReadFile(look: Look, maxBytes: nat, eol: LineEnding) returns (r: Result<(Decoded, Option<Stamp>), ReadError>)
    ensures r == Read(look, maxBytes, eol)
  {
    if !look.File? {
      return Err(NoFile);
    }
    if look.stamp.len > maxBytes {
      return Err(TooLarge);
    }
    if look.bytes.None? {
      return Err(Unreadable);
    }
    var decoded := DecodeBytes(look.bytes.value, eol);
    match decoded
    case Err(e) => return Err(NotText(e));
    case Ok(d) => return Ok((d, look.after));
  }
}

/** What a document promises over whole runs of saves, edits and changes on disk. */
module EditorLaws {
  import opened Outcome
  import opened Unicode
  import opened Diff
  import opened Lines
  import opened TextCodec
  import opened TextLaws
  import opened Editor

  datatype Step =
    | Edit(text: Text)
    | Save(to: Option<string>, ops: seq<DiffOp>, written: bool, after: Option<Stamp>)
    | Check(look: Look, maxBytes: nat)
    | Reload(look: Look, maxBytes: nat)
    | KeepMine(look: Look)
    | MovedTo(onto: string, stamp: Option<Stamp>)

  ghost predicate Succeeds(doc: Doc, step: Step) {
    step.Save? && Target(doc, step.to).Some? && step.written
  }

  ghost predicate Possible(doc: Doc, step: Step) {
    step.Save? ==> DiffFor(doc.text, doc.format, step.ops)
  }

  ghost function After(doc: Doc, step: Step): Doc
    requires Possible(doc, step)
  {
    match step
    case Edit(text) => doc.(text := text)
    case Save(to, ops, written, after) =>
      if Succeeds(doc, step) then SavedAs(doc, to, Encoded(doc.text, doc.format, ops), after) else doc
    case Check(look, maxBytes) => Checked(doc, look, maxBytes)
    case Reload(look, maxBytes) => Reloaded(doc, look, maxBytes).0
    case KeepMine(look) => Kept(doc, look)
    case MovedTo(path, stamp) => doc.(path := Some(path), stamp := stamp)
  }

  /** Every state of a run, the first one included. */
  ghost predicate IsRun(docs: seq<Doc>, steps: seq<Step>) {
    |docs| == |steps| + 1 &&
    forall i :: 0 <= i < |steps| ==> Possible(docs[i], steps[i]) && docs[i + 1] == After(docs[i], steps[i])
  }

  // ---------- decoding is settled after one round ----------

  /** The line ending a file settles on is the one its next reading settles on; and it never shows in
      the text. */
  lemma {:induction false} DecodeSettles(bytes: seq<Byte>, eol: LineEnding)
    requires Decode(bytes, eol).Ok?
    ensures Decode(bytes, Decode(bytes, eol).value.format.eol) == Decode(bytes, eol)
  {
  }

  /** A file that is opened and saved unedited: what is written is what was read, byte for byte, and the
      document is the one that was opened. */
  lemma {:induction false} OpenThenSave(file: string, look: Look, maxBytes: nat, eol: LineEnding, ops: seq<DiffOp>,
                                        after: Option<Stamp>)
    requires Read(look, maxBytes, eol).Ok?
    requires var found := Read(look, maxBytes, eol).value.0; DiffFor(found.text, found.format, ops)
    ensures var (found, seen) := Read(look, maxBytes, eol).value;
      var doc, bytes := Opened(file, found, seen), Encoded(found.text, found.format, ops);
      look.File? && look.stamp.len <= maxBytes && look.bytes == Some(bytes) &&
      SavedAs(doc, None, bytes, after) == doc.(stamp := after)
  {
    DecodeThenEncode(look.bytes.value, eol, ops);
    DecodeSettles(look.bytes.value, eol);
  }

  /** Saving once more without an edit writes the same bytes, if the first save wrote a text that survives. */
  lemma {:induction false} SaveTwice(doc: Doc, path: Option<string>, ops: seq<DiffOp>, after: Option<Stamp>, again: seq<DiffOp>)
    requires DiffFor(doc.text, doc.format, ops) && ReadsBack(doc.text, doc.format, ops)
    requires var saved := SavedAs(doc, path, Encoded(doc.text, doc.format, ops), after); DiffFor(saved.text, saved.format, again)
    ensures var bytes := Encoded(doc.text, doc.format, ops);
      var saved := SavedAs(doc, path, bytes, after);
      Encoded(saved.text, saved.format, again) == bytes
  {
    DecodeThenEncode(Encoded(doc.text, doc.format, ops), doc.format.eol, again);
  }

  // ---------- touches ----------

  /** The file as it was written, whatever became of its metadata and whether or not it could be read. */
  predicate Touch(look: Look, bytes: seq<Byte>) {
    look.Unclear? || (look.File? && (look.bytes.Some? ==> look.bytes.value == bytes))
  }

  /** The bytes on disk say what the document last saved, or cannot be read as text at all. */
  predicate Echoes(doc: Doc, bytes: seq<Byte>) {
    doc.disk == InSync &&
    match Decode(bytes, doc.format.eol)
    case Ok(d) => d.text == doc.saved && d.format == doc.format
    case Err(_) => true
  }

  lemma {:induction false} TouchKeeps(doc: Doc, bytes: seq<Byte>, look: Look, maxBytes: nat)
    requires Echoes(doc, bytes) && Touch(look, bytes)
    ensures Echoes(Checked(doc, look, maxBytes), bytes)
    ensures var next := Checked(doc, look, maxBytes);
      next.text == doc.text && next.saved == doc.saved && next.format == doc.format && next.path == doc.path
  {
  }

  lemma {:induction false} SavedEchoes(doc: Doc, path: Option<string>, ops: seq<DiffOp>, after: Option<Stamp>)
    requires DiffFor(doc.text, doc.format, ops)
    requires var d := Decode(Encoded(doc.text, doc.format, ops), doc.format.eol); d.Ok? ==> d.value.text == doc.text
    ensures Echoes(SavedAs(doc, path, Encoded(doc.text, doc.format, ops), after), Encoded(doc.text, doc.format, ops))
  {
    var bytes := Encoded(doc.text, doc.format, ops);
    if Decode(bytes, doc.format.eol).Ok? {
      DecodeSettles(bytes, doc.format.eol);
    }
  }

  /** Edits and touches, in any order. */
  predicate EditOrTouch(step: Step, bytes: seq<Byte>) {
    step.Edit? || (step.Check? && Touch(step.look, bytes))
  }

  /** While nobody changes the bytes that were saved, no check reloads the buffer, changes its format or
      marks it changed, however often the file is touched and whatever is typed meanwhile. */
  lemma {:induction false} OwnSaveNeverDisturbs(docs: seq<Doc>, steps: seq<Step>, bytes: seq<Byte>, n: nat)
    requires IsRun(docs, steps) && n < |docs| && Echoes(docs[0], bytes)
    requires forall i :: 0 <= i < |steps| ==> EditOrTouch(steps[i], bytes)
    ensures Echoes(docs[n], bytes) && docs[n].saved == docs[0].saved && docs[n].format == docs[0].format
    ensures n > 0 && steps[n - 1].Check? ==> docs[n].text == docs[n - 1].text
    decreases n
  {
    if n > 0 {
      OwnSaveNeverDisturbs(docs, steps, bytes, n - 1);
      assert EditOrTouch(steps[n - 1], bytes);
      if steps[n - 1].Check? {
        TouchKeeps(docs[n - 1], bytes, steps[n - 1].look, steps[n - 1].maxBytes);
      }
    }
  }

  /** A readable touch right after a save, with a stamp the save did not see. */
  predicate FreshTouch(doc: Doc, look: Look, bytes: seq<Byte>, maxBytes: nat) {
    doc.path.Some? && look.File? && look.bytes == Some(bytes) && look.stamp.len <= maxBytes && Some(look.stamp) != doc.stamp
  }

  /** Bytes that are no text at all, or say `text`. */
  predicate SaysOrIsNoText(bytes: seq<Byte>, eol: LineEnding, text: Text) {
    var d := Decode(bytes, eol);
    d.Ok? ==> d.value.text == text
  }

  lemma {:induction false} QuietExactlyWhenDecoded(doc: Doc, path: Option<string>, bytes: seq<Byte>, after: Option<Stamp>,
                                                   look: Look, maxBytes: nat)
    requires FreshTouch(SavedAs(doc, path, bytes, after), look, bytes, maxBytes)
    ensures var saved := SavedAs(doc, path, bytes, after);
      var next := Checked(saved, look, maxBytes);
      (next.text == saved.text && next.disk == InSync) <==> SaysOrIsNoText(bytes, doc.format.eol, doc.text)
  {
    if Decode(bytes, doc.format.eol).Ok? {
      DecodeSettles(bytes, doc.format.eol);
    } else {
      assert SavedAs(doc, path, bytes, after).format == doc.format;
    }
  }

  lemma {:induction false} SaysExactlyWhenReadBack(text: Text, format: TextFormat, ops: seq<DiffOp>)
    requires DiffFor(text, format, ops)
    ensures SaysOrIsNoText(Encoded(text, format, ops), format.eol, text) <==>
      Undisturbed(text, OutputLines(text, format, ops), format.encoding)
  {
    var out := OutputLines(text, format, ops);
    ReadsBackExactly(text, format, ops);
    DecodedText(format.encoding, Join(out), format.eol);
  }

  /** The text holds no CR, no kept CR ending is directly followed by an empty line ended by LF, and the
      file does not begin like a marked one; or it is a plain file that looks binary. */
  ghost predicate Undisturbed(text: Text, out: seq<Line>, encoding: Encoding) {
    if Recognisable(encoding, Join(out)) then CR !in text && !Fusing(out) else !StartsWithFeff(Join(out))
  }

  /** When exactly a save is quiet: the first readable touch after it leaves text and mark alone if and
      only if the text is one that survives being written and read, or the bytes look binary and are
      not read at all. */
  lemma {:induction false} QuietExactlyWhenReadBack(doc: Doc, path: Option<string>, ops: seq<DiffOp>, after: Option<Stamp>,
                                                    look: Look, maxBytes: nat)
    requires DiffFor(doc.text, doc.format, ops)
    requires var bytes := Encoded(doc.text, doc.format, ops);
      FreshTouch(SavedAs(doc, path, bytes, after), look, bytes, maxBytes)
    ensures var saved := SavedAs(doc, path, Encoded(doc.text, doc.format, ops), after);
      var next := Checked(saved, look, maxBytes);
      (next.text == saved.text && next.disk == InSync) <==>
        Undisturbed(doc.text, OutputLines(doc.text, doc.format, ops), doc.format.encoding)
  {
    QuietExactlyWhenDecoded(doc, path, Encoded(doc.text, doc.format, ops), after, look, maxBytes);
    SaysExactlyWhenReadBack(doc.text, doc.format, ops);
  }

  // ---------- edits are never lost ----------

  /** Short of an explicit reload, no step touches a text that differs from the one saved; only editing
      changes it. */
  lemma {:induction false} UnsavedTextIsKept(doc: Doc, step: Step)
    requires Possible(doc, step) && Edited(doc) && !step.Edit? && !step.Reload?
    ensures After(doc, step).text == doc.text
    ensures Edited(After(doc, step)) <==> !Succeeds(doc, step)
  {
  }

  /** Over whole runs: without another edit and without a reload, unsaved text is still in the buffer,
      still unsaved, or some save of the run wrote it out. */
  lemma {:induction false} UnsavedTextIsNeverLost(docs: seq<Doc>, steps: seq<Step>, n: nat)
    requires IsRun(docs, steps) && n < |docs| && Edited(docs[0])
    requires forall i :: 0 <= i < |steps| ==> !steps[i].Edit? && !steps[i].Reload?
    ensures (docs[n].text == docs[0].text && Edited(docs[n])) || exists i :: 0 <= i < n && WritesOut(docs[i], steps[i], docs[0].text)
    decreases n
  {
    if n > 0 {
      UnsavedTextIsNeverLost(docs, steps, n - 1);
      if docs[n - 1].text == docs[0].text && Edited(docs[n - 1]) {
        UnsavedTextIsKept(docs[n - 1], steps[n - 1]);
        if Succeeds(docs[n - 1], steps[n - 1]) {
          assert WritesOut(docs[n - 1], steps[n - 1], docs[0].text);
        }
      }
    }
  }

  /** A successful save of exactly this text. */
  ghost predicate WritesOut(doc: Doc, step: Step, text: Text) {
    Succeeds(doc, step) && doc.text == text
  }

  /** What a check of a readable file that looks new means. A clean buffer takes the disk's text; an
      edited one keeps its own and is marked exactly when the disk no longer says what was saved, or
      had been seen deleted. */
  lemma {:induction false} CheckFollowsOrMarks(doc: Doc, look: Look, maxBytes: nat)
    requires doc.path.Some? && look.File? && (Some(look.stamp) != doc.stamp || doc.disk == Deleted)
    requires Read(look, maxBytes, doc.format.eol).Ok?
    ensures var found, next := Read(look, maxBytes, doc.format.eol).value.0, Checked(doc, look, maxBytes);
      next.path == doc.path && next.stamp == look.after &&
      if Edited(doc) then
        next.text == doc.text && next.saved == doc.saved &&
        (next.disk == Disk.Changed <==> found.text != doc.saved || doc.disk == Deleted) && next.disk != Deleted &&
        next.format == if next.disk == InSync then found.format else doc.format
      else next.text == found.text == next.saved && next.format == found.format && next.disk == InSync
  {
  }

  // ---------- what a file must be ----------

  /** A file is read exactly when it is there with metadata, within the limit, readable and text; the first
      of these that fails is what is told. */
  lemma {:induction false} ReadExactly(look: Look, maxBytes: nat, eol: LineEnding)
    ensures var r := Read(look, maxBytes, eol);
      var small := look.File? && look.stamp.len <= maxBytes;
      (r == Err(NoFile) <==> !look.File?) && (r == Err(TooLarge) <==> look.File? && look.stamp.len > maxBytes) &&
      (r == Err(Unreadable) <==> small && look.bytes.None?) &&
      (forall e :: r == Err(NotText(e)) <==> small && look.bytes.Some? && Decode(look.bytes.value, eol) == Err(e)) &&
      (r.Ok? <==> small && look.bytes.Some? && Decode(look.bytes.value, eol).Ok?) &&
      (r.Ok? ==> r.value == (Decode(look.bytes.value, eol).value, look.after))
  {
  }

  /** A look that says nothing new, or that cannot be read, changes nothing. */
  lemma {:induction false} NoNews(doc: Doc, look: Look, maxBytes: nat)
    requires doc.path.None? || look.Unclear? ||
      (look.File? && (if Some(look.stamp) == doc.stamp then doc.disk != Deleted else Read(look, maxBytes, doc.format.eol).Err?))
    ensures Checked(doc, look, maxBytes) == doc
  {
  }

  // ---------- a file that is gone ----------

  /** A document whose file is found missing is marked, and has something to save, whatever is in it. */
  lemma {:induction false} MissingIsMarked(doc: Doc, look: Look, maxBytes: nat)
    requires doc.path.Some? && look.Missing?
    ensures var next := Checked(doc, look, maxBytes);
      next.disk == Deleted && IsDirty(next) && next.stamp == None &&
      next.text == doc.text && next.saved == doc.saved && next.format == doc.format && next.path == doc.path
  {
  }

  /** A step that says the file is back, or that the user no longer minds: a check that could read it, a
      save or a reload that succeeds, and keeping one's edits. */
  ghost predicate BringsBack(doc: Doc, step: Step) {
    match step
    case Edit(_) => false
    case Save(_, _, _, _) => Succeeds(doc, step)
    case Check(look, maxBytes) => Read(look, maxBytes, doc.format.eol).Ok?
    case Reload(look, maxBytes) => Read(look, maxBytes, doc.format.eol).Ok?
    case KeepMine(_) => true
    case MovedTo(_, _) => false
  }

  lemma {:induction false} MarkLasts(doc: Doc, step: Step)
    requires doc.path.Some? && doc.disk == Deleted && Possible(doc, step)
    ensures After(doc, step).path.Some? && (After(doc, step).disk == Deleted <==> !BringsBack(doc, step))
  {
  }

  /** The mark lasts until then, and so does the document's being unsaved. */
  lemma {:induction false} MarkedUntilBack(docs: seq<Doc>, steps: seq<Step>, n: nat)
    requires IsRun(docs, steps) && n < |docs| && docs[0].path.Some? && docs[0].disk == Deleted
    requires forall i :: 0 <= i < n ==> !BringsBack(docs[i], steps[i])
    ensures docs[n].path.Some? && docs[n].disk == Deleted && IsDirty(docs[n])
    decreases n
  {
    if n > 0 {
      MarkedUntilBack(docs, steps, n - 1);
      MarkLasts(docs[n - 1], steps[n - 1]);
    }
  }

  // ---------- what each operation is for ----------

  /** A reload makes the document the disk's copy, edited or not, or says why not and changes nothing. */
  lemma {:induction false} ReloadIsTheDisks(doc: Doc, look: Look, maxBytes: nat)
    ensures var (next, failed) := Reloaded(doc, look, maxBytes);
      var r := Read(look, maxBytes, doc.format.eol);
      (failed.None? <==> doc.path.Some? && r.Ok?) &&
      (failed.None? ==>
        next.text == r.value.0.text == next.saved && next.format == r.value.0.format && next.stamp == look.after &&
        !IsDirty(next) && next.disk == InSync && next.path == doc.path) &&
      (failed.Some? ==> next == doc && failed.value == if doc.path.None? then NeverSaved else r.error)
  {
  }

  /** A save leaves a clean document under the path it was saved at. */
  lemma {:induction false} SavedIsClean(doc: Doc, to: Option<string>, bytes: seq<Byte>, after: Option<Stamp>)
    ensures var saved := SavedAs(doc, to, bytes, after);
      !IsDirty(saved) && saved.disk == InSync && saved.text == doc.text && saved.stamp == after &&
      saved.path == (if to.Some? then to else doc.path) &&
      (Decode(bytes, doc.format.eol).Ok? ==> saved.format == Decode(bytes, doc.format.eol).value.format) &&
      (Decode(bytes, doc.format.eol).Err? ==> saved.format == doc.format)
  {
  }

  /** Keeping one's edits keeps everything but the mark, and takes the file as it is for known. */
  lemma {:induction false} KeepingKeeps(doc: Doc, look: Look)
    ensures var kept := Kept(doc, look);
      kept.disk == InSync && kept.text == doc.text && kept.saved == doc.saved && kept.format == doc.format &&
      kept.path == doc.path && (Edited(doc) <==> IsDirty(kept)) &&
      kept.stamp == if doc.path.None? then doc.stamp else if look.File? then Some(look.stamp) else None
  {
  }

  /** Keeping one's edits stops the warning only until the file is next touched: the document is then
      marked again exactly when the disk's text is not the one last saved. */
  lemma {:induction false} KeptIsMarkedAgain(doc: Doc, seen: Look, look: Look, maxBytes: nat)
    requires doc.path.Some? && Edited(doc) && look.File? && Some(look.stamp) != StampOf(seen)
    requires Read(look, maxBytes, doc.format.eol).Ok?
    ensures var kept := Kept(doc, seen);
      kept.disk == InSync && kept.text == doc.text &&
      Checked(kept, look, maxBytes).text == doc.text &&
      (Checked(kept, look, maxBytes).disk == Disk.Changed <==>
        Read(look, maxBytes, doc.format.eol).value.0.text != doc.saved)
  {
    CheckFollowsOrMarks(Kept(doc, seen), look, maxBytes);
  }

  /** Keeping one's edits and saving leaves the disk holding them: whatever was there, a later touch of
      what was written is no news. */
  lemma {:induction false} KeptThenSaved(doc: Doc, seen: Look, ops: seq<DiffOp>, after: Option<Stamp>, look: Look, maxBytes: nat)
    requires doc.path.Some? && DiffFor(doc.text, doc.format, ops) && ReadsBack(doc.text, doc.format, ops)
    requires Touch(look, Encoded(doc.text, doc.format, ops))
    ensures var kept := Kept(doc, seen);
      var saved := SavedAs(kept, None, Encoded(doc.text, doc.format, ops), after);
      var next := Checked(saved, look, maxBytes);
      kept.text == doc.text && !IsDirty(saved) && next.text == doc.text && !IsDirty(next)
  {
    var kept := Kept(doc, seen);
    SavedEchoes(kept, None, ops, after);
    TouchKeeps(SavedAs(kept, None, Encoded(doc.text, doc.format, ops), after), Encoded(doc.text, doc.format, ops), look, maxBytes);
  }

  /** A save that has nowhere to go, or that the disk refuses, changes nothing of the document. */
  lemma {:induction false} RefusedSaveIsNothing(doc: Doc, step: Step)
    requires step.Save? && ((step.to.None? && doc.path.None?) || !step.written) && Possible(doc, step)
    ensures After(doc, step) == doc
  {
  }

  /** Typing changes the text alone, and a file that is moved the path and what is known of the file. */
  lemma {:induction false} TypedAndMoved(doc: Doc, text: Text, onto: string, stamp: Option<Stamp>)
    ensures After(doc, Edit(text)) == Doc(doc.path, text, doc.saved, doc.format, doc.disk, doc.stamp)
    ensures After(doc, MovedTo(onto, stamp)) == Doc(Some(onto), doc.text, doc.saved, doc.format, doc.disk, stamp)
  {
  }
}
