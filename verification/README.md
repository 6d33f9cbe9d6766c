# throng: the rules behind the panels

A Dafny model of the platform-independent rules of throng and of the stateful engines behind its
panels, with proofs of what they promise. Check it with `dafny verify dfyconfig.toml`.

## What is modelled

- **Text files** (`Unicode`, `Lines`, `Diff`, `Text`, `TextLaws`, `TextBytes`). Bytes are read into a text
  whose lines end in LF and a format, and an edited text is written in that format. Files whose
  lines end differently are matched line by line with their old selves; the diff is any longest matching.
  Reading then writing is exact for all bytes that are accepted. Writing then reading is exact under a
  condition that is stated and proved necessary: an empty line after a CR-ended one fuses with it.
- **Documents** (`Editor`). Saving, noticing changes on disk, reloading and keeping one's edits, over a
  buffer that is its text and the text last saved. One's own save is never mistaken for someone else's,
  and unsaved text is never lost, over whole runs.
- **Undoable file operations** (`FileTree`, `FileHistory`, `FileOps`, `FileOpsLaws`). The disk is a tree of
  paths with a trash. On a disk nobody else touches nothing is ever refused, and undo and redo lead back;
  on a disk others change at will a refusal changes nothing and a success overwrites nothing; when an
  undone delete brings back another item than it names is stated exactly.
- **Crash recovery** (`Recovery`, `RecoveryLaws`). The user interface's ticks, a queue of jobs and a writer
  in any interleaving. Two weaknesses of the code are stated exactly, over whole sessions: a version tag
  stands for two texts when a deleted file comes back and its document is edited once, and dropping
  histories leaves a file that nobody will delete when its document is saved or closed before it is
  written again.
- **Find in Files** (`Search`, `SearchLaws`, `ScanLaws`, `SearchText`). Worker threads, a generation counter and a
  message queue, in any interleaving.
- **Paths and projects** (`Chars`, `Pieces`, `Paths`, `PathLaws`, `PathSpellings`, `Transfers`,
  `Project`, `ProjectLaws`, `ProjectEffects`). Path
  identity is a string comparison of keys; what it means on names is proved, and from it that every
  path has at most one owning project.
- **Key bindings** (`Chords`, `KeyNames`, `Keymap`, `KeymapLaws`, `KeymapEffects`), **links** (`Links`,
  `LinkLaws`, `LinkReading`, `LinksFound`, `Markdown`), **natural order** (`NaturalOrder`), **preview
  scrolling** (`Preview`, `PreviewLaws`) and **Quick Open** (`QuickOpen`, `QuickOpenRanks`, with `Sorting`).

A loop or a method that changes state is a Dafny method proved equal to a function of its inputs or of
the old state; the laws are lemmas about those functions.

What the surroundings do is given to the model from outside: the time, what a file looks like when it is
checked, whether a system call fails, new identifiers, trash tokens, case folding, lower-casing, and which
characters are letters. Wherever a law needs something of them, its `requires` says so.

Where the code and its comments part, the model follows the code. `keep_mine` does not compare texts, so
a touch after it marks an edited document again
(`EditorLaws.KeptIsMarkedAgain`). `line_for_offset` is called the inverse of `offset_for_line`; it is so
exactly for the lines `PreviewLaws.LineComesBack` names.

## Model

| member | source | states |
|---|---|---|
| `Unicode.DecodeOfEncodeUtf8` | crates/throng-core/src/text.rs:137-141 | UTF-8 (section 3 of RFC 3629): every text is read back from its bytes |
| `Unicode.EncodeOfDecodeUtf8` | crates/throng-core/src/text.rs:137-141 | and every byte string that strict decoding accepts is the encoding of what it yields, so nothing overlong, surrogate or out of range gets in |
| `Unicode.ErrorOffsetIsLongestValidPrefix` | crates/throng-core/src/text.rs:137-141 | the offset reported for invalid UTF-8 is the longest prefix that is valid by itself |
| `Unicode.DecodeOfEncodeUtf16` | crates/throng-core/src/text.rs:143-150 | UTF-16 (section 2 of RFC 2781): every text is read back from its code units |
| `Unicode.EncodeOfDecodeUtf16` | crates/throng-core/src/text.rs:143-150 | and every sequence of code units that is accepted is the encoding of what it yields, so no lone surrogate is |
| `Unicode.BytesUnitsOfUnitBytes` | crates/throng-core/src/text.rs:254-267 | code units written in either byte order are read back |
| `Unicode.UnitBytesOfBytesUnits` | crates/throng-core/src/text.rs:143-150 | and an even number of bytes is what its code units are written as |
| `Lines.JoinOfLines` | crates/throng-core/src/text.rs:155-183 | the lines of a raw text, each with its terminator, join to exactly that text |
| `Lines.LinesAreClosed` | crates/throng-core/src/text.rs:155-183 | no line holds a line feed, and only the last may lack a terminator, and is then not empty |
| `Lines.NormalisedLines` | crates/throng-core/src/text.rs:125-131 | the text an editor holds is the raw text with every CRLF and lone CR made an LF |
| `Lines.NormaliseJoin` | crates/throng-core/src/text.rs:125-131 | joining lines and normalising gives their normalised text back if and only if no CR-ended line is directly followed by an empty LF-ended one |
| `TextCodec.SplitLines` | crates/throng-core/src/text.rs:155-183 | the splitting loop yields the recursively defined lines |
| `TextCodec.Classify` | crates/throng-core/src/text.rs:186-208 | the counting loop yields the ending with the greatest count, draws going as documented, and whether two kinds were counted |
| `TextLaws.DominantIsCommonest` | crates/throng-core/src/text.rs:186-208 | no ending has a greater count than the one recorded; with no terminator at all the default is recorded and nothing is mixed |
| `TextLaws.OneKind` | crates/throng-core/src/text.rs:186-208 | a terminated line of a file that is not classified as mixed has the recorded ending |
| `TextCodec.DecodeBytes` | crates/throng-core/src/text.rs:115-134 | the reading loop equals the decoding function |
| `TextLaws.MarkedStoreReads` | crates/throng-core/src/text.rs:115-124 | every encoding with a byte order mark is recognised and read back |
| `TextLaws.PlainStoreReads` | crates/throng-core/src/text.rs:115-124 | plain UTF-8 is read back unless it begins with U+FEFF or has a NUL among its first 8 KiB, and then what is read instead |
| `TextLaws.ReadBytesStoreBack` | crates/throng-core/src/text.rs:115-150 | whatever raw bytes are accepted are what storing their text in their encoding writes |
| `Diff.LongestExists` | crates/throng-core/src/text.rs:227 | every two sequences have a longest strictly increasing matching of equal elements, which is all a diff is asked for |
| `Diff.IdenticalForcesIdentity` | crates/throng-core/src/text.rs:225-236 | diffing a sequence against itself can only match every element with itself |
| `TextCodec.KeepEndings` | crates/throng-core/src/text.rs:224-236 | the loop over the edit script gives each kept line its original ending, and touches no other |
| `TextLaws.EndingsKept` | crates/throng-core/src/text.rs:224-236 | in an edited mixed file a matched line keeps its ending and any other has the dominant one |
| `TextCodec.Encode` | crates/throng-core/src/text.rs:211-269 | the writing loops equal the encoding function, for any edit script that is a diff |
| `TextLaws.DecodeThenEncode` | crates/throng-core/src/text.rs:115-269 | byte-exact round trip: all bytes that decoding accepts, with uniform or mixed endings, are written back unchanged, whichever diff was found |
| `TextLaws.ReadsBackExactly` | crates/throng-core/src/text.rs:155-269 | a text survives being written and read if and only if it holds no CR, no line that kept a CR ending is directly followed by an empty LF-ended line, and a plain file is not taken for a marked or binary one |
| `TextLaws.UniformReadsBack` | crates/throng-core/src/text.rs:155-269 | with one kind of ending the condition is the last part alone, and the format comes back too |
| `TextLaws.LinesOfJoin` | crates/throng-core/src/text.rs:155-183 | lines without CRs that do not fuse are found again after joining |
| `TextLaws.MixedCanFail` | crates/throng-core/src/text.rs:211-269 | a concrete mixed file, as decoding yields it from its bytes, whose second line, once emptied, does not survive a save |
| `TextBytes.CharactersSpellUtf8` | crates/throng-core/src/text.rs:137-141 | the bytes of every scalar value are its spelling by the bit pattern of RFC 3629, by length |
| `TextBytes.OneSpelling` | crates/throng-core/src/text.rs:137-141 | and no two byte strings spell one scalar value |
| `TextBytes.CharactersSpellUtf16` | crates/throng-core/src/text.rs:143-150 | the code units of every scalar value are the one, or the surrogate pair, that RFC 2781 gives it |
| `TextBytes.DecodesExactlyPaired` | crates/throng-core/src/text.rs:143-150 | code units decode if and only if every surrogate in them is half of a pair |
| `TextBytes.LittleEndianIsRead` | crates/throng-core/src/text.rs:115-124 | a file that begins with FF FE is UTF-16, low byte first: unit k of its text is made of bytes 2 + 2k and 3 + 2k |
| `TextBytes.BigEndianIsRead` | crates/throng-core/src/text.rs:115-124 | one that begins with FE FF is UTF-16, high byte first |
| `TextBytes.Utf8IsRead` | crates/throng-core/src/text.rs:115-124 | any other is UTF-8, from behind EF BB BF if it begins so; without that mark it is refused as binary if and only if a zero is among its first 8192 bytes |
| `TextBytes.EncodedIsFile` | crates/throng-core/src/text.rs:245-269 | a save writes the same marks and the same positions |
| `TextBytes.EndingsAre` | crates/throng-core/src/text.rs:43-49 | a terminator is byte 10, bytes 13 and 10, or byte 13 |
| `TextBytes.NormaliseIsFixed` | crates/throng-core/src/text.rs:125-131 | the text an editor holds is fixed by what happens to 13 and 10, and to pieces put side by side |
| `TextBytes.DecodedIsRead` | crates/throng-core/src/text.rs:115-134 | text and encoding of a file are those of its raw text, and its error is the raw one |
| `TextBytes.FormatIsRead` | crates/throng-core/src/text.rs:115-134 | and its format records the preferred ending, and the lines if they end differently |
| `TextBytes.CountIsMultiplicity` | crates/throng-core/src/text.rs:186-208 | a count is how often an ending occurs |
| `TextBytes.EndingIsPreferred` | crates/throng-core/src/text.rs:186-208 | a recorded ending beats those preferred to it, and a file is mixed if and only if two of its lines end differently |
| `TextBytes.PairsExactly` | crates/throng-core/src/text.rs:224-236 | the kept lines are those in the equal runs of the edit script |
| `TextBytes.LinesAreWritten` | crates/throng-core/src/text.rs:211-244 | every line is written as the text has it; one kept from a terminated line ends as that did, any other as the format says, and the last has no terminator if and only if the text does not end with an LF |
| `Editor.Document.SaveTo` | crates/throng-app/src/editor.rs:221-243 | what a save writes and leaves: refusals change nothing; otherwise the text captured becomes the saved one and the format is derived from the bytes written |
| `Editor.Document.CheckDisk` | crates/throng-app/src/editor.rs:247-277 | one change notification, in every case of what the disk shows |
| `Editor.Document.Reload` | crates/throng-app/src/editor.rs:280-286 | an explicit reload takes the disk copy, or fails and changes nothing |
| `Editor.Document.ReloadFrom` | crates/throng-app/src/editor.rs:288-297 | text, saved text and format are the disk copy's and the document is in step with it |
| `Editor.Document.KeepMine` | crates/throng-app/src/editor.rs:311-316 | keeping one's edits only stops the warning |
| `EditorLaws.OpenThenSave` | crates/throng-app/src/editor.rs:91-243 | a file that is read, within the size limit, and saved unedited is written byte for byte as it was, and the document is the one that was opened |
| `EditorLaws.DecodeSettles` | crates/throng-app/src/editor.rs:221-277 | reading a file again with the line ending it settled on gives the same text and format |
| `EditorLaws.SavedEchoes` | crates/throng-app/src/editor.rs:221-243 | after a save whose text survives, the bytes on disk say what the document holds |
| `EditorLaws.OwnSaveNeverDisturbs` | crates/throng-app/src/editor.rs:221-277 | from then on, in every run of edits and of checks of the same bytes under any metadata, no check changes text, saved text or format or marks the document |
| `EditorLaws.QuietExactlyWhenReadBack` | crates/throng-app/src/editor.rs:221-277 | the first readable touch after a save leaves text and mark alone if and only if the text is one that survives, or its bytes look binary |
| `EditorLaws.UnsavedTextIsKept` | crates/throng-app/src/editor.rs:221-325 | no step but an edit or an explicit reload changes a text that differs from the saved one, and only a successful save ends the difference |
| `EditorLaws.UnsavedTextIsNeverLost` | crates/throng-app/src/editor.rs:221-325 | over whole runs without edits and reloads, unsaved text is still there unsaved, or a save of the run wrote exactly it |
| `EditorLaws.CheckFollowsOrMarks` | crates/throng-app/src/editor.rs:247-277 | a clean buffer takes the disk's text; an edited one keeps its own and is marked exactly when the disk differs from what was saved or had been deleted |
| `EditorLaws.KeptThenSaved` | crates/throng-app/src/editor.rs:221-316 | keeping one's edits and saving leaves a clean document that later touches do not disturb |
| `EditorLaws.KeptIsMarkedAgain` | crates/throng-app/src/editor.rs:247-316 | but until then a touch of the file marks the document again if and only if the disk's text is not the one last saved |
| `EditorLaws.SaveTwice` | crates/throng-app/src/editor.rs:221-243 | a second save without an edit writes the same bytes, for every text that survives the first |
| `EditorLaws.ReadExactly` | crates/throng-app/src/editor.rs:91-101 | a file is read if and only if it is there with metadata, within the limit, readable and text; otherwise the first of these that fails is told |
| `EditorLaws.MissingIsMarked` | crates/throng-app/src/editor.rs:247-255 | a document whose file is found missing is marked deleted and is unsaved, with its text and saved text as they were |
| `EditorLaws.MarkLasts` | crates/throng-app/src/editor.rs:247-316 | one step keeps that mark unless it is a check that could read the file, a successful save or reload, or keeping one's edits |
| `EditorLaws.MarkedUntilBack` | crates/throng-app/src/editor.rs:163-316 | so over every run without such a step the document stays marked and unsaved |
| `EditorLaws.ReloadIsTheDisks` | crates/throng-app/src/editor.rs:280-297 | a successful reload leaves text, saved text and format as the disk has them and the document clean, edited or not; a failed one changes nothing and says why |
| `EditorLaws.SavedIsClean` | crates/throng-app/src/editor.rs:221-243 | a save leaves a clean document under the path it was saved at |
| `EditorLaws.KeepingKeeps` | crates/throng-app/src/editor.rs:311-316 | keeping one's edits keeps text, saved text and format |
| `EditorLaws.RefusedSaveIsNothing` | crates/throng-app/src/editor.rs:221-243 | a save without a path, or that the disk refuses, leaves the document as it was |
| `EditorLaws.TypedAndMoved` | crates/throng-app/src/editor.rs:320-325 | typing changes the text alone; a file moved inside throng, the path and what is known of the file |
| `EditorLaws.NoNews` | crates/throng-app/src/editor.rs:247-262 | a look with nothing new, or at a file that cannot be read, changes nothing |
| `FileHistories.FileHistory.Record` | crates/throng-core/src/file_history.rs:81-93 | recording appends, clears what could be redone and drops only the oldest |
| `FileHistories.FileHistory.Trim` | crates/throng-core/src/file_history.rs:87-93 | each stack keeps its newest entries up to the limit |
| `FileHistories.FileHistory.Undone` | crates/throng-core/src/file_history.rs:115-119 | the newest entry changes sides; an empty stack stays |
| `FileHistories.FileHistory.Redone` | crates/throng-core/src/file_history.rs:123-131 | the entry leaves the redo side and goes back as it was applied again, or nowhere |
| `FileHistories.BoundedTogether` | crates/throng-core/src/file_history.rs:81-131 | in every history reachable from empty both stacks together hold at most the limit |
| `FileHistories.RedoneKeepsAll` | crates/throng-core/src/file_history.rs:123-131 | so redoing never pushes another entry out |
| `FileHistories.RecordKeepsNewest` | crates/throng-core/src/file_history.rs:81-93 | a new entry is always kept, and what is dropped is from the oldest end and only when full |
| `FileOps.Disk.Rename` | crates/throng-app/src/file_ops.rs:33-35 | a rename is carried out if and only if the system does not fail, the item is there, nothing is in its place and its new folder is there and not inside it; then nothing is overwritten, every item is where it was or follows its folder, and renaming back restores the tree |
| `FileOps.Disk.SendToTrash` | crates/throng-app/src/file_ops.rs:37-39 | an item is trashed if and only if it is there and the system does not fail; then it is gone, everything outside it is kept, and with a token the trash holds what put back at its path restores the tree |
| `FileOps.Disk.Restore` | crates/throng-app/src/file_ops.rs:41-43 | an item is restored if and only if the trash has it, its place is free and in a folder, and the system does not fail; then it is all back at its place, out of the trash, and taking it away again gives the tree there was |
| `FileOps.Undo` | crates/throng-app/src/file_ops.rs:79-104 | one undo on the disk and the history, with each refusal |
| `FileOps.Redo` | crates/throng-app/src/file_ops.rs:108-128 | one redo, likewise |
| `FileTree.MoveBack` | crates/throng-app/src/file_ops.rs:79-104 | moving an item and moving it back restores the tree |
| `FileTree.MoveCanGoBack` | crates/throng-app/src/file_ops.rs:131-142 | and the way back is always free |
| `FileTree.MovedIsTree` | crates/throng-app/src/file_ops.rs:79-128 | a move leaves every item in a folder |
| `FileTree.GraftBack` | crates/throng-app/src/file_ops.rs:87-100 | putting a removed item back restores the tree |
| `FileTree.RemoveGrafted` | crates/throng-app/src/file_ops.rs:116-123 | removing an item put where nothing was restores the tree |
| `FileTree.MoveOverwritesNothing` | crates/throng-app/src/file_ops.rs:131-142 | after a move every item is still there, where it was or below where its folder went |
| `FileOpsLaws.DoneIsUndoable` | crates/throng-app/src/file_ops.rs:79-128 | what is done, a move or a restorable delete, can be undone, and undoing gives back the very disk |
| `FileOpsLaws.RecordKeeps` | crates/throng-core/src/file_history.rs:81-93 | recording keeps every entry of both stacks usable in turn |
| `FileOpsLaws.UndoSucceeds` | crates/throng-app/src/file_ops.rs:79-104 | on an undisturbed disk an undo is carried out, yields the disk before the operation, and keeps every entry usable |
| `FileOpsLaws.RedoSucceeds` | crates/throng-app/src/file_ops.rs:108-128 | and so does a redo, with a fresh trash token for a delete |
| `FileOpsLaws.EventKeeps` | crates/throng-app/src/file_ops.rs:79-142 | doing, undoing and redoing keep every entry of both stacks usable |
| `FileOpsLaws.RunsAreConsistent` | crates/throng-app/src/file_ops.rs:79-142 | in every run, from any tree and any trash, on a disk nobody else touches, every entry matches the disk it will meet |
| `FileOpsLaws.NeverRefused` | crates/throng-app/src/file_ops.rs:79-142 | so in every such run no undo and no redo is refused |
| `FileOpsLaws.DiskIsReplay` | crates/throng-app/src/file_ops.rs:79-142 | and the disk always is what replaying the undo stack makes of some base disk |
| `FileOpsLaws.BaseStays` | crates/throng-app/src/file_ops.rs:79-142 | that base does not change while the stack has room |
| `FileOpsLaws.ThereAndBack` | crates/throng-app/src/file_ops.rs:79-142 | any number of undos and as many redos restore the tree, the items in the trash and both stacks, fresh trash tokens aside |
| `FileOpsLaws.RefusalChangesNothing` | crates/throng-app/src/file_ops.rs:79-128 | on any disk, and however the system fails, a refused undo or redo changes neither disk nor history |
| `FileOpsLaws.UndoRefusedUnlessMatching` | crates/throng-app/src/file_ops.rs:79-104 | on any disk, the system willing, an undo is carried out if and only if a moved item can go back, or a deleted one's path is free and in a folder and the trash can restore its token; the disk then matches the entry if and only if the token is still its own |
| `FileOpsLaws.ItemComesBackExactly` | crates/throng-app/src/file_ops.rs:87-100 | after an undone delete the item's path is there again if and only if the token's trash item came from that path |
| `FileOpsLaws.RestoredElsewhere` | crates/throng-platform/src/fs.rs:118-138 | a concrete case in which it is not: the token stands for another file, which is restored while the answer names the first |
| `FileOpsLaws.UndoLosesNothing` | crates/throng-app/src/file_ops.rs:79-104 | on any disk, and wherever a restored item goes, no successful undo overwrites or loses an item |
| `FileOpsLaws.RedoLosesNothing` | crates/throng-app/src/file_ops.rs:108-128 | nor does a redo, but for the item a delete removes |
| `FileOpsLaws.RedoneDeleteIsKept` | crates/throng-app/src/file_ops.rs:116-123 | which is whole in the trash when the trash can give it back |
| `FileOpsLaws.RedoneForGood` | crates/throng-app/src/file_ops.rs:116-128 | a redone delete that cannot be given back leaves the redo stack and is not recorded; nothing else of the history changes |
| `FileOpsLaws.ItemIsThere` | crates/throng-app/src/file_ops.rs:79-128 | after an undo or redo that is carried out the entry's item is at the path at which its user looks for it |
| `FileOpsLaws.UndoSaysWhy` | crates/throng-app/src/file_ops.rs:79-104 | a refused undo names its entry and item and says what is true of the disk |
| `FileOpsLaws.RedoSaysWhy` | crates/throng-app/src/file_ops.rs:108-128 | and so does a refused redo |
| `FileOpsLaws.FailureIsTold` | crates/throng-app/src/file_ops.rs:79-104 | what the system says when it fails an undo is what the user is told |
| `FileOpsLaws.RedoFailureIsTold` | crates/throng-app/src/file_ops.rs:108-128 | and so for a redo |
| `FileTree.CanMoveMeans` | crates/throng-app/src/file_ops.rs:131-142 | an item can go where nothing is, into a folder that is there and neither the item itself nor below it |
| `FileTree.TreeMeans` | crates/throng-app/src/file_ops.rs:79-128 | what is not the root lies in a folder, never in a file |
| `Recoveries.Folder.Run` | crates/throng-app/src/recovery.rs:269-305 | one job on the files: written whole, deleted, or stripped of its history |
| `Recoveries.Folder.Writer` | crates/throng-app/src/recovery.rs:269-305 | the writer's loop carries out the queue in order |
| `Recoveries.Recovery.TickOne` | crates/throng-app/src/recovery.rs:186-227 | one document's turn: what is remembered, what is sent, and how long a pending write still waits |
| `Recoveries.Recovery.Tick` | crates/throng-app/src/recovery.rs:182-241 | a whole tick, key by key, for every set of documents; the answer is the soonest pending write |
| `Recoveries.Recovery.DropClosed` | crates/throng-app/src/recovery.rs:228-234 | a deletion is queued for each key that was written and is no longer open, and no other |
| `Recoveries.Recovery.Adopt` | crates/throng-app/src/recovery.rs:244-246 | an adopted record is remembered as such |
| `Recoveries.Recovery.DropHistories` | crates/throng-app/src/recovery.rs:250-255 | what was written is forgotten and stripping is queued |
| `RecoveryLaws.WritingKeepsFinal` | crates/throng-app/src/recovery.rs:269-305 | the writer's progress never changes what each file will hold in the end |
| `RecoveryLaws.StepKeepsOwned` | crates/throng-app/src/recovery.rs:182-305 | every tick and writer step keeps: a key will have a file if and only if it is written or adopted, and is never both |
| `RecoveryLaws.ExactlyOneFileEach` | crates/throng-app/src/recovery.rs:182-305 | so in every session without dropped histories draining the queue leaves exactly the files of the keys written or adopted |
| `RecoveryLaws.OrphanedExactly` | crates/throng-app/src/recovery.rs:182-305 | over every session, dropped histories included: a file is nobody's if and only if histories were dropped while it was written and it was not written since; otherwise the rule holds |
| `RecoveryLaws.LeftBehindExactly` | crates/throng-app/src/recovery.rs:182-255 | a tick that sees a document clean or closed leaves it a file if and only if histories were dropped while it was written and it was not written again before |
| `RecoveryLaws.OrphanStaysUntilWritten` | crates/throng-app/src/recovery.rs:182-255 | a file that is nobody's is in charge again exactly when its document is next written |
| `RecoveryLaws.WrittenHasLastWrite` | crates/throng-app/src/recovery.rs:182-227 | a key is written if and only if some tick wrote it and every tick since saw it unsaved and let it be |
| `RecoveryLaws.LastWriteHolds` | crates/throng-app/src/recovery.rs:182-227 | and then its file will hold that tick's text, under that tick's tag |
| `RecoveryLaws.WrittenIsSeen` | crates/throng-app/src/recovery.rs:182-241 | a written key's file will hold a text some tick saw under the tag it was written with |
| `RecoveryLaws.FlushKeepsEverything` | crates/throng-app/src/recovery.rs:182-241 | after a flush a dirty document's file will hold its current text, provided its tag never stood for two of its texts |
| `RecoveryLaws.FlushExactly` | crates/throng-app/src/recovery.rs:182-241 | from versions that go up with every change of the text: after a flush the file of a dirty document lacks its text if and only if it was last written while its file was deleted, one version ago, with another text |
| `RecoveryLaws.DeletedThenEditedOnceCollides` | crates/throng-app/src/recovery.rs:188-196 | tags can collide: deleted, back, edited once, and the file keeps the old text |
| `RecoveryLaws.WrittenAfterThePause` | crates/throng-app/src/recovery.rs:182-227 | in every session a dirty document that stays as it is, is written at the latest by the first tick 400 ms after one saw it, whatever ticks come between and even if histories are dropped, unless they are while it stands written and another change was noticed since |
| `RecoveryLaws.BackThenDropped` | crates/throng-app/src/recovery.rs:186-255 | that exception is real: a file seen deleted and then back, and histories dropped, make the rewriting wait anew |
| `RecoveryLaws.NotWrittenBefore` | crates/throng-app/src/recovery.rs:186-227 | and one that has just changed is not written sooner unless flushed |
| `RecoveryLaws.HistoriesStayDropped` | crates/throng-app/src/recovery.rs:250-320 | over every run, once histories are dropped and none is kept, no queued or later write brings one back |
| `RecoveryLaws.DroppingOrphans` | crates/throng-app/src/recovery.rs:182-255 | the tick right after dropping histories, flush or not, leaves a file nobody's if and only if it was written and its document is now clean, closed, or changed too short a while ago to be written |
| `RecoveryLaws.DroppedWhileTypingThenSaved` | crates/throng-app/src/app.rs:430-440 | the ordinary case: histories are dropped while one types, the document is then saved, and its file stays |
| `RecoveryLaws.OrphanStays` | crates/throng-app/src/recovery.rs:182-255 | such a file stays until its document is dirty again |
| `RecoveryLaws.WaitIsExact` | crates/throng-app/src/recovery.rs:213-227 | a wait is announced if and only if a document is yet to be written, and a later tick that still sees it as it is writes it if and only if the wait is over |
| `RecoveryLaws.OthersKeepContent` | crates/throng-app/src/recovery.rs:269-326 | only a job about a key changes text, language and wrap of its final record; stripping takes the history alone |
| `RecoveryLaws.LaunchContentStays` | crates/throng-app/src/recovery.rs:182-326 | over every run, a key no job was sent about since launch will have its launch record's text, language and wrap, and its history too if none was dropped |
| `RecoveryLaws.UnopenedIsSafe` | crates/throng-app/src/recovery.rs:182-326 | so a record of the last session is safe while its document is not open |
| `Search.Scan.Start` | crates/throng-app/src/file_search.rs:115-122 | a scan moves the generation on and gets a worker of its own tag |
| `Search.Scan.Cancel` | crates/throng-app/src/file_search.rs:125-127 | cancelling moves the generation on and nothing else |
| `Search.Scan.Step` | crates/throng-app/src/file_search.rs:136-197 | one action of one worker, anywhere between the others': the imperative steps are the transition of the system, whatever the panel shows |
| `Search.Scan.Poll` | crates/throng-app/src/file_search.rs:130-133 | messages of an older generation are dropped and the rest keep their order |
| `Search.SearchState.Run` | crates/throng-app/src/search_panel.rs:59-85 | searching again is that event of the system: what is shown is cleared and one scan starts, or none for an empty term |
| `Search.SearchState.Poll` | crates/throng-app/src/search_panel.rs:107-117 | polling is that event of the system: updates of the current scan are shown in order, and the others dropped |
| `SearchLaws.EveryReachedIsSound` | crates/throng-app/src/file_search.rs:113-197 | under every interleaving what is shown, on its way and with the current worker adds up to its walk, and no stale message can count |
| `SearchLaws.ResultsAreTheScansOwn` | crates/throng-app/src/search_panel.rs:59-117 | the results shown are always a prefix, in walk order, without loss or repetition, of the asked scan's own, all of them once it is done, and never more matches than the cap |
| `SearchLaws.FinishedScanShows` | crates/throng-app/src/search_panel.rs:107-117 | when the current worker has ended, polling everything shows its whole result and its end |
| `SearchLaws.WorkersEnd` | crates/throng-app/src/file_search.rs:136-197 | every action brings a worker nearer its end |
| `SearchLaws.ActAgrees` | crates/throng-app/src/file_search.rs:136-197 | a worker's action moves hits between walk, batch and queue without losing any |
| `SearchLaws.PollAgrees` | crates/throng-app/src/search_panel.rs:107-117 | taking the first updates leaves the rest in agreement |
| `SearchLaws.TalliedMatches` | crates/throng-app/src/file_search.rs:150-180 | the running total is the number of matches found, and stays within the cap |
| `ScanLaws.TallyIs` | crates/throng-app/src/file_search.rs:147-182 | of the first files of a walk, the hits joined are the first 20,000 of all their matches joined; each hit is a non-empty front of a visited file's matches under its own name, in order, and the files passed over are counted |
| `ScanLaws.StopIsLeast` | crates/throng-app/src/file_search.rs:177-182 | a scan stops at the first file at which the cap is reached, or at the end |
| `ScanLaws.WholeScanIs` | crates/throng-app/src/file_search.rs:136-197 | so a whole scan lists the first 20,000 matches of all its files |
| `ScanLaws.FirstMatchesAreShown` | crates/throng-app/src/search_panel.rs:59-117 | under every interleaving the panel shows the first matches of the walk asked for, and once it is done exactly those, with the counts of files searched and skipped |
| `ScanLaws.BatchesStaySmall` | crates/throng-app/src/file_search.rs:158-176 | every message of hits has less than 250 rows before its last file |
| `ScanLaws.OutdatedEnds` | crates/throng-app/src/file_search.rs:136-194 | a worker of an older generation ends within four actions |
| `SearchText.Snippet` | crates/throng-app/src/file_search.rs:239-266 | the excerpt of a row holds the match at the span returned, reaches from word edge to word edge around full context, within the slack and without leading white space, and has an ellipsis exactly where text was cut |
| `SearchText.ReachIsOne` | crates/throng-app/src/file_search.rs:239-266 | so both ends of the excerpt are determined by the line and the match |
| `SearchText.ReachMeans` | crates/throng-app/src/file_search.rs:239-266 | in figures: at least 40 characters on either side where the line has them, on to the edge of the word, at most 52, less leading white space |
| `SearchText.EllipsisMarksCuts` | crates/throng-app/src/file_search.rs:256-265 | an ellipsis stands in front if and only if something not white was left out there, and behind if and only if anything was |
| `SearchText.VerifiedEdits` | crates/throng-app/src/file_search.rs:270-286 | the edits are exactly those of the matches still there, in order, and every other one is counted |
| `SearchText.UnchangedRefusesNothing` | crates/throng-app/src/file_search.rs:270-286 | nothing is refused if and only if every match is where it was found |
| `SearchText.StillThere` | crates/throng-app/src/file_search.rs:270-286 | what is replaced is exactly the matches of which the text still has the characters at their place |
| `SearchText.EditsInOrder` | crates/throng-app/src/file_search.rs:270-286 | in their order, each by the replacement |
| `Paths.Key` | crates/throng-core/src/paths.rs:41-67 | the loop over segments yields the comparison key |
| `Paths.ResolveAll` | crates/throng-core/src/paths.rs:44-60 | the segment stack of a path |
| `PathLaws.SameIsSameNames` | crates/throng-core/src/paths.rs:70-73 | two spellings name one entry if and only if they start alike and resolve to the same folded names |
| `PathLaws.WithinIsPrefix` | crates/throng-core/src/paths.rs:76-88 | the string-prefix test holds if and only if both paths start alike and the ancestor's names are a prefix of the path's; nothing is within the empty key |
| `PathLaws.WithinIsOrder` | crates/throng-core/src/paths.rs:76-93 | so it is reflexive on every path with a key, transitive, antisymmetric up to identity, and two ancestors of one path overlap |
| `Paths.NormalComponents` | crates/throng-core/src/paths.rs:152-165 | the loop over components yields the names they resolve to |
| `PathLaws.ComponentsResolve` | crates/throng-core/src/paths.rs:152-165 | walking components and splitting at separators resolve alike |
| `Paths.JoinRelative` | crates/throng-core/src/paths.rs:189-195 | the joining loop |
| `PathLaws.RelativeJoinsBack` | crates/throng-core/src/paths.rs:143-195 | joining a path's relative form onto its root names the same entry, however the two were spelled |
| `PathLaws.JoinedIsRelative` | crates/throng-core/src/paths.rs:143-195 | and the relative form of a joined path is what was joined |
| `PathSpellings.RelativeInside` | crates/throng-core/src/paths.rs:143-150 | a path has a relative form if and only if it is within the root |
| `PathSpellings.JoinMeans` | crates/throng-core/src/paths.rs:189-195 | a segment is joined behind one slash, or takes the place of the path if it begins with one |
| `Paths.CopyName` | crates/throng-core/src/paths.rs:169-186 | the first candidate that is free, found for every finite set of taken names |
| `Paths.CandidatesDiffer` | crates/throng-core/src/paths.rs:169-186 | no two candidates are the same name |
| `Paths.DecimalInjective` | crates/throng-core/src/paths.rs:169-186 | different numbers are written differently |
| `PathSpellings.EitherSeparates` | crates/throng-core/src/paths.rs:41-47 | where names follow Windows, spellings that differ only in slashes and back slashes name the same entry |
| `PathSpellings.SegmentMeans` | crates/throng-core/src/paths.rs:44-60 | one more segment adds a folded name, takes the last one off if it is two dots, and changes nothing if it is empty or a dot |
| `PathSpellings.NameMeans` | crates/throng-core/src/paths.rs:41-67 | a single name is itself, folded |
| `PathSpellings.SiblingsAreSame` | crates/throng-core/src/paths.rs:70-73 | two names in one folder are one entry if and only if they fold alike |
| `Chars.ValueIs` | crates/throng-core/src/links.rs:186-188 | digits say their number in the decimal system |
| `PathSpellings.DecimalSays` | crates/throng-core/src/paths.rs:169-186 | digits say the number they were written for, without leading zeros |
| `PathSpellings.CopyOfNamed` | crates/throng-core/src/paths.rs:169-186 | the first copy of `stem.ext` is `stem copy.ext`, the next `stem copy 2.ext`, and so on |
| `PathSpellings.CopyOfUnnamed` | crates/throng-core/src/paths.rs:169-186 | and a name without an extension is all stem |
| `Transfers.PlanTransfer` | crates/throng-app/src/file_ops.rs:156-189 | each answer exactly when its rule says: every refusal, and nothing to do for a move into its own folder; a target is free, in the project, and never inside the source, for a copy when the disk has the source under every name that the rules take for its own |
| `Transfers.Lands` | crates/throng-app/src/file_ops.rs:156-189 | a name put into an allowed folder stays in the project and is inside the source only by being it |
| `Transfers.MovesOut` | crates/throng-app/src/file_ops.rs:156-189 | a move to another folder never lands on or inside the item |
| `Transfers.NameInParent` | crates/throng-app/src/file_ops.rs:172-175 | a path that ends in a name resolves to that name in its folder |
| `Transfers.SpelledResolves` | crates/throng-app/src/file_ops.rs:172-175 | a folder spelled from its components resolves to their names |
| `Transfers.FileNameIs` | crates/throng-app/src/file_ops.rs:172-175 | what stands behind the last slash is a path's name, unless it is dots |
| `Transfers.SameFolderMeans` | crates/throng-app/src/file_ops.rs:176-183 | a move stays where it is if and only if the item's names are the target's and its own |
| `Projects.AssertFolderExclusive` | crates/throng-core/src/project.rs:180-199 | succeeds if and only if no other project overlaps the folder, and otherwise names the first that does |
| `Projects.ProjectBook.Create` | crates/throng-core/src/project.rs:236-258 | a new project is appended under its new id, or the book is unchanged and the reason given |
| `Projects.ProjectBook.Update` | crates/throng-core/src/project.rs:261-276 | name, colour and root change and nothing else does |
| `Projects.ProjectBook.SetHidden` | crates/throng-core/src/project.rs:279-290 | the loop keeps each path once |
| `Projects.ProjectBook.SetActive` | crates/throng-core/src/project.rs:293-299 | only a project there is becomes active |
| `Projects.ProjectBook.Delete` | crates/throng-core/src/project.rs:303-310 | the book without that project; if its id was the active one, the id of the first left is |
| `Projects.ProjectBook.Reorder` | crates/throng-core/src/project.rs:313-319 | the project moves to its clamped place |
| `Projects.ProjectBook.OwnerOf` | crates/throng-core/src/project.rs:323-325 | the loop finds the first root that the path is within |
| `ProjectLaws.StepKeepsSound` | crates/throng-core/src/project.rs:236-325 | every operation keeps: ids differ, no two roots overlap, names and roots are valid, and some project is active exactly when there is one |
| `ProjectLaws.EveryBookIsSound` | crates/throng-core/src/project.rs:236-325 | so every book reachable from empty is that |
| `ProjectLaws.RefusalChangesNothing` | crates/throng-core/src/project.rs:236-319 | a refused operation changes nothing |
| `ProjectLaws.AtMostOneOwner` | crates/throng-core/src/project.rs:323-325 | at most one project contains a path |
| `ProjectLaws.OwnerIsWhoContains` | crates/throng-core/src/project.rs:323-325 | a project is the owner if and only if its root contains the path |
| `ProjectLaws.OwnerIgnoresOrder` | crates/throng-core/src/project.rs:313-325 | books with the same projects in any order agree on every owner |
| `ProjectLaws.CreateTakesNothing` | crates/throng-core/src/project.rs:236-258 | a new project owns exactly what its root contains, of which nobody owned any, and every other path keeps its owner |
| `ProjectLaws.OneProjectPerFolder` | crates/throng-core/src/project.rs:180-199 | a project's folder is refused to every new one under any spelling, and free once it is deleted |
| `ProjectLaws.UpdateSucceeds` | crates/throng-core/src/project.rs:261-276 | an edit is accepted if and only if it is valid, the project exists and no other project overlaps the root |
| `ProjectLaws.ReorderPermutes` | crates/throng-core/src/project.rs:313-319 | reordering is a permutation that keeps the others' order |
| `ProjectLaws.HiddenAreDistinct` | crates/throng-core/src/project.rs:279-290 | hidden paths are exactly the non-empty ones given, each once; doing it twice changes nothing |
| `ProjectEffects.ColourSays` | crates/throng-core/src/project.rs:90-110 | `#rrggbb` is the colour whose number its six digits are |
| `ProjectEffects.ShortColour` | crates/throng-core/src/project.rs:90-110 | `#rgb` is `#rrggbb` |
| `ProjectEffects.ColourExactly` | crates/throng-core/src/project.rs:90-110 | and nothing else is a colour |
| `ProjectEffects.InputExactly` | crates/throng-core/src/project.rs:157-177 | an input is accepted if and only if each field is good, and then trimmed; otherwise the first bad field is named |
| `ProjectEffects.CreateDoes` | crates/throng-core/src/project.rs:236-258 | a created project is the last, with the input's name, colour and root, nothing hidden, and active if none was |
| `ProjectEffects.UpdateDoes` | crates/throng-core/src/project.rs:261-276 | an update changes one project's name, colour, root and time to those given, and nothing else |
| `ProjectEffects.SetHiddenDoes` | crates/throng-core/src/project.rs:279-290 | hiding changes one project's hidden paths and time |
| `ProjectEffects.FirstSeenFirst` | crates/throng-core/src/project.rs:279-290 | hidden paths stay in the order in which they were first given |
| `ProjectEffects.SetActiveDoes` | crates/throng-core/src/project.rs:293-299 | the project asked for is active afterwards, and nothing else changes |
| `ProjectEffects.DeleteDoes` | crates/throng-core/src/project.rs:303-310 | a deleted project is gone and the others stay; where it was active, the first of them now is |
| `ProjectEffects.ReorderDoes` | crates/throng-core/src/project.rs:313-319 | a reordered project is at the place asked for, or the last, and the others keep their order |
| `ProjectEffects.CreateIsAnswered` | crates/throng-core/src/project.rs:180-258 | creating is refused for a bad field, then for the first project in the way, which is named, and else never |
| `ProjectEffects.UpdateIsAnswered` | crates/throng-core/src/project.rs:180-276 | and so is an update, its own project aside, and last for an unknown id |
| `ProjectEffects.UnknownIsRefused` | crates/throng-core/src/project.rs:261-319 | an id of no project is refused as such, and only that |
| `Chords.Parse` | crates/throng-core/src/keymap.rs:39-62 | the loop over modifiers yields the chord, or none |
| `Chords.ParsedIsToken` | crates/throng-core/src/keymap.rs:39-103 | every chord that parses has a key in normal form |
| `Chords.PrintedParsesBack` | crates/throng-core/src/keymap.rs:39-118 | a chord comes back from its printed form if and only if its key is in normal form |
| `Chords.ParsedPrintsBack` | crates/throng-core/src/keymap.rs:39-118 | so printing a parsed chord and parsing again gives it back |
| `KeyNames.ModifierIsRead` | crates/throng-core/src/keymap.rs:39-62 | a modifier's word, in any case, adds just that modifier: six words the command key, three the alternate one, `shift` itself, and no other word any |
| `KeyNames.LoneKeyIsRead` | crates/throng-core/src/keymap.rs:39-62 | a key alone has no modifier |
| `KeyNames.KeyNameIs` | crates/throng-core/src/keymap.rs:74-103 | a short name is read as the key it stands for, each to its own |
| `KeyNames.LoneCharacterIs` | crates/throng-core/src/keymap.rs:74-103 | a single character is its capital |
| `Keymaps.Keymap.ReadAll` | crates/throng-core/src/keymap.rs:312-353 | exactly the commands for which the file has a list are read from it, in whatever order its entries come |
| `Keymaps.Keymap.ReadList` | crates/throng-core/src/keymap.rs:339-349 | a list yields its chords that parse, are allowed and are not there yet |
| `Keymaps.Keymap.WriteInto` | crates/throng-core/src/keymap.rs:359-379 | the loop over commands writes the file |
| `Keymaps.Keymap.Lookup` | crates/throng-core/src/keymap.rs:393-395 | the first command of the table that is live there and has the chord |
| `Keymaps.Keymap.Conflicts` | crates/throng-core/src/keymap.rs:399-407 | the ids of all rivals that have the chord, in the order of the table |
| `Keymaps.Keymap.Bind` | crates/throng-core/src/keymap.rs:426-437 | the chord is taken from every conflicting command and added once |
| `Keymaps.Keymap.Unbind` | crates/throng-core/src/keymap.rs:439-443 | the chord is removed |
| `Keymaps.Keymap.Reset` | crates/throng-core/src/keymap.rs:445-449 | the command has its defaults |
| `KeymapLaws.ReadIsStorable` | crates/throng-core/src/keymap.rs:339-349 | whatever a file holds, no refused chord and no chord twice is read from it |
| `KeymapLaws.ReadsBackExactly` | crates/throng-core/src/keymap.rs:312-379 | a list comes back from the file if and only if it has no chord twice, none refused and none parsing cannot make |
| `KeymapLaws.WriteThenParse` | crates/throng-core/src/keymap.rs:312-379 | a keymap written over any file reads back as itself if and only if each of its lists is the default or such a list |
| `KeymapLaws.ParsedWritesBack` | crates/throng-core/src/keymap.rs:312-379 | so what was read from any file survives being written over any other |
| `KeymapLaws.ChangesReadBack` | crates/throng-core/src/keymap.rs:312-449 | and so does whatever binding allowed chords, unbinding and resetting make of it, in any number and order, when the defaults can be stored |
| `KeymapLaws.WritingKeepsTheRest` | crates/throng-core/src/keymap.rs:359-379 | every other entry of the file, unknown commands included, is kept |
| `KeymapEffects.FileIsRead` | crates/throng-core/src/keymap.rs:312-353 | a list in the file's `bindings` is read for its command; whatever else stands there, or nothing, leaves the defaults |
| `KeymapEffects.ListHas` | crates/throng-core/src/keymap.rs:339-349 | a list gives exactly the chords of its texts that parse and are not refused |
| `KeymapEffects.ListGrows` | crates/throng-core/src/keymap.rs:339-349 | in their order |
| `KeymapEffects.FieldsAreKept` | crates/throng-core/src/keymap.rs:359-379 | writing over an object keeps each of its fields and adds a version if it has none |
| `KeymapEffects.NothingElseIsWritten` | crates/throng-core/src/keymap.rs:359-379 | over anything else it writes a version and the bindings alone |
| `KeymapEffects.BindingsAreWritten` | crates/throng-core/src/keymap.rs:359-379 | the written bindings have the list of each command that is not at its defaults, and the old entries of all other names |
| `KeymapLaws.LookupIsUnique` | crates/throng-core/src/keymap.rs:393-395 | where no chord is ambiguous a lookup finds a command if and only if it is live there and has the chord |
| `KeymapEffects.LookupIsFirst` | crates/throng-core/src/keymap.rs:393-395 | where one is, the first command of the table is found |
| `KeymapEffects.ConflictsInOrder` | crates/throng-core/src/keymap.rs:399-407 | the commands in a chord's way share a scope and have it, in the table's order |
| `KeymapLaws.BoundChords` | crates/throng-core/src/keymap.rs:426-437 | after binding, the command has the chord, its rivals do not, and nothing else changed |
| `KeymapLaws.BindThenLookup` | crates/throng-core/src/keymap.rs:393-437 | after binding, the chord runs that command in all its scopes |
| `KeymapLaws.BindLeavesOtherChords` | crates/throng-core/src/keymap.rs:393-437 | and every other chord runs what it ran, everywhere |
| `KeymapLaws.BindKeepsUnambiguous` | crates/throng-core/src/keymap.rs:426-437 | binding keeps one command for each chord and scope |
| `KeymapLaws.UnbindKeepsUnambiguous` | crates/throng-core/src/keymap.rs:439-443 | so does unbinding, and the chord then runs nothing there |
| `KeymapLaws.ResetKeepsUnambiguous` | crates/throng-core/src/keymap.rs:445-449 | resetting does if and only if none of the defaults conflicts |
| `KeymapEffects.RemoveKeepsOrder` | crates/throng-core/src/keymap.rs:439-443 | a chord taken out leaves the others in their order |
| `KeymapEffects.BoundAtTheEnd` | crates/throng-core/src/keymap.rs:426-437 | a chord is bound behind the command's others |
| `KeymapEffects.UnboundDoes` | crates/throng-core/src/keymap.rs:439-443 | and unbound from the one command asked for |
| `KeymapEffects.ResetDoes` | crates/throng-core/src/keymap.rs:445-449 | a reset changes one command, and an unknown id nothing |
| `KeymapLaws.ResetCanClash` | crates/throng-core/src/keymap.rs:445-449 | a concrete case in which it does not |
| `KeyNames.RefusedExactly` | crates/throng-core/src/keymap.rs:267-295 | which chords a command is refused: the interface's own keys without a modifier and, off the Mac, the terminal's letters with Ctrl for a command live there |
| `KeyNames.ShadowableExactly` | crates/throng-core/src/keymap.rs:267-295 | and which are only told apart |
| `NaturalOrder.NaturalCmp` | crates/throng-app/src/explorer.rs:802-840 | the character loop equals comparing token sequences, digit runs by value and other characters by lower-case form |
| `NaturalOrder.DigitRun` | crates/throng-app/src/explorer.rs:811-820 | the longest run of digits from a place |
| `NaturalOrder.RunsCompareByValue` | crates/throng-app/src/explorer.rs:821-828 | lengths without leading zeros, then digits, is the order of the numbers, however long |
| `NaturalOrder.OrderIsTotal` | crates/throng-app/src/explorer.rs:802-840 | turning the names around turns the answer around, and names tie if and only if their tokens are equal |
| `NaturalOrder.OrderIsTransitive` | crates/throng-app/src/explorer.rs:802-840 | the order is transitive, ties included |
| `NaturalOrder.FrontIsIgnored` | crates/throng-app/src/explorer.rs:802-840 | what two names begin with alike plays no part |
| `NaturalOrder.ShorterComesFirst` | crates/throng-app/src/explorer.rs:806-809 | a name that ends first comes first |
| `NaturalOrder.NumbersByValue` | crates/throng-app/src/explorer.rs:811-828 | numbers in the same place compare by value |
| `NaturalOrder.LettersByForm` | crates/throng-app/src/explorer.rs:829-838 | other characters by their lower-case form |
| `NaturalOrder.NumberOrLetter` | crates/throng-app/src/explorer.rs:829-838 | and a number with a character by that form |
| `NaturalOrder.FormsLikeWords` | crates/throng-app/src/explorer.rs:829-838 | forms compare as words do in a dictionary |
| `Links.Find` | crates/throng-core/src/links.rs:38-59 | the loops find the quoted links and the unquoted ones between them, in order |
| `Links.Quoted` | crates/throng-core/src/links.rs:84-106 | the loop over quotes |
| `LinkLaws.FoundAreSpans` | crates/throng-core/src/links.rs:38-154 | links are never empty, in bounds, left to right and disjoint; a file's path is never empty and holds no control character |
| `LinkLaws.LinksSayTheirSpans` | crates/throng-core/src/links.rs:38-182 | a web or scheme target is the very text of its span, an email address behind `mailto:`, a file the path and position its span reads as, decoded behind `file:`; and no link ends in punctuation that trimming drops but in quotes |
| `LinkLaws.LinksMayLead` | crates/throng-core/src/links.rs:27-182 | every web address found begins with `http://` or `https://` and has more behind it, and every other address has one of the allowed schemes |
| `LinkLaws.QuotedAreApart` | crates/throng-core/src/links.rs:84-106 | quoted links are apart, lead to files, and each stands right behind its quote |
| `LinkLaws.TokenIsApart` | crates/throng-core/src/links.rs:38-59 | a token cannot reach into a quoted link |
| `Links.FileUriPath` | crates/throng-core/src/links.rs:273-294 | what it yields is never empty and free of control characters |
| `Links.TrimmedEnd` | crates/throng-core/src/links.rs:158-182 | trimming stops exactly where the last character belongs to the link |
| `Links.PercentDecode` | crates/throng-core/src/links.rs:316-335 | the decoding loop (section 2.1 of RFC 3986) |
| `LinkLaws.PlainDecodesToItself` | crates/throng-core/src/links.rs:316-335 | text without a percent sign decodes to itself |
| `LinkLaws.DecodingAddsNoAsciiControl` | crates/throng-core/src/links.rs:316-335 | decoding brings in no ASCII control character |
| `LinkLaws.OtherControlsDecode` | crates/throng-core/src/links.rs:316-335 | but it can bring in another one, which the path check then refuses |
| `LinkLaws.OnlySafeTargets` | crates/throng-core/src/links.rs:64-81 | an explicit link is a web address with something behind its scheme, an allowed scheme or a file, never with a control character |
| `LinksFound.ExplicitWeb` | crates/throng-core/src/links.rs:64-81 | an explicit web address leads to itself, if there is anything behind its scheme |
| `LinksFound.ExplicitScheme` | crates/throng-core/src/links.rs:64-81 | one with an allowed scheme to itself |
| `LinksFound.ExplicitFile` | crates/throng-core/src/links.rs:64-81 | a file's address to the path and position read from it, and nowhere if there are none |
| `LinksFound.NothingElseLeads` | crates/throng-core/src/links.rs:64-81 | and nothing else anywhere |
| `LinkReading.LineAndColumn` | crates/throng-core/src/links.rs:200-214 | `path:line:column` is read as that path, line and column, whatever the path holds |
| `LinkReading.LineOnly` | crates/throng-core/src/links.rs:200-214 | `path:line` as that path and line, unless the path is a single byte or ends in a number itself |
| `LinkReading.LineInBrackets` | crates/throng-core/src/links.rs:189-199 | `path(line)` as that path and line |
| `LinkReading.InBrackets` | crates/throng-core/src/links.rs:189-199 | `path(line,column)` as that path, line and column, which is left out if it is no number |
| `LinkReading.NothingBefore` | crates/throng-core/src/links.rs:210-213 | a number with nothing before it is a path |
| `LinkReading.NoPosition` | crates/throng-core/src/links.rs:185-214 | and everything else is all path |
| `LinkReading.BytesCount` | crates/throng-core/src/links.rs:70-251 | lengths are counted in bytes of UTF-8 |
| `LinkReading.EscapedDecodes` | crates/throng-core/src/links.rs:316-335 | a text of which any characters are written as escapes of their bytes, in either case, decodes to itself |
| `LinkReading.BadEscapeIsRefused` | crates/throng-core/src/links.rs:316-335 | a percent sign not followed by two hexadecimal digits, or by those of an ASCII control character, spoils the whole text |
| `LinkReading.LocalAddress` | crates/throng-core/src/links.rs:273-294 | a file's address with no host, or this machine's, names its path, without the slash before a drive |
| `LinkReading.NetworkAddress` | crates/throng-core/src/links.rs:273-294 | one with another host names the path on that host |
| `LinkReading.BareAddress` | crates/throng-core/src/links.rs:273-294 | one without slashes before its host names its path |
| `LinkReading.UndecodedAddress` | crates/throng-core/src/links.rs:273-294 | and one that does not decode names nothing |
| `Chars.TrimIs` | crates/throng-core/src/links.rs:65 | trimming takes white space off both ends and nothing else |
| `Chars.CasesAre` | crates/throng-core/src/links.rs:69 | ASCII lower case, letter by letter |
| `Chars.ControlsAre` | crates/throng-core/src/links.rs:66-68 | the control characters, which no path or target has, are two blocks of 32 and DEL |
| `LinkReading.BreaksPart` | crates/throng-core/src/links.rs:32-34 | tokens are parted by white space, listed character by character, by quotes, angle brackets, bars and ASCII controls |
| `LinkReading.DropsExactly` | crates/throng-core/src/links.rs:158-182 | what is dropped from a token's end: a stop, a closing bracket with too few opening ones, a mark of emphasis |
| `LinksFound.Trims` | crates/throng-core/src/links.rs:109-182 | opening brackets at the front and what does not belong at the end are trimmed off, one by one, and nothing else |
| `LinksFound.TokenIsFound` | crates/throng-core/src/links.rs:38-59 | what a token leads to is found, unless it stands in quotes that hold a path |
| `LinksFound.SlashedIsFound` | crates/throng-core/src/links.rs:38-106 | and if the token holds `://`, always |
| `LinksFound.SchemeIsSeen` | crates/throng-core/src/links.rs:114-133 | a scheme in any case is recognised |
| `LinksFound.StaysSchemeless` | crates/throng-core/src/links.rs:114-141 | and none is where there is none |
| `LinksFound.WebSlashes` | crates/throng-core/src/links.rs:115-119 | a token with a web address holds `://` |
| `LinksFound.WebLeads` | crates/throng-core/src/links.rs:115-119 | and leads to that address |
| `LinksFound.AddressIsRead` | crates/throng-core/src/links.rs:120-126 | a file's address is read as a path and a position |
| `LinksFound.AddressLeads` | crates/throng-core/src/links.rs:120-126 | and leads there |
| `LinksFound.SchemeLeads` | crates/throng-core/src/links.rs:127-134 | an address with an allowed scheme leads to itself |
| `LinksFound.EmailLeads` | crates/throng-core/src/links.rs:259-269 | an email address leads to itself behind `mailto:` |
| `LinksFound.LooksLikeNames` | crates/throng-core/src/links.rs:220-256 | what reads as a path, in terms of its characters alone |
| `LinksFound.PathIsRead` | crates/throng-core/src/links.rs:145-153 | such a text is a file link to the path and position it names |
| `LinksFound.PathLeads` | crates/throng-core/src/links.rs:145-153 | and a token without a scheme leads there |
| `LinksFound.PairIsFound` | crates/throng-core/src/links.rs:84-106 | what any pair of quotes holds is found, pairs being made from the left |
| `LinksFound.QuotedLeads` | crates/throng-core/src/links.rs:84-106 | if there is a space in it and no `://`, and it reads as a path |
| `LinksFound.FilesAreRead` | crates/throng-core/src/links.rs:38-154 | no file link is found that does not read so |
| `LinksFound.PathLinkNames` | crates/throng-core/src/links.rs:220-256 | and what reads as a path names a file |
| `LinksFound.FileLinkReads` | crates/throng-core/src/links.rs:273-294 | what reads as an address says its path and position |
| `LinksFound.OtherSchemeLeadsNowhere` | crates/throng-core/src/links.rs:135-141 | a token with any other scheme leads nowhere |
| `LinksFound.LetterIsNoScheme` | crates/throng-core/src/links.rs:135-141 | but a drive's letter is no scheme |
| `LinksFound.NothingStartsThere` | crates/throng-core/src/links.rs:38-141 | and no link starts in it |
| `Markdown.Autolink` | crates/throng-app/src/markdown.rs:668-702 | the loop over inlines |
| `Markdown.LinkOne` | crates/throng-app/src/markdown.rs:668-699 | one inline: its text is linked if it is neither code nor a link already |
| `Markdown.LinkText` | crates/throng-app/src/markdown.rs:681-699 | the moving cursor over one text |
| `Markdown.AutolinkConserves` | crates/throng-app/src/markdown.rs:668-702 | every character with its style, and everything that is not text, is kept in order |
| `Markdown.PiecesShowLinks` | crates/throng-app/src/markdown.rs:681-699 | every linked piece shows a link that was found and leads where it does |
| `Markdown.AutolinkIsSafe` | crates/throng-app/src/markdown.rs:668-702 | what linking adds to a paragraph leads to the web or to an allowed scheme |
| `Markdown.AddressesAreShown` | crates/throng-app/src/markdown.rs:681-699 | and every address found is linked |
| `Markdown.AddressIsLinked` | crates/throng-app/src/markdown.rs:668-702 | wherever in a paragraph plain text holds a web or scheme link, that becomes a link in the text's style |
| `Markdown.OthersStay` | crates/throng-app/src/markdown.rs:668-702 | code, links, images and line breaks stay as and where they are |
| `Markdown.PlainStays` | crates/throng-app/src/markdown.rs:681-699 | and so does text in which only paths are found |
| `Preview.PreviewState.FollowDocument` | crates/throng-app/src/preview.rs:143-174 | when a changed document is shown, and how long until the next look |
| `Preview.PreviewState.SyncWith` | crates/throng-app/src/preview.rs:338-375 | one call of the scroll sync |
| `PreviewLaws.LineComesBack` | crates/throng-app/src/preview.rs:306-330 | going to a line and asking for the line gives it back if and only if it starts a block or lies in one that another follows at least a point below |
| `PreviewLaws.EveryLineComesBack` | crates/throng-app/src/preview.rs:306-330 | with blocks a point apart, every line from the first to the last block's comes back |
| `PreviewLaws.OffsetsAscend` | crates/throng-app/src/preview.rs:306-315 | going to lines keeps their order |
| `PreviewLaws.OffsetAndLineBelongTogether` | crates/throng-app/src/preview.rs:306-330 | a line's place is at or above an offset if and only if the line is not past that offset's |
| `PreviewLaws.ShownLinesAscend` | crates/throng-app/src/preview.rs:319-330 | a lower offset never shows an earlier line, above the first block and between blocks of any height |
| `PreviewLaws.RequestsBringInStep` | crates/throng-app/src/preview.rs:338-375 | whichever side leads, once its request is met asking for the line at the preview's place gives the line the editor shows |
| `PreviewLaws.NoRequestIsClose` | crates/throng-app/src/preview.rs:348-360 | an editor that leads without a request is within half a point of its line's place |
| `PreviewLaws.SidesSettle` | crates/throng-app/src/preview.rs:338-375 | however asked-for moves land, with an editor in view at most one is asked for and none from the third call on; in any case none from the fourth |
| `PreviewLaws.CalmStays` | crates/throng-app/src/preview.rs:338-375 | once nothing is to be done nothing is asked for again |
| `PreviewLaws.LateEditorTakesTwo` | crates/throng-app/src/preview.rs:338-375 | an editor that comes into view in answer does take the one more round |
| `PreviewLaws.ReaderLeads` | crates/throng-app/src/preview.rs:362-372 | a reader who scrolls by more than half a point to another line takes the editor to that line, and the answer is awaited |
| `PreviewLaws.SomeLineIsThere` | crates/throng-app/src/preview.rs:319-330 | of which there always is one |
| `PreviewLaws.EditorLeads` | crates/throng-app/src/preview.rs:348-361 | an editor that moves, or whose document is drawn anew, takes the preview to its line if that is more than half a point away |
| `PreviewLaws.NoPlaceForLine` | crates/throng-app/src/preview.rs:306-309 | a line before the first block moves nothing |
| `PreviewLaws.AnswerIsTaken` | crates/throng-app/src/preview.rs:343-349 | an awaited answer is taken as it comes |
| `PreviewLaws.NothingToDo` | crates/throng-app/src/preview.rs:338-375 | and otherwise nothing happens |
| `PreviewLaws.NothingWaitsTooLong` | crates/throng-app/src/preview.rs:143-174 | however often a document changes, an unshown change is younger than the wait and the last one younger than the delay, and the next look comes in time |
| `PreviewLaws.DueMeansShown` | crates/throng-app/src/preview.rs:143-174 | looking again when told to shows it |
| `PreviewLaws.AtOnce` | crates/throng-app/src/preview.rs:151-160 | a first showing and a refresh do not wait, and what is shown is not drawn again |
| `PreviewLaws.ShownExactlyWhenDue` | crates/throng-app/src/preview.rs:161-174 | over every run of looks, a changed document is drawn if and only if it has been as it is for the delay or the waiting has lasted for the limit |
| `QuickOpen.Rank` | crates/throng-app/src/quick_open.rs:45-87 | the loops yield the ranking |
| `QuickOpen.FindChars` | crates/throng-app/src/quick_open.rs:36-41 | the first place of a needle that is not empty, and none if and only if there is none |
| `QuickOpen.NameStart` | crates/throng-app/src/quick_open.rs:57 | behind the last separator, of which none follows |
| `QuickOpenLaws.TermHitIs` | crates/throng-app/src/quick_open.rs:62-66 | a term is found if and only if the path holds it: first in the name if it is there, else first in the path |
| `QuickOpenLaws.ScoredExactly` | crates/throng-app/src/quick_open.rs:56-82 | a file is ranked if and only if its path holds every term, and each term has its span |
| `QuickOpenLaws.NameHitsCount` | crates/throng-app/src/quick_open.rs:71-81 | files rank by how many terms their name holds, and then by a place that tells name hits from folder hits |
| `QuickOpenLaws.EarliestIsLeast` | crates/throng-app/src/quick_open.rs:66-81 | that place is the least of the terms' places |
| `QuickOpenLaws.SortedIsRanking` | crates/throng-app/src/quick_open.rs:54-85 | the sorted list holds every match once, each strictly better than the next, ties by index |
| `QuickOpenLaws.TermsAreWords` | crates/throng-app/src/quick_open.rs:46 | the terms of a query are its words, folded: every longest run without white space, once and in order; there is none if and only if the query is blank |
| `QuickOpenLaws.BestAreShown` | crates/throng-app/src/quick_open.rs:45-87 | for every query that is not blank, what is shown is the best of the ranking of all files that hold every one of its words, at most 200, and the flag says exactly whether there are more |
| `QuickOpenRanks.FoldedIs` | crates/throng-app/src/quick_open.rs:28-34 | a character is folded to its lower-case form where that is one character |
| `QuickOpenRanks.MatchMeans` | crates/throng-app/src/quick_open.rs:54-70 | the files that match are those that are visible, or all asked for, whose folded path has every term's characters in a row somewhere |
| `QuickOpenRanks.PlaceIs` | crates/throng-app/src/quick_open.rs:62-76 | the place a term gives a path: its first in the name, counted from there, or else its first in the path, counted behind all that |
| `QuickOpenRanks.NamedAre` | crates/throng-app/src/quick_open.rs:66-72 | the terms in the name are counted |
| `QuickOpenRanks.OneNameStart` | crates/throng-app/src/quick_open.rs:57 | the name is what stands behind the last slash |
| `QuickOpenRanks.ScoreIsPaths` | crates/throng-app/src/quick_open.rs:55-82 | a file is ranked by the score of its folded path |
| `QuickOpenRanks.SomePlace` | crates/throng-app/src/quick_open.rs:61-76 | which has a least place |
| `QuickOpenRanks.BetterMeans` | crates/throng-app/src/quick_open.rs:83-85 | of two files the one with more terms in its name comes first, then the one with the earlier least place, then the one earlier in the list |
| `QuickOpenRanks.AtMostTwoHundred` | crates/throng-app/src/quick_open.rs:83-87 | at most 200 of a ranking are shown, and the flag says whether there are more |
| `QuickOpenRanks.FirstAreShown` | crates/throng-app/src/quick_open.rs:48-53 | with nothing typed, the first 200 visible files in the list's order |
| `QuickOpenLaws.BlankShowsAll` | crates/throng-app/src/quick_open.rs:48-53 | and for a blank one, the first 200 visible files |
| `QuickOpenLaws.SpansAreTheTerms` | crates/throng-app/src/quick_open.rs:77-81 | a hit's spans are the terms' own, left to right |
| `QuickOpenLaws.AllInOrder` | crates/throng-app/src/quick_open.rs:48-54 | with nothing typed, the visible files in the index's order |
| `QuickOpenLaws.CaseOfPathIsIgnored` | crates/throng-app/src/quick_open.rs:28-34 | paths that differ only in case, as far as it is one character, are scored and marked alike |
| `QuickOpenLaws.CaseOfQueryIsIgnored` | crates/throng-app/src/quick_open.rs:28-46 | and so are queries |

## Left out

- TextCodec.Encode: the edit script is any longest matching of equal lines, not the Myers algorithm itself; a law about written text holds for each of them.
- Editor.Document.SaveTo: the target's bytes are replaced at once or not at all; temporary files, indentation, highlighting, views and the caret are not modelled.
- Editor.Document.CheckDisk: the metadata, the bytes and the metadata after reading may differ in any way, but one check reads the bytes once.
- FileOps.Disk.Rename: a rename that only changes the case of a name on a disk that ignores case is treated like any other and meets the item itself; links are not modelled, paths are resolved.
- FileOpsLaws.ThereAndBack: a delete the trash cannot give back is never recorded by the caller, so a run holds none.
- Recoveries.Recovery.Tick: file names are the keys themselves; the FNV hash is taken to be injective on the keys in use, and an adopted record to be at its own target.
- Recoveries.Folder.Writer: a write or delete that fails on disk, the JSON of a record, the size limit of its history, `load_all`, `reconcile` and `forget` are not modelled.
- RecoveryLaws.FlushExactly: versions go up with every change of the text as long as every tick sees the document unsaved (`crates/throng-editor/src/doc.rs:69-73`); a document closed and opened again between two ticks, whose version starts anew, is left out.
- Search.Scan.Step: the files of a walk and the matches in each are given with the scan; walking folders, opening files, the query language, and when a batch is due by the clock are not modelled.
- SearchText.VerifiedEdits: matches are character ranges of the text; reading and writing the files edited is left out.
- Paths.Key: case folding and Unicode normalisation act name by name and never make or remove a separator; what they do to a name is given.
- Paths.NormalComponents: components are those of a Unix path, so relative paths and transfers are stated for rules whose separators are slashes only; drive letters and UNC prefixes are not modelled.
- Paths.CopyName: the counter is unbounded; the source's has 32 bits.
- Transfers.PlanTransfer: refusals carry no message texts.
- Projects.ProjectBook.Create: identifiers are numbers given by the caller, new where the laws say so; an absolute root is one that starts with a slash; printing colours and their luminance are left out.
- Chords.Parse: upper-casing a key is ASCII only.
- Keymaps.Keymap.ReadAll: the file is a JSON value whose text has been parsed; messages about what was skipped are left out, and the command table is any table with distinct ids.
- NaturalOrder.NaturalCmp: the lower-case form of a character is given; it is not empty, and only digits' forms begin with a digit.
- Links.Find: letters, alphanumerics and the lower-case form of a text are given; the Windows spelling of drive paths is left out.
- Preview.PreviewState.SyncWith: offsets are exact real numbers, not 32-bit floating point, and blocks ascend where the laws are about them.
- Preview.PreviewState.FollowDocument: following a file on disk, images and drawing are left out.
- QuickOpen.Rank: the lower-case form of a character is given; the cache of the last ranking is left out.
- The dock, sub-workspaces, settings, notices, themes, updates, the terminal daemon and its protocol, and the editor's rope, history and layout.
