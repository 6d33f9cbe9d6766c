/** What words are read as modifiers and keys, and which chords are not a command's to have. */
module KeyNames {
  import opened Outcome
  import opened Pieces
  import opened Chars
  import opened Chords
  import opened Keymaps

  /** The words for the command key, */
  const COMMAND_WORDS: seq<string> := ["ctrl", "control", "cmd", "command", "meta", "super"]

  /** and for the alternate one. */
  const ALTERNATE_WORDS: seq<string> := ["alt", "option", "opt"]

  lemma {:induction false} WordMeans(m: Modifiers, part: string)
    ensures WithModifier(m, part) ==
      if Lower(part) in COMMAND_WORDS then Some(Modifiers(true, m.shift, m.alt))
      else if Lower(part) == "shift" then Some(Modifiers(m.ctrl, true, m.alt))
      else if Lower(part) in ALTERNATE_WORDS then Some(Modifiers(m.ctrl, m.shift, true))
      else None
  {
  }

  lemma {:induction false} OneWord(word: string)
    requires word != "" && '+' !in word && Trimmed(word)
    ensures ReadModifiers(Split(word, '+')) == WithModifier(NONE, word)
  {
    SplitPlain(word, '+');
    assert [word][..0] == [];
    TrimmedStays(word);
  }

  /** A modifier's word in front of a key: read in any case, and nothing but these words. */
  lemma {:induction false} ModifierIsRead(word: string, key: string)
    requires word != "" && '+' !in word && Trimmed(word) && IsToken(key) && key != "+"
    ensures ParseChord(word + "+" + key) ==
      if Lower(word) in COMMAND_WORDS then Some(Chord(true, false, false, key))
      else if Lower(word) == "shift" then Some(Chord(false, true, false, key))
      else if Lower(word) in ALTERNATE_WORDS then Some(Chord(false, false, true, key))
      else None
  {
    var token := word + ['+'] + key;
    assert token[0] == word[0] && token[|token| - 1] == key[|key| - 1];
    TrimmedStays(token);
    KeyHalves(word, key);
    OneWord(word);
    WordMeans(NONE, word);
    TrimmedStays(key);
    assert word + "+" + key == token;
  }

  /** A key alone. */
  lemma {:induction false} LoneKeyIsRead(key: string)
    requires key != "" && Trimmed(key) && ('+' in key ==> key == "+")
    ensures ParseChord(key) == if IsKey(key) then Some(Chord(false, false, false, NormaliseKey(key))) else None
  {
    TrimmedStays(key);
    LoneHalves(key);
    SplitPlain("", '+');
    assert [""][..0] == [];
  }

  /** The short names of keys, and what they are short for. */
  const SHORT_NAMES: seq<(string, string)> := [
    ("esc", "Escape"), ("return", "Enter"), ("del", "Delete"), ("up", "ArrowUp"), ("down", "ArrowDown"),
    ("left", "ArrowLeft"), ("right", "ArrowRight"), ("pgup", "PageUp"), ("pgdn", "PageDown"), ("pgdown", "PageDown"),
    ("space", "Space"), ("spacebar", "Space")
  ]

  predicate IsShort(word: string) {
    exists i :: 0 <= i < |SHORT_NAMES| && SHORT_NAMES[i].0 == word
  }

  lemma {:induction false} AliasIs(word: string)
    ensures IsShort(word) <==> Alias(word) != ""
    ensures forall i :: 0 <= i < |SHORT_NAMES| && SHORT_NAMES[i].0 == word ==> Alias(word) == SHORT_NAMES[i].1
  {
    assert SHORT_NAMES[0].0 == "esc" && SHORT_NAMES[1].0 == "return" && SHORT_NAMES[2].0 == "del";
    assert SHORT_NAMES[3].0 == "up" && SHORT_NAMES[4].0 == "down" && SHORT_NAMES[5].0 == "left";
    assert SHORT_NAMES[6].0 == "right" && SHORT_NAMES[7].0 == "pgup" && SHORT_NAMES[8].0 == "pgdn";
    assert SHORT_NAMES[9].0 == "pgdown" && SHORT_NAMES[10].0 == "space" && SHORT_NAMES[11].0 == "spacebar";
  }

  /** A short name, in any case, is read as what it is short for; any other name keeps its letters but for
      a capital first. */
  lemma {:induction false} KeyNameIs(key: string)
    requires |key| > 1
    ensures forall i :: 0 <= i < |SHORT_NAMES| && SHORT_NAMES[i].0 == Lower(key) ==> NormaliseKey(key) == SHORT_NAMES[i].1
    ensures !IsShort(Lower(key)) ==> NormaliseKey(key) == [ToAsciiUpper(key[0])] + key[1..]
  {
    AliasIs(Lower(key));
  }

  /** A single character is its capital. */
  lemma {:induction false} LoneCharacterIs(c: char)
    ensures NormaliseKey([c]) == [if 'a' <= c <= 'z' then (c as int - 32) as char else c]
  {
    assert [c][1..] == [];
  }

  /** The letters that belong to a terminal together with the command key, */
  const TERMINALS_OWN: seq<string> := ["C", "D", "Z", "A", "E", "W", "U", "K", "R", "L", "Q"]

  /** and the keys that alone belong to the interface. */
  const INTERFACES_OWN: seq<string> := ["Escape", "Space", "Enter", "Tab", "Backspace"]

  /** A command is refused exactly the interface's keys without a modifier and, if it is live in terminals and
      this is no Mac, the terminal's letters with the command key and no other. */
  lemma {:induction false} RefusedExactly(command: Command, mac: bool, c: Chord)
    ensures Refused(command, mac, c) <==>
      (!c.ctrl && !c.shift && !c.alt && c.key in INTERFACES_OWN) ||
      (Terminal in command.scopes && !mac && c.ctrl && !c.shift && !c.alt && c.key in TERMINALS_OWN)
  {
  }

  /** The letters a terminal would miss less are not refused but told apart. */
  lemma {:induction false} ShadowableExactly(c: Chord, mac: bool)
    ensures TerminalTier(c, mac) == Shadowable <==>
      !mac && c.ctrl && !c.shift && !c.alt && c.key in ["B", "F", "N", "P", "H", "S"]
  {
    assert forall x: string, y: string :: |x| == 1 && |y| == 1 && x[0] != y[0] ==> x != y;
  }
}
