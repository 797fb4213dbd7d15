/** The musical key picker: reading and writing key strings such as
    "F# minor", and which piano sample plays each note. */
module Keys {
  import opened Wrappers
  import Text

  /** The seventeen note names, sharps and flats both spelled out. */
  const Notes: seq<string> := [
    "C", "C#", "Db", "D", "D#", "Eb", "E", "F", "F#", "Gb",
    "G", "G#", "Ab", "A", "A#", "Bb", "B"
  ]

  datatype Mode = Major | Minor {
    function Name(): string {
      match this
      case Major => "major"
      case Minor => "minor"
    }
  }

  datatype Key = Key(note: string, mode: Mode)

  /** Every note name is one or two characters, starts with a letter from
      A to G and holds no space. */
  lemma NotesShape(n: string)
    requires n in Notes
    ensures 1 <= |n| <= 2 && 'A' <= n[0] <= 'G' && ' ' !in n
  {
  }

  /** `parseKey`: None for a missing or empty string; otherwise the trimmed
      string must split on single spaces into exactly a known note and a
      mode, the mode in any letter case. */
  function ParseKey(keyString: Option<string>): (r: Option<Key>)
    ensures keyString.None? || keyString == Some("") ==> r.None?
    ensures r.Some? ==> r.value.note in Notes
  {
    if keyString.None? || keyString.value == "" then None
    else
      var parts := Text.Split(Text.TrimSpace(keyString.value), ' ');
      if |parts| != 2 then None
      else
        var note := parts[0];
        var mode := Text.ToLower(parts[1]);
        if note !in Notes then None
        else if mode == "major" then Some(Key(note, Major))
        else if mode == "minor" then Some(Key(note, Minor))
        else None
  }

  /** `formatKey`: note, one space, mode. */
  function FormatKey(k: Key): (s: string)
    ensures Text.HasSuffix(s, k.mode.Name())
  {
    k.note + " " + k.mode.Name()
  }

  /** Formatting and then parsing gives the key back, for every note and
      mode. */
  lemma ParseFormat(k: Key)
    requires k.note in Notes
    ensures ParseKey(Some(FormatKey(k))) == Some(k)
  {
    NotesShape(k.note);
    var s := FormatKey(k);
    var m := k.mode.Name();
    assert s[0] == k.note[0];
    assert s[|s| - 1] == 'r';
    Text.TrimSpaceNoOp(s);
    assert s == k.note + [' '] + m;
    Text.SplitPrefixWord(k.note, m, ' ');
    Text.SplitOfWordOnly(m, ' ');
    assert Text.ToLower(m) == m;
  }

  /** What a parsed key was read from: the trimmed input is the note, one
      space and the mode in some letter case. */
  lemma ParsedShape(s: string)
    requires ParseKey(Some(s)).Some?
    ensures var k := ParseKey(Some(s)).value;
            var t := Text.TrimSpace(s);
            exists m :: t == k.note + " " + m && Text.ToLower(m) == k.mode.Name()
  {
    var t := Text.TrimSpace(s);
    var parts := Text.Split(t, ' ');
    Text.SplitJoin(t, ' ');
    assert Text.Join(parts, " ") == parts[0] + " " + parts[1] by {
      assert parts[1..] == [parts[1]];
    }
    var k := ParseKey(Some(s)).value;
    assert t == k.note + " " + parts[1];
  }

  /** The parse is canonical: formatting what was parsed and parsing again
      gives the same key. */
  lemma ParseIsCanonical(s: string)
    requires ParseKey(Some(s)).Some?
    ensures ParseKey(Some(FormatKey(ParseKey(Some(s)).value))) == ParseKey(Some(s))
  {
    ParseFormat(ParseKey(Some(s)).value);
  }

  // ---------------------------------------------------------------------------
  // Piano samples

  datatype NoteConfig = NoteConfig(soundFile: string, semitoneOffset: int)

  const C3 := "/piano/piano-c3.mp3"
  const E3 := "/piano/piano-e3.mp3"
  const A3 := "/piano/piano-a3.mp3"

  /** `getNoteConfig`'s table: the sample each note is played from and
      how many semitones it is shifted. */
  const NoteConfigs: map<string, NoteConfig> := map[
    "C" := NoteConfig(C3, -1), "C#" := NoteConfig(C3, 0), "Db" := NoteConfig(C3, 0),
    "D" := NoteConfig(C3, 1), "D#" := NoteConfig(C3, 2), "Eb" := NoteConfig(C3, 2),
    "E" := NoteConfig(E3, -1), "F" := NoteConfig(E3, 0), "F#" := NoteConfig(E3, 1),
    "Gb" := NoteConfig(E3, 1), "G" := NoteConfig(E3, 2), "G#" := NoteConfig(E3, 3),
    "Ab" := NoteConfig(E3, 3), "A" := NoteConfig(A3, 0), "A#" := NoteConfig(A3, 1),
    "Bb" := NoteConfig(A3, 1), "B" := NoteConfig(A3, 2)
  ]

  /** The sharp and flat spelling of each black key. */
  const BlackKeyGroups: seq<(string, string)> := [("C#", "Db"), ("D#", "Eb"), ("F#", "Gb"), ("G#", "Ab"), ("A#", "Bb")]

  function GetNoteConfig(note: string): (c: NoteConfig)
    requires note in Notes
    ensures c.soundFile in {C3, E3, A3} && -1 <= c.semitoneOffset <= 3
  {
    NoteConfigs[note]
  }

  /** Every note has a sample and nothing else does. */
  lemma ConfigsCoverNotes()
    ensures NoteConfigs.Keys == set n | n in Notes
  {
  }

  /** The two spellings of a black key sound the same. */
  lemma EnharmonicsShareConfig(i: nat)
    requires i < |BlackKeyGroups|
    ensures BlackKeyGroups[i].0 in Notes && BlackKeyGroups[i].1 in Notes
    ensures GetNoteConfig(BlackKeyGroups[i].0) == GetNoteConfig(BlackKeyGroups[i].1)
  {
  }
}
