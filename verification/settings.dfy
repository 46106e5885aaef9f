/** The configuration files of print-queue-manager.py: the home path, the two format lists and the
    rule by which the three list editors write back what was typed. */
module Settings {
  import opened Wrappers
  import opened Strings
  import opened Classifier

  /** Reading a format list (`part-file-formats.txt`, `laser-file-formats.txt`): newlines are
      removed and the rest is split at commas. */
  function ParseFormats(text: string): (tokens: seq<string>)
    ensures |tokens| >= 1
    ensures forall i :: 0 <= i < |tokens| ==> ',' !in tokens[i]
    ensures Join(tokens, ',') == CleanNewline(text)
  {
    Split(CleanNewline(text), ',')
  }

  /** A list written as comma-separated tokens without commas or newlines reads back as those
      tokens. */
  lemma FormatsRoundTrip(tokens: seq<string>)
    requires |tokens| >= 1
    requires forall i :: 0 <= i < |tokens| ==> ',' !in tokens[i] && '\n' !in tokens[i]
    ensures ParseFormats(Join(tokens, ',')) == tokens
  {
    JoinAvoids(tokens, ',', '\n');
    SplitOfJoin(tokens, ',');
  }

  /** The formats both lists configure: each file is read and split on its own. */
  function FormatsOf(partText: string, laserText: string): (f: Formats)
    ensures f.part == ParseFormats(partText) && f.laser == ParseFormats(laserText)
    ensures Join(f.part, ',') == CleanNewline(partText) && Join(f.laser, ',') == CleanNewline(laserText)
  {
    Formats(ParseFormats(partText), ParseFormats(laserText))
  }

  /** An empty part list is read as the single empty token, so every path is classified as a part
      file and every name counts as whitelisted. */
  lemma EmptyPartListMatchesEverything(laserText: string, path: string, item: string)
    ensures FileSortType(path, FormatsOf("", laserText)) == Some(PartFile)
    ensures !FormatWhitelisted(item, FormatsOf("", laserText))
  {
    var f := FormatsOf("", laserText);
    assert f.part == [""];
    EmptyPartTokenMatchesEverything(path, f);
    EmptyTokenWhitelistsEverything(item, f);
  }

  /** A stray trailing comma in the part list adds the empty token, with the same effect. */
  lemma TrailingCommaMatchesEverything(tokens: seq<string>, laserText: string, path: string)
    requires |tokens| >= 1
    requires forall i :: 0 <= i < |tokens| ==> ',' !in tokens[i] && '\n' !in tokens[i]
    ensures FileSortType(path, FormatsOf(Join(tokens + [""], ','), laserText)) == Some(PartFile)
  {
    TrailingCommaReadsEmptyToken(tokens);
    EmptyPartTokenMatchesEverything(path, FormatsOf(Join(tokens + [""], ','), laserText));
  }

  /** The list written with a trailing comma reads back as its tokens followed by the empty one. */
  lemma TrailingCommaReadsEmptyToken(tokens: seq<string>)
    requires |tokens| >= 1
    requires forall i :: 0 <= i < |tokens| ==> ',' !in tokens[i] && '\n' !in tokens[i]
    ensures ParseFormats(Join(tokens + [""], ',')) == tokens + [""]
    ensures "" in ParseFormats(Join(tokens + [""], ','))
  {
    var written := tokens + [""];
    assert forall i :: 0 <= i < |tokens| ==> written[i] == tokens[i];
    FormatsRoundTrip(written);
    assert written[|tokens|] == "";
  }

  /** `home_path`: the configured path with backslashes turned into slashes and newlines removed,
      or the fallback when no home-path file exists. */
  function HomePath(configured: Option<string>, fallback: string): (home: string)
    ensures configured.None? ==> home == fallback
    ensures configured.Some? ==> '\\' !in home && '\n' !in home
    ensures configured.Some? ==> home == CleanNewline(ReplaceChar(configured.value, '\\', '/'))
    ensures configured.Some? && '\\' !in configured.value ==> home == CleanNewline(configured.value)
  {
    match configured
    case None => fallback
    case Some(text) => CleanNewline(ReplaceChar(text, '\\', '/'))
  }

  /** A configured home path without line breaks keeps its length and layout: each backslash
      becomes a slash, and every other character stays where it was. */
  lemma HomePathConvertsSeparators(text: string, fallback: string)
    requires '\n' !in text
    ensures |HomePath(Some(text), fallback)| == |text|
    ensures forall i :: 0 <= i < |text| ==>
      HomePath(Some(text), fallback)[i] == if text[i] == '\\' then '/' else text[i]
  {
  }

  /** The save rule of the three list editors: the stored file is overwritten with the edited
      text only when that text differs from what the editor loaded and is not empty. */
  function SaveConfig(loaded: string, edited: string, stored: string): (saved: string)
    ensures saved == stored || saved == edited
    ensures saved != stored ==> edited != loaded && edited != ""
    ensures edited != loaded && edited != "" ==> saved == edited
  {
    if loaded != edited && edited != "" then edited else stored
  }

  /** The Ctrl-S binding of the three list editors, as written. Tk calls a bound callback with
      the key event as its one argument, so the event takes the place of the loaded text that the
      callback's default argument was meant to supply, and an event never equals the edited text.
      Every non-empty edit is written, changed or not. */
  function SaveByShortcut(edited: string, stored: string): (saved: string)
    ensures edited != "" ==> saved == edited
    ensures edited == "" ==> saved == stored
  {
    if edited != "" then edited else stored
  }

  /** Ctrl-S on an untouched editor rewrites a stored text that has line breaks: the file loses
      its newlines, where the Save button leaves it as it was. */
  lemma ShortcutRewritesUnchanged(stored: string)
    requires '\n' in stored && CleanNewline(stored) != ""
    ensures SaveConfig(CleanNewline(stored), CleanNewline(stored), stored) == stored
    ensures SaveByShortcut(CleanNewline(stored), stored) == CleanNewline(stored) != stored
  {
  }

  /** The smallest such file: `.stl,.3mf` followed by a newline, saved unchanged with Ctrl-S,
      becomes `.stl,.3mf`. */
  lemma ShortcutExample()
    ensures var stored := ".stl,.3mf\n";
      SaveByShortcut(CleanNewline(stored), stored) == ".stl,.3mf" &&
      SaveConfig(CleanNewline(stored), CleanNewline(stored), stored) == stored
  {
    var stored := ".stl,.3mf\n";
    assert stored == ".stl,.3mf" + "\n";
    assert '\n' !in ".stl,.3mf";
    CleanNewlineAppend(".stl,.3mf", "\n");
  }

  /** When the edit differs from what was loaded, Ctrl-S and the Save button write the same. */
  lemma ShortcutAgreesOnChanges(loaded: string, edited: string, stored: string)
    requires edited != loaded
    ensures SaveByShortcut(edited, stored) == SaveConfig(loaded, edited, stored)
  {
  }

  /** Saving never empties a non-empty file. */
  lemma SaveNeverEmpties(loaded: string, edited: string, stored: string)
    requires stored != ""
    ensures SaveConfig(loaded, edited, stored) != ""
  {
  }

  /** The editor loads the stored text with newlines removed. Whatever non-empty text is saved,
      the editor opened again shows that text with newlines removed; saving the same text a
      second time writes nothing more. */
  lemma SaveThenReload(edited: string, stored: string)
    requires edited != ""
    ensures CleanNewline(SaveConfig(CleanNewline(stored), edited, stored)) == CleanNewline(edited)
    ensures var saved := SaveConfig(CleanNewline(stored), edited, stored);
      SaveConfig(CleanNewline(saved), edited, saved) == saved
  {
    var loaded := CleanNewline(stored);
    var saved := SaveConfig(loaded, edited, stored);
    assert CleanNewline(loaded) == loaded;
    if saved != edited {
      assert edited == loaded;
    }
  }
}
