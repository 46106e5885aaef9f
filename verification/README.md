# Print queue manager: a verified model

The print queue manager is a small file browser for a print or laser-cutting
queue. It lists a directory and hides entries that are already done, that are
hidden by their name, or whose extension is in neither configured format list.
Opening a directory enters it, and Back and Forward walk a path history.
Opening a file classifies it as a part file or a laser file and offers the
applications configured for that kind. Starting one of those applications
copies the file into a `.complete` folder beside it, which hides the file from
then on.

This project restates that logic in Dafny as pure functions over an abstract
filesystem and proves properties about it.

- The filesystem is a map from each directory's path to its entries, in
  listing order. A path is a directory when it is a non-empty key of the map;
  the empty key is the working directory that relative paths resolve against.
  A path is a file when it is not a key and its directory lists its base name.
- Paths follow POSIX `posixpath`: `dirname`, `basename` and `join` are written
  out in full.
- The configuration files are parameters. The format lists come in already
  parsed into their tokens; `Settings.FormatsOf` states how each file's text is
  parsed. The application list and the home path come in as text.

| file | module | models |
|---|---|---|
| `wrappers.dfy` | `Wrappers` | `Option` and `Result` |
| `seqs.dfy` | `Seqs` | order-preserving sub-sequences |
| `strings.dfy` | `Strings` | Python's `in`, `startswith`, `endswith`, `split` and `join` on one character; newline removal and character replacement |
| `paths.dfy` | `Paths` | `os.path.dirname`, `basename` and `join` |
| `classifier.dfy` | `Classifier` | `check_special_notations`, `format_whitelisted`, `file_sort_type` |
| `filesystem.dfy` | `FileSystem` | `os.listdir`, `os.mkdir`, `shutil.copy2`, `opened_file_status`, `copy_to_complete` |
| `lister.dfy` | `Lister` | the filter loop of `update_contents` and its fallback directory |
| `navigation.dfy` | `Navigation` | `go_back`, `go_forward`, `go_home`, the hidden-items toggle |
| `apps.dfy` | `Apps` | `application_options` |
| `settings.dfy` | `Settings` | `home_path`, reading the format lists, the save rule of the list editors |
| `browser.dfy` | `Browser` | `open_path` and `run_application` |

## Model

| member | source | states |
|---|---|---|
| Strings.Contains | print-queue-enhancement-project/src/directory_movements.py:39 | Python's `t in s` holds exactly when `t` occurs at some position of `s`; the empty string occurs everywhere |
| Strings.Split | print-queue-enhancement-project/src/print-queue-manager.py:118 | `s.split(sep)` yields one field more than there are separators, no field contains the separator, and joining the fields gives `s` back (so `"".split(",") == [""]`) |
| Strings.SplitOfJoin | print-queue-enhancement-project/src/print-queue-manager.py:424 | splitting a joined list of separator-free fields gives the fields back: `split` and `join` are inverse |
| Strings.CleanNewline | print-queue-enhancement-project/src/print-queue-manager.py:117 | the cleaned text holds no newline, keeps every other character, is unchanged when it had no newline, and is shorter by the number of newlines; it is an order-preserving sub-sequence of the text, so it is exactly the text's other characters in their order |
| Strings.ReplaceChar | print-queue-enhancement-project/src/print-queue-manager.py:50 | `replace` of one character keeps the length, puts the new character at every position of the old one, keeps every other character in place, and changes nothing when the character is absent |
| Paths.Basename | print-queue-enhancement-project/src/directory_movements.py:58 | `shutil.copy2` names the copy after the source's base name: the separator-free tail after the last separator, or the whole path when there is none |
| Paths.DirnameShape | print-queue-enhancement-project/src/directory_movements.py:51 | `dirname` is a prefix of the path followed only by separators up to the base name; it is empty exactly when the path has no separator, and otherwise canonical or the root |
| Paths.PathJoin | print-queue-enhancement-project/src/directory_movements.py:52 | an absolute second part is returned as it is; a relative one follows the first part, with exactly one separator between them unless the first part is empty or already ends in one (then nothing is inserted) |
| Paths.JoinSplitsBack | print-queue-enhancement-project/src/print-queue-manager.py:166 | `dirname` and `basename` of `join(dir, name)` give back `dir` and `name` for a canonical directory and a separator-free name |
| Paths.DirnameOfJoinedName | print-queue-enhancement-project/src/directory_movements.py:51-52 | a name joined onto `dirname(p)` lies in that same directory |
| Classifier.IsSpecial | print-queue-enhancement-project/src/print-queue-manager.py:134-140 | a name is special exactly when it starts with `.` or ends with `~` |
| Classifier.FormatWhitelisted | print-queue-enhancement-project/src/print-queue-manager.py:111-131 | the result is true exactly when NO part or laser token is a suffix of the name: the sense is inverted |
| Classifier.FileSortType | print-queue-enhancement-project/src/directory_movements.py:33-47 | part file exactly when some part token occurs anywhere in the path; laser file exactly when no part token does and some laser token does; otherwise nothing |
| Classifier.EmptyPartTokenMatchesEverything | print-queue-enhancement-project/src/directory_movements.py:37-40 | an empty part token classifies every path as a part file |
| Classifier.EmptyTokenWhitelistsEverything | print-queue-enhancement-project/src/print-queue-manager.py:119-129 | an empty token in either list whitelists every name |
| Classifier.ParentDirectoryTokenClassifies | print-queue-enhancement-project/src/directory_movements.py:39 | a part token that occurs only in the directory still classifies every file joined under it |
| Classifier.WhitelistedIsClassified | print-queue-enhancement-project/src/print-queue-manager.py:111-131 | a name with a whitelisted suffix, joined under any directory, always gets a file kind |
| Classifier.LaserSuffixCanClassifyAsPart | print-queue-enhancement-project/src/directory_movements.py:38-47 | `bracket.stl.svg` with part `.stl` and laser `.svg` is listed for its laser suffix but classified as a part file |
| FileSystem.ListDir | print-queue-enhancement-project/src/print-queue-manager.py:149 | listing succeeds exactly on directories and yields their entries; the empty path is not a directory; a file, or a path that runs through a file, gives `NotADirectory`; any other path gives `NotFound` |
| FileSystem.OpenedFileStatus | print-queue-enhancement-project/src/print-queue-manager.py:102-105 | an entry is complete exactly when `dir/.complete` is a directory that lists it as a file and not as a sub-directory; a missing folder means not complete |
| FileSystem.Mkdir | print-queue-enhancement-project/src/directory_movements.py:55 | creation succeeds exactly when the path is not empty, nothing exists at it and its parent is a directory; it adds one empty directory, lists it in its parent and changes no other directory |
| FileSystem.Copy2 | print-queue-enhancement-project/src/directory_movements.py:58 | copying to an existing path (into it when a directory, over it when a file) succeeds exactly when the source is a file, is not its own target, and the target is not a directory; only the destination directory's listing changes, by the source's base name |
| FileSystem.CopyToComplete | print-queue-enhancement-project/src/directory_movements.py:50-58 | succeeds exactly when the path is a file and either a file sits where `.complete` goes (the copy overwrites it) or no directory sits where the copy goes; afterwards the base name is in `.complete`; the folder is the only possible new directory, is created only when absent, and no other directory changes; after a success the copy's place in the folder is not a directory |
| FileSystem.CopyToCompleteIdempotent | print-queue-enhancement-project/src/directory_movements.py:53-58 | a second `copy_to_complete` of the same path changes nothing, creates no second folder and reports the same outcome |
| FileSystem.CompleteFolderOfEntry | print-queue-enhancement-project/src/directory_movements.py:51-52 | for an entry of a canonical directory, the folder `copy_to_complete` writes is the folder `opened_file_status` reads |
| FileSystem.CopyThenStatus | print-queue-enhancement-project/src/print-queue-manager.py:102-105 | after a successful `copy_to_complete` of `dir/item`, `item` is complete and no other entry's status has changed |
| FileSystem.CopyToCompleteParentListing | print-queue-enhancement-project/src/directory_movements.py:54-55 | the file's own directory listing changes at most by the appended `.complete` folder |
| Lister.Shown | print-queue-enhancement-project/src/print-queue-manager.py:158-170 | with hidden items shown every entry gets a button; otherwise exactly the entries that are not complete, not special, and a directory or ending in some format |
| Lister.FilterEntries | print-queue-enhancement-project/src/print-queue-manager.py:157-170 | the displayed entries are an order-preserving sub-sequence of the listing holding exactly the entries that pass the filter, each as often as the listing holds it |
| Lister.ShowHiddenKeepsAll | print-queue-enhancement-project/src/print-queue-manager.py:159-170 | with hidden items shown the filter returns the listing unchanged, order and duplicates included |
| Lister.ListingOf | print-queue-enhancement-project/src/print-queue-manager.py:157-178 | the buttons of one directory: a sub-sequence of its entries, all of them when hidden items are shown, otherwise exactly the entries that pass the three tests |
| Lister.UpdateContents | print-queue-enhancement-project/src/print-queue-manager.py:147-153 | a current path that is a directory is listed; one that is a file or runs through a file is a `NotADirectory` error; any other path, the empty path included, falls back to the fallback directory, which is an error when that is no directory either |
| Navigation.Start | print-queue-enhancement-project/src/print-queue-manager.py:31-37 | the session starts with an empty history and hidden items off; the current path starts at the home path (line 554) |
| Navigation.GoBack | print-queue-enhancement-project/src/print-queue-manager.py:371-374 | Back moves to `dirname` of the current path, a prefix of it; it keeps the old history in front and appends one entry, so the history ends with the new current path |
| Navigation.GoForward | print-queue-enhancement-project/src/print-queue-manager.py:376-385 | Forward drops exactly the last history entry and moves to a path from the history, leaving the history ending in the current path; with no history nothing changes |
| Navigation.GoTo | print-queue-enhancement-project/src/print-queue-manager.py:367-369 | Home, like entering a directory from `open_path`, changes only the current path; the history is left as it was |
| Navigation.ToggleHidden | print-queue-enhancement-project/src/print-queue-manager.py:199-206 | the toggle flips the hidden-items flag and touches nothing else |
| Navigation.ForwardUndoesBack | print-queue-enhancement-project/src/print-queue-manager.py:371-385 | from a session whose history ends in the current path, Forward after Back restores the session exactly |
| Navigation.ForwardAfterBackRestoresHistory | print-queue-enhancement-project/src/print-queue-manager.py:371-385 | Forward after Back always restores the history; from an empty history it stays in the parent directory |
| Navigation.ForwardTimesDrops | print-queue-enhancement-project/src/print-queue-manager.py:376-385 | `n` Forward presses on a history of at least `n` entries leave its first `length - n` entries |
| Apps.SelectLines | print-queue-enhancement-project/src/print-queue-manager.py:411-415 | the offered lines are exactly the lines containing the tag, in file order |
| Apps.SelectLinesKeepsRepeats | print-queue-enhancement-project/src/print-queue-manager.py:411-415 | a line containing the tag is offered as many times as it occurs, and no other line at all |
| Apps.ParseChoice | print-queue-enhancement-project/src/print-queue-manager.py:424-426 | a line yields a choice exactly when it has at least two commas; the name and executable hold no comma; otherwise the error names the line |
| Apps.ParseChoiceOfFields | print-queue-enhancement-project/src/print-queue-manager.py:424-426 | a line written as `<kind>,<name>,<executable>` gives back that name and executable |
| Apps.ParseAll | print-queue-enhancement-project/src/print-queue-manager.py:423-426 | all lines parse, one choice per line in order, or the error is the first line that lacks a field |
| Apps.CleanLines | print-queue-enhancement-project/src/print-queue-manager.py:411-413 | removing newlines from the lines of a newline split changes nothing |
| Apps.ApplicationOptions | print-queue-enhancement-project/src/print-queue-manager.py:407-426 | the chooser fails exactly when some line containing the tag has fewer than three fields; otherwise it holds one choice per line containing the tag, parsed from that line, in file order |
| Apps.SingleLineList | print-queue-enhancement-project/src/print-queue-manager.py:409-415 | a one-line list that contains the tag and parses offers exactly that line's choice |
| Apps.TagMatchedAnywhere | print-queue-enhancement-project/src/print-queue-manager.py:414 | a line is offered when the tag occurs in its application name, whatever kind its first field names |
| Settings.ParseFormats | print-queue-enhancement-project/src/print-queue-manager.py:115-118 | a format list reads as at least one comma-free token; the tokens joined with commas give the text without its newlines |
| Settings.FormatsRoundTrip | print-queue-enhancement-project/src/directory_movements.py:34-37 | a list written as comma-separated tokens without commas or newlines reads back as those tokens |
| Settings.FormatsOf | print-queue-enhancement-project/src/directory_movements.py:34-44 | each list is its own file's text with newlines removed, split at commas, and the tokens joined with commas give that text back |
| Settings.EmptyPartListMatchesEverything | print-queue-enhancement-project/src/directory_movements.py:34-40 | an empty part list classifies every path as a part file and whitelists every name |
| Settings.TrailingCommaMatchesEverything | print-queue-enhancement-project/src/directory_movements.py:37-40 | a stray trailing comma in the part list classifies every path as a part file |
| Settings.HomePath | print-queue-enhancement-project/src/print-queue-manager.py:46-54 | the configured home path is the file's text with every backslash turned into `/` and then every newline removed, so it holds neither; without the file it is the fallback |
| Settings.HomePathConvertsSeparators | print-queue-enhancement-project/src/print-queue-manager.py:50-52 | a configured path without line breaks keeps its length; each backslash becomes `/` in place and every other character stays |
| Settings.SaveConfig | print-queue-enhancement-project/src/print-queue-manager.py:221-227 | the Save button's rule: the stored text is replaced by the edited text exactly when the edit differs from what was loaded and is not empty; otherwise the stored text stays |
| Settings.SaveNeverEmpties | print-queue-enhancement-project/src/print-queue-manager.py:224 | saving never empties a non-empty list |
| Settings.SaveThenReload | print-queue-enhancement-project/src/print-queue-manager.py:221-261 | after saving a non-empty text with the Save button, reopening the editor shows that text without newlines, and saving it again with the button writes nothing |
| Settings.SaveByShortcut | print-queue-enhancement-project/src/print-queue-manager.py:265-267 | Ctrl-S as written (also lines 314-316 and 362-364): every non-empty edit is written, changed or not; an empty edit keeps the stored text |
| Settings.ShortcutRewritesUnchanged | print-queue-enhancement-project/src/print-queue-manager.py:250-267 | Ctrl-S on an untouched editor rewrites a stored text that has line breaks into the text without them, where the Save button keeps it |
| Settings.ShortcutExample | print-queue-enhancement-project/src/print-queue-manager.py:250-267 | a stored `.stl,.3mf` plus newline, saved unchanged with Ctrl-S, becomes `.stl,.3mf`; the Save button keeps it |
| Settings.ShortcutAgreesOnChanges | print-queue-enhancement-project/src/print-queue-manager.py:221-267 | when the edit differs from the loaded text, Ctrl-S and the Save button write the same |
| Browser.OpenPath | print-queue-enhancement-project/src/print-queue-manager.py:61-71 | a directory (never the empty path) is entered and listed without a history entry; any other path opens the chooser exactly when some format token occurs in it, for the kind `file_sort_type` gives it, with that kind's options |
| Browser.ShownFileOffersApps | print-queue-enhancement-project/src/print-queue-manager.py:166-174 | every file the listing shows opens the application chooser when clicked |
| Browser.RunApplication | print-queue-enhancement-project/src/print-queue-manager.py:185-188 | the filesystem is the one `copy_to_complete` leaves; a refreshed listing follows only a successful copy and lists a directory; no directory disappears; after a successful copy from a current directory, that directory is listed |
| Browser.BackFromRelativeFolderFallsBack | print-queue-enhancement-project/src/print-queue-manager.py:371-374 | Back from a relative folder such as `Downloads` reaches the empty path, and the refreshed listing is the fallback directory's |
| Lister.FilterLosesItem | print-queue-enhancement-project/src/print-queue-manager.py:157-170 | a filter that agrees with another except that it also rejects one name yields the other's result without that name, in the same order |
| Browser.ListingLosesOnly | print-queue-enhancement-project/src/print-queue-manager.py:157-170 | when one entry becomes complete and the directory gains at most the `.complete` folder, the listing is the old one without that entry, in the same order and with the same repeats |
| Browser.OpenedFileDisappears | print-queue-enhancement-project/src/print-queue-manager.py:185-188 | after an application is started on an entry of the current directory, the refreshed listing is the previous one without that entry: the same entries in the same order, with every occurrence of that one removed |

## Findings

| source | as written | input that shows it | evidently intended | confidence | as-written member | corrected member |
|---|---|---|---|---|---|---|
| print-queue-enhancement-project/src/print-queue-manager.py:265-267 | the Ctrl-S binding of each list editor (also lines 314-316 and 362-364) passes its lambda to `bind`; Tk calls it with the key event, which replaces the default argument meant to hold the loaded text, so `old != new` always holds | the part-format file holds `.stl,.3mf` and a newline; open the editor and press Ctrl-S without editing: the file is rewritten as `.stl,.3mf` | Ctrl-S saves like the Save button: only an edit that differs from the loaded text and is not empty is written | not executed; high | Settings.SaveByShortcut, with Settings.ShortcutRewritesUnchanged | Settings.SaveConfig, with Settings.SaveThenReload |

## Left out

- The Tk window is not modelled: widgets, canvas geometry, scrolling, menus, the address-bar placeholder and the settings windows. It is user interface only.
- Starting programs is not modelled: `subprocess.Popen` in `run_application` and `os.system` in `open_file_manager` only start external processes, and their outcome never reaches the program's state.
- Reading and writing the configuration files is not modelled. Their contents are parameters, and `config_home_path` only writes what a dialog returns.
- `utils/clean.py` is not part of this model. `Strings.CleanNewline` assumes `clean_newline` removes every newline character.
- `utils/truncate.py` is not part of this model. Truncating button labels affects display only.
- `os.path.expanduser` in `go_home` and `fallback_home_path` depends on the environment. The home and fallback paths are parameters.
- `file_sort` in `directory_movements.py` is legacy code that calls an undefined `move_to_complete`, so it is not modelled.
- Windows paths (`ntpath`) are not modelled. Paths follow `posixpath`.
- The filesystem records names only. File contents, metadata copied by `copy2`, permissions and other `OSError`s are not modelled.
- Paths are map keys as written, with no normalisation. The lemmas relating `copy_to_complete` to `opened_file_status` therefore assume a canonical directory: non-empty and without a trailing separator.
- FileSystem.OpenedFileStatus: looks only at the files directly in the `.complete` folder. `os.walk` also reports files in its sub-folders. The program itself creates such a sub-folder only when an application is started on a file inside a `.complete` folder the user has opened, by the hidden-items toggle or by typing its path, and then the file is already in the folder above. Sub-folders made by other means can change the answer.
- FileSystem.CopyToComplete: its success condition is stated only for files not themselves named `.complete`. Without path normalisation, such a file (say `a//.complete`) and its completion folder `a/.complete` are different keys although they name the same file.
- Apps.ApplicationOptions: models the failure as an error result. The program has already opened the chooser window when it fails, and buttons for earlier lines stay on screen.
- Browser.RunApplication: models only the copy and the refresh. Closing the chooser window is user interface.
