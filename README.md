# Ignore-pattern engine of the SquirrelDisk scanner, in Dafny

SquirrelDisk is a disk-usage scanner. Before it descends into or counts a
filesystem entry, it asks an ignore configuration whether the path should be
skipped. The configuration is an ordered list of `(pattern, enabled)` entries.
The user lists, adds, removes and toggles entries through four commands.
This project models that engine and proves what it does:

- `Strings` (strings.dfy): the standard string operations the matcher uses,
  with their Rust meaning: `ends_with`, `replace('\\', "/")` and
  `split('/')` (empty pieces included). It also defines `starts_with`, which
  the matcher does not use; only the lemma `Glob.LiteralThenStar` states a
  property with it.
- `Glob` (glob.dfy): the hand-written glob matcher. `GlobMatches` is the
  recursive specification. `GlobMatch` is the cursor loop that calls itself
  at a non-final `*`, as the source does. It is proved equal to
  `GlobMatches`, which is in turn compared with textbook glob
  (`TextbookMatches`).
- `Ignore` (ignore.dfy): an `IgnorePattern` entry and the three-strategy
  path matcher (`PathMatches`, implemented by `MatchesPattern`). It also holds
  the `IgnoreConfig` class, whose `ShouldIgnore` returns the OR over the
  enabled entries (`Ignored`).
- `Commands` (commands.dfy): the list logic of the `get`/`add`/`remove`/
  `toggle` commands, as methods that change `IgnoreConfig.patterns`. Each
  method is specified by a function on the list (`Retained`, `Toggled`),
  and lemmas state the properties of those functions.

The matcher is modelled as written, not as textbook glob. A `*` that is not
the last pattern character tries only the split points where text remains.
So `""` does not match `"**"`, and `"a"` does not match `"a**"`
(`Glob.DoubleStarDiverges`). For every pattern without two adjacent stars,
the matcher agrees exactly with textbook glob
(`Glob.GlobIsTextbookWithoutDoubleStar`).

The glob strategies use the pattern as the user wrote it. Only the suffix
test normalises the pattern's backslashes. So a pattern that contains a
backslash can select a path only through the suffix test
(`Ignore.BackslashPatternOnlyBySuffix`).

Three facts about the code shape the model:
- Pattern strings may be empty. The backend accepts `""`; only the settings
  screen (src/components/Settings.tsx:32-35) trims input and rejects empty
  input. An enabled empty pattern ignores every path
  (`Ignore.EnabledEmptyPatternIgnoresAll`).
- The path is normalised for every strategy, the pattern only for the
  suffix test.
- Only `add` keeps the strings unique; a loaded file may hold duplicates.
  So the model does not assume uniqueness. It proves that `add`, `remove`
  and `toggle` preserve it. It also proves that `remove` drops every
  duplicate while `toggle` flips only the first.

Each command changes the list before it saves. The save is file I/O, so its
outcome is an argument of the command (`saveOutcome`). A failed save is
reported, and the in-memory change stays.

## Model

| member | source | states |
|---|---|---|
| Strings.NormalizeSeparators | src-tauri/src/ignore.rs:77 | the result has the input's length; it has `/` where the input has `\` and the input's character everywhere else; no backslash is left |
| Strings.NormalizeIdempotent | src-tauri/src/ignore.rs:77 | normalising an already normalised string changes nothing |
| Strings.NormalizeKeepsSuffix | src-tauri/src/ignore.rs:77-80 | if a string ends with a suffix, its normalised form ends with the normalised suffix |
| Strings.NormalizeFixesSlashPaths | src-tauri/src/ignore.rs:77 | a string without backslashes is its own normal form |
| Strings.Split | src-tauri/src/ignore.rs:85 | `split('/')` yields at least one piece, and no piece contains the separator |
| Strings.JoinSplit | src-tauri/src/ignore.rs:85 | joining the pieces of a split with the separator gives back the original string (nothing is lost, empty pieces included) |
| Strings.SplitJoin | src-tauri/src/ignore.rs:85 | splitting the join of separator-free pieces gives back exactly those pieces |
| Strings.SplitNoSeparator | src-tauri/src/ignore.rs:85 | a string without the separator splits into itself alone |
| Strings.SplitAtFirstSeparator | src-tauri/src/ignore.rs:85 | the text before the first separator is the first piece, and the rest splits independently |
| Strings.SplitPieceChars | src-tauri/src/ignore.rs:85 | every character of a piece occurs in the split string |
| Strings.CharOfJoin | src-tauri/src/ignore.rs:85 | every non-separator character of a joined path comes from one of its pieces |
| Strings.LastSegmentKeepsSuffix | src-tauri/src/ignore.rs:85-92 | a separator-free suffix of a joined path is a suffix of its last piece |
| Glob.GlobMatch | src-tauri/src/ignore.rs:95-135 | the cursor loop (recursing at a non-final `*` for each split point while text remains) returns exactly `GlobMatches(text, pattern)` |
| Glob.TrailingStarMatchesAll | src-tauri/src/ignore.rs:102-106 | a final `*` matches any text, the empty text included |
| Glob.QuestionMarkConsumesOne | src-tauri/src/ignore.rs:119-124 | `?` followed by a rest matches exactly when at least one character is left and the rest matches what follows it |
| Glob.StarBeforeMoreNeedsText | src-tauri/src/ignore.rs:109-117 | a non-final `*` never matches the empty text, whatever follows it |
| Glob.LiteralMatchesOnlyItself | src-tauri/src/ignore.rs:125-134 | a pattern without `*` and `?` matches exactly the identical text (case-sensitive) |
| Glob.StarThenLiteral | src-tauri/src/ignore.rs:102-134 | `*` followed by literals matches exactly the texts ending with those literals; the match is anchored at the end |
| Glob.LiteralThenStar | src-tauri/src/ignore.rs:100-106 | literals followed by a final `*` match exactly the texts starting with those literals |
| Glob.LiteralMustOccur | src-tauri/src/ignore.rs:125-130 | every literal character of a pattern occurs in any text the pattern matches |
| Glob.TextbookStar | src-tauri/src/ignore.rs:102-117 | under textbook glob, a leading `*` absorbs any prefix of the text, including all of it |
| Glob.GlobSound | src-tauri/src/ignore.rs:95-135 | every match the matcher accepts is a textbook glob match |
| Glob.GlobIsTextbookWithoutDoubleStar | src-tauri/src/ignore.rs:95-135 | for a pattern with no two adjacent `*`, the matcher accepts exactly the textbook glob matches |
| Glob.DoubleStarDiverges | src-tauri/src/ignore.rs:109-117 | `""` against `"**"` and `"a"` against `"a**"` are textbook matches that the matcher rejects |
| Glob.MatcherExamples | src-tauri/src/ignore.rs:95-135 | `("", "*")`, `("anything", "*")` and `("ab", "a?")` match; `("a", "a?")` does not |
| Glob.ExtensionMatcherExamples | src-tauri/src/ignore.rs:95-135 | `("b.tmp", "*.tmp")` matches; `("b.tmp.bak", "*.tmp")` does not |
| Ignore.MatchesPattern | src-tauri/src/ignore.rs:75-93 | returns exactly `PathMatches`: the normalised path ends with the normalised pattern, OR one `/`-separated segment glob-matches the raw pattern, OR the whole normalised path glob-matches it |
| Ignore.IgnoreConfig.Default | src-tauri/src/ignore.rs:17-23 | the default configuration has no entries |
| Ignore.IgnoreConfig.ShouldIgnore | src-tauri/src/ignore.rs:61-73 | returns exactly whether some enabled entry's pattern selects the path; disabled entries are skipped |
| Ignore.SuffixSelects | src-tauri/src/ignore.rs:77-82 | a path selects every pattern it literally ends with |
| Ignore.EmptyPatternSelectsEverything | src-tauri/src/ignore.rs:80-82 | the empty pattern selects every path |
| Ignore.SegmentSelects | src-tauri/src/ignore.rs:85-89 | a pattern that glob-matches any one segment of a path selects that path |
| Ignore.BackslashPatternOnlyBySuffix | src-tauri/src/ignore.rs:77-92 | a pattern that contains `\` selects a path exactly when the literal suffix test succeeds |
| Ignore.DirectoryNameExample | src-tauri/src/ignore.rs:85-89 | `"/a/node_modules/x"`, a path below a `node_modules` directory, is selected by `"node_modules"` |
| Ignore.ExtensionGlobSelects | src-tauri/src/ignore.rs:85-89 | `*<ext>` selects every path with a segment ending in `<ext>`; for example, `"/a/b.tmp"` is selected by `"*.tmp"` |
| Ignore.ExtensionGlobAnchored | src-tauri/src/ignore.rs:75-93 | if no segment ends with `<ext>`, `*<ext>` selects the path by no strategy; for example, `"/a/b.tmp.bak"` is not selected by `"*.tmp"` |
| Ignore.ExtensionGlobExample | src-tauri/src/ignore.rs:85-89 | `"/a/b.tmp"` is selected by `"*.tmp"` |
| Ignore.AnchoredExtensionExample | src-tauri/src/ignore.rs:75-93 | `"/a/b.tmp.bak"` is not selected by `"*.tmp"`, although its name contains `.tmp` |
| Ignore.EnabledOnly | src-tauri/src/ignore.rs:62-65 | the entries kept are enabled entries of the list |
| Ignore.EnabledOnlyMembers | src-tauri/src/ignore.rs:62-65 | an entry is kept exactly when it is in the list and enabled |
| Ignore.NothingEnabledIgnoresNothing | src-tauri/src/ignore.rs:61-73 | an empty or all-disabled list ignores no path |
| Ignore.DisabledEntriesIrrelevant | src-tauri/src/ignore.rs:62-65 | dropping every disabled entry leaves the decision unchanged for every path |
| Ignore.IgnoredConcat | src-tauri/src/ignore.rs:61-73 | the decision for two concatenated lists is the OR of the decisions for each |
| Ignore.OrderIrrelevant | src-tauri/src/ignore.rs:61-73 | two lists with the same entries, in any order and multiplicity, decide every path alike |
| Ignore.EnabledEmptyPatternIgnoresAll | src-tauri/src/ignore.rs:61-82 | one enabled empty pattern makes every path ignored |
| Commands.Retained | src-tauri/src/main.rs:206 | no kept entry carries the removed string, and each kept entry comes from the list |
| Commands.FirstIndex | src-tauri/src/main.rs:220 | the position carries the string, and no earlier position does |
| Commands.Toggled | src-tauri/src/main.rs:220-221 | the length and every string stay the same; a flag changes exactly at the first entry carrying the string |
| Commands.AnyHasPattern | src-tauri/src/main.rs:184 | the scan reports exactly whether some entry carries the string |
| Commands.FindPattern | src-tauri/src/main.rs:220 | finds nothing exactly when no entry carries the string, and otherwise the first position that does |
| Commands.Retain | src-tauri/src/main.rs:206 | the filtering loop yields exactly `Retained` |
| Commands.GetIgnorePatterns | src-tauri/src/main.rs:166-172 | returns a copy equal to the current entries and changes nothing |
| Commands.AddIgnorePattern | src-tauri/src/main.rs:175-195 | a duplicate string gives "Pattern already exists" and leaves the list unchanged; otherwise `{pattern, enabled: true}` is appended and the save's outcome is returned, and the append stands even if the save failed |
| Commands.RemoveIgnorePattern | src-tauri/src/main.rs:198-209 | the list becomes `Retained(old list, pattern)`, with no error for an absent string, and the save's outcome is returned |
| Commands.ToggleIgnorePattern | src-tauri/src/main.rs:212-227 | for an absent string: "Pattern not found", the list unchanged and no save; otherwise the list becomes `Toggled(old list, pattern)` and the save's outcome is returned |
| Commands.AddKeepsUnique | src-tauri/src/main.rs:184-191 | adding a new string to a list of unique strings keeps the strings unique |
| Commands.AddedOnce | src-tauri/src/main.rs:184-191 | after a new string is added, exactly one entry carries it, the last, even when other strings are duplicated |
| Commands.AddThenPresent | src-tauri/src/main.rs:184-191 | after an add the string is present, so a second add is rejected |
| Commands.AddedIgnores | src-tauri/src/main.rs:188-191 | after an add, a path is ignored exactly when it was ignored before or the new pattern selects it |
| Commands.RetainedSnoc | src-tauri/src/main.rs:206 | removing from a list with one more entry at the end is removing from the list, then keeping that entry exactly when it carries another string |
| Commands.RetainedDropsAll | src-tauri/src/main.rs:206 | after remove, no entry carries the string |
| Commands.RetainedKeepsOthers | src-tauri/src/main.rs:206 | every entry with another string keeps its number of occurrences |
| Commands.RetainedConcat | src-tauri/src/main.rs:206 | removing from a concatenation is removing from each part, so relative order is kept |
| Commands.RetainedAbsent | src-tauri/src/main.rs:206 | removing an absent string leaves the list unchanged |
| Commands.RetainedIdempotent | src-tauri/src/main.rs:206 | removing twice is the same as removing once |
| Commands.RetainedKeepsUnique | src-tauri/src/main.rs:206 | removing keeps the strings unique |
| Commands.RetainedIgnores | src-tauri/src/main.rs:206 | removing never makes a new path ignored; a path the removed pattern does not select keeps its decision |
| Commands.ToggledKeepsStrings | src-tauri/src/main.rs:220-221 | toggling keeps which strings are present and whether they are unique |
| Commands.ToggleTwice | src-tauri/src/main.rs:220-221 | toggling the same string twice restores the original list |
| Commands.ToggledIgnores | src-tauri/src/main.rs:220-221 | switching an entry off never makes a path ignored; switching it on never stops one being ignored |

## Left out

- `IgnoreConfig::load`, `save` and `get_config_path` (src-tauri/src/ignore.rs:26-59) are file I/O, configuration-directory lookup and JSON encoding. They are not modelled. The outcome of `save` is a parameter of each command. The save/load round trip and the file format are therefore not stated.
- The `Mutex`/`Arc` around the configuration and the "Failed to lock ignore state" error on a poisoned lock (src-tauri/src/main.rs:142-143, 169-170, 180-181, 203-204, 217-218) are concurrency glue. Each command is modelled as one sequential step on the list.
- The startup fallback to an empty configuration when loading fails (src-tauri/src/main.rs:39-41) depends on `load` and is not modelled. The default configuration itself is `IgnoreConfig.Default`.
- `main`'s window setup, `show_in_folder`, `get_disks`, `start_scanning` and `stop_scanning` (src-tauri/src/main.rs:34-163) are UI, OS processes or the scanning module, which is not part of this model.
- The settings screen (src/components/Settings.tsx) trims a new pattern and rejects an empty one before calling `add`. That check is outside the backend, so the model accepts any string, the empty one included.
- Running time is not modelled. The matcher's backtracking is exponential in the number of `*`; the model states only which inputs match.
- Rust strings are sequences of Unicode scalar values. They are modelled as Dafny `string` (`seq<char>`), with one `char` per scalar value.
