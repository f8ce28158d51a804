# LocalizedStringKit, modelled in Dafny

LocalizedStringKit lets Swift and Objective-C code write `Localized("text", "comment")`
and derives every string table from those calls. It has two halves, and this project
models both:

- **The Python generator.** It finds the calls in the source files, dedupes and sorts the
  strings, and groups them per bundle. Strings whose value carries `%#@name@` tokens
  become stringsdict entries. The rest are written as one `NSLocalizedString` listing
  (`.m` file) per bundle. The generator merges the entries into each bundle's English
  stringsdict. It also decides whether anything has changed since the last run.
- **The Swift runtime.** It turns a `Localized` call back into a key and finds the bundle
  that holds the translation, caching found and missing bundles.

The modules follow the program's files:

- `common.dfy`: `Option`, `Result`, every error the generator raises, and Python dicts with
  their insertion order.
- `text.dfy`: the Python `str` operations used by the generator (`isspace`, `replace`,
  `strip`, `split`, `join`, comparison by code point).
- `sorting.dfy`: Python's stable sort (an insertion sort over a strict weak order), the
  first-occurrence dedupe, and the facts about both that the other modules need.
- `detection.py` → `detection.dfy`:
  - escape sanitising;
  - the validation pass that rejects non-literal arguments;
  - the four call patterns of each language, as hand-written scanners with the same
    lazy/greedy behaviour as the regular expressions;
  - the classification of every match;
  - the `Detector` class and the per-file and multi-file entry points.
- `__init__.py` → `generation.dfy`:
  - `get_strings`: dedupe, sort by `(key, key_extension, comment)`, split into normal and
    plural tables per bundle;
  - the merge of `create_or_merge_stringsdict_file`, up to the written plist contents;
  - `has_strings_dict_changes`;
  - `generate_code_strings_file` and `has_changes`, on a `Workspace` class that holds the
    files involved;
  - the bundle-directory and listing-file names.
- `files.py` → `files.dfy`: `localizable_files`, with POSIX `os.path.join` and
  `os.path.commonpath`.
- `LocalizedStringKit.swift` → `localizer.dfy`:
  - the lookup key;
  - bundle-name normalisation;
  - the `Localizer` class, with its cache of found bundles, its set of missing bundles, and
    the `alternateBundleSearchPath` setter.

Some things are parameters of the model rather than part of it:

- `hash`: the digest of a key's text (MD5 in hexadecimal).
- `render`: `ns_localized_format`.
- `read`: the text of each code file.
- `locate`: the runtime's bundle search on disk.
- `translate`: `NSLocalizedString`.
- The output of `find`, and the text of the exclusion file.

Behaviours of the code as written that the proofs bring out:

- **Runtime and generator normalise bundle names differently.** The generator keeps a
  bundle name that contains `.bundle` anywhere. The runtime appends `.bundle` unless the
  name ends with it (`NormalizeAgreesWithGenerator`, `NormalizeDiffersFromGenerator`).
- **`generate_files` and `has_changes` name listing files differently.**
  - An empty bundle name is written as `.m` but looked for as `source_strings.m`.
  - A bundle name without `.bundle` is written as `Name.m` but looked for as `Name`.
  - Such a bundle is therefore reported as changed on every run, unless a file named after
    the bare bundle name (`Strings`, or `source_strings.m` for the empty name) happens to
    hold the same listing (`ListingNamesDiverge`, `ListingStale`).
- **A key repeated in a bundle's plural strings is reported as changed on every run.**
  Two detected strings with the same value and extension but different comments both
  survive the dedupe and share a key. With stringsdicts enabled, the bundle's list then
  holds two entries with that key. The stringsdict file holds each key once, so
  `has_strings_dict_changes` always reports the bundle as changed
  (`RepeatedKeyNeverMatches`, `RepeatedKeyAlwaysStale`).
- **The runtime drops a non-empty key extension.** `key` appends `":" + keyExtension` only
  when the extension is empty, so a string with an extension is looked up under the key of
  its bare value (`KeyInputAsWrittenDropsExtension`, `AsWrittenKeyAgrees`, and the table
  under "## Findings").
- **`has_changes` leaves some temporary listings behind.** It returns at the first missing
  or differing listing, so the listings of the bundles after it are not deleted, nor that
  bundle's own when its listing file is missing (`Workspace.HasChanges`).
- **The merge drops existing-only keys.** The merged stringsdict holds exactly the incoming
  keys. Entries that exist only in the old file are dropped (`CreateOrMergeStringsdict`).
- **Some exclusions exclude nothing.**
  - An excluded folder written with a trailing `/` (other than `/` itself) excludes
    nothing, because `commonpath` ends with `/` only when it is `/`.
  - A blank line in the exclusion file excludes nothing, unless the root is empty or `/`
    (`TrailingSlashExcludesNothing`, `BlankExclusionExcludesNothing`).
- **The validation pass rejects a call whose literal is indented with a tab.** When a
  call breaks its line after `Localized(`, a tab before the literal is itself taken as the
  offending argument: `[\s\n]*` gives the tab back, and `[^"@\n\r ]` excludes spaces but
  not tabs. The same call indented with spaces is accepted (`TabIndentedArgumentReported`,
  `SpaceIndentedArgumentAccepted`).
- **A missing bundle is never searched for again.** A name recorded as missing stays missing
  after `alternateBundleSearchPath` changes, even when the new path holds the bundle
  (`MissingSurvivesNewSearchPath`).

## Model

| member | source | states |
|---|---|---|
| Common.AppendTo | generation/localizedstringkit/__init__.py:51 | `defaultdict(list)` append: a new bundle goes to the end of the key order, an existing one keeps its place; the list of the bundle grows by the string |
| Detection.KeyInputInjective | generation/tests/test_basic.py:97-100 | for values without `:`, equal key texts mean equal value and extension |
| Detection.KeyInputCollision | generation/tests/test_basic.py:97-100 | with a colon in the value, a plain string and a string with an extension share a key text |
| Detection.RestoreSanitize | generation/localizedstringkit/detection.py:20-39 | restoring a sanitised text (`\"` ↔ `$$$`) gives it back when it had no `$` |
| Detection.SkipSpace | generation/localizedstringkit/detection.py:199 | `\s*` stops at the first non-space, having read only whitespace |
| Detection.MatchAt | generation/localizedstringkit/detection.py:199-239 | a match of a call pattern captures exactly the pattern's number of groups and ends after its start |
| Detection.Scanned | generation/localizedstringkit/detection.py:63 | every `findall` match has the pattern's arity and lies inside the text |
| Detection.FindAll | generation/localizedstringkit/detection.py:63 | every capture tuple has the pattern's number of groups |
| Detection.MatchAtSound | generation/localizedstringkit/detection.py:199-239 | each match is the text of a call with those captures, the first non-empty, none spanning lines |
| Detection.MatchAtComplete | generation/localizedstringkit/detection.py:199-239 | every call written with plain captures is read back with exactly those captures and whitespace (call text → match round trip) |
| Detection.FindAllCallText | generation/localizedstringkit/detection.py:199-239 | `findall` over the text of one call yields exactly that call's captures |
| Detection.LineEnd | generation/localizedstringkit/detection.py:18 | `.*` runs to the next line break or the end |
| Detection.LastBadArg | generation/localizedstringkit/detection.py:18 | `[\s\n]*[^"@\n\r ]` takes the last character in range that cannot start a literal (none after it can), or none exists |
| Detection.RejectedArg | generation/localizedstringkit/detection.py:18 | once `.*` has reached `k`, the pattern matches there exactly when a rejected call opens at `k`: `Localized(` or `LocalizedWithKeyExtension(`, then only whitespace up to a character that cannot start a literal |
| Detection.InvalidCallFrom | generation/localizedstringkit/detection.py:17-19 | a match of the invalid-call pattern ends after its start; what it matches is stated by `InvalidCallFound` and `InvalidCallMissed` |
| Detection.InvalidCallFound | generation/localizedstringkit/detection.py:17-19 | a match found from `p` comes from a rejected call opening between `p` and the end of `.*`, and runs to the end of the line holding the offending character |
| Detection.InvalidCallMissed | generation/localizedstringkit/detection.py:17-19 | no match from `p` means no rejected call opens anywhere `.*` can reach |
| Detection.FindAllInvalid | generation/localizedstringkit/detection.py:88 | every match `findall` returns holds the word `Localized` |
| Detection.InvalidMatchMentions | generation/localizedstringkit/detection.py:17-19 | a match lies inside the text and holds the word `Localized` |
| Detection.FindAllInvalidMeaning | generation/localizedstringkit/detection.py:17-19 | `findall` from `i` finds something if and only if a rejected call opens at or after `i` |
| Detection.StripAll | generation/localizedstringkit/detection.py:90-91 | each reported match is stripped |
| Detection.DropDefinitions | generation/localizedstringkit/detection.py:93-94 | exactly the matches not starting with `func ` are kept |
| Detection.OffendingCalls | generation/localizedstringkit/detection.py:88-94 | the reported calls are the stripped matches of the invalid-call pattern that do not start with `func ` |
| Detection.NoInvalidCallsWithoutLocalized | generation/localizedstringkit/detection.py:17-19 | without the word `Localized` the validation pass finds nothing |
| Detection.InvalidWhole | generation/localizedstringkit/detection.py:88 | a text that starts with its only call opening, rejected at a character with no line break after it, is matched whole and only once |
| Detection.ReportedAsIs | generation/localizedstringkit/detection.py:88-94 | that single match, with no whitespace at either end and not a `func ` definition, is reported as it is |
| Detection.NothingReported | generation/localizedstringkit/detection.py:88-94 | a text whose only call opening is followed by whitespace and then only characters that can start a literal reports nothing |
| Detection.BadArgumentReported | generation/localizedstringkit/detection.py:17-19 | `Localized(` directly followed by a character that cannot start a literal is reported, whole |
| Detection.TabArgumentReported | generation/localizedstringkit/detection.py:17-19 | `Localized(`, a line break, a tab and a literal is reported, because `[\s\n]*` gives the tab back to `[^"@\n\r ]` |
| Detection.LiteralArgumentAccepted | generation/localizedstringkit/detection.py:17-19 | `Localized(` followed by spaces and line breaks and then a literal reports nothing |
| Detection.FormatArgumentReported | generation/localizedstringkit/detection.py:79 | the documented invalid call `Localized(String(format: "You are %@ years old", age), "Comment")` is reported as it is |
| Detection.FormatAroundLocalizedAccepted | generation/localizedstringkit/detection.py:83 | the documented valid call `String(format: Localized("You are %@ years old", "Comment"), age)` reports nothing |
| Detection.TabIndentedArgumentReported | generation/localizedstringkit/detection.py:17-19 | `Localized(` then, on the next line, a tab before `"a", "b")` is reported |
| Detection.SpaceIndentedArgumentAccepted | generation/localizedstringkit/detection.py:17-19 | `Localized(` then, on the next line, two spaces before `"a", "b")` reports nothing |
| Detection.NoMatchesWithoutLocalized | generation/localizedstringkit/detection.py:199-239 | without the word `Localized` no call pattern matches |
| Detection.Checked | generation/localizedstringkit/detection.py:61-72 | success iff every match has the expected count; then each match is tagged with its pattern; otherwise the error names the first bad match |
| Detection.AllMatches | generation/localizedstringkit/detection.py:118-120 | every collected match comes from a table entry with its own arity |
| Detection.AllMatchesErr | generation/localizedstringkit/detection.py:118-120 | the first failing pattern's error is the error of the whole table |
| Detection.ClassifyTable | generation/localizedstringkit/detection.py:124-191 | value and comment are the restored first captures, language `en`, table `LocalizedStringKit`; default bundle and no extension for 2 captures; bundle from the bundle pattern's third capture; extension from the extension pattern's third; both for 4 |
| Detection.ClassifyAll | generation/localizedstringkit/detection.py:124-193 | one record per match |
| Detection.TableUsable | generation/localizedstringkit/detection.py:216-255 | both languages' tables expect at least two captures per pattern |
| Detection.TableMatches | generation/localizedstringkit/detection.py:216-224 | with a language's own table no arity error occurs and the matches are those of the four patterns in table order |
| Detection.DetectedOutcome | generation/localizedstringkit/detection.py:101-193 | a file is rejected iff the validation pass reports calls, with those calls in the error; otherwise one string per match of the four patterns |
| Detection.NothingWithoutLocalized | generation/localizedstringkit/detection.py:101-193 | a text without `Localized` yields no strings |
| Detection.Detector.constructor | generation/localizedstringkit/detection.py:27-39 | the detector keeps the path and the text, and its sanitised text is the sanitised contents |
| Detection.Detector.GetMatches | generation/localizedstringkit/detection.py:50-72 | the loop returns the tagged matches or the first arity error, as `Checked` |
| Detection.Detector.ConfirmStringArgsOnly | generation/localizedstringkit/detection.py:74-99 | fails iff invalid calls are reported, naming the file and the calls |
| Detection.Detector.ClassifyMatches | generation/localizedstringkit/detection.py:124-193 | the loop turns the matches into one string each, in order, as `ClassifyAll` |
| Detection.Detector.DetectStrings | generation/localizedstringkit/detection.py:101-193 | the validation pass, then the matches of each pattern in order, then one string per match, as `Detected` |
| Detection.Detector.FindStrings | generation/localizedstringkit/detection.py:210-255 | each language uses its own table and its own bundle pattern |
| Detection.InFile | generation/localizedstringkit/detection.py:258-279 | `Unknown file type` iff the path ends with neither `.swift` nor `.m`; `.swift` uses the Swift table, `.m` the `@"` one |
| Detection.StringsInCodeFile | generation/localizedstringkit/detection.py:258-279 | the dispatch by extension, as `InFile` |
| Detection.StringsInCodeFiles | generation/localizedstringkit/detection.py:282-295 | the loop concatenates the strings of every file in order and stops at the first error, as `InFiles` |
| Detection.InFilesErr | generation/localizedstringkit/detection.py:290-293 | once a prefix of the files fails, the whole list fails with the same error |
| Detection.InFilesAppend | generation/localizedstringkit/detection.py:290-295 | scanning two lists of files one after the other is scanning their concatenation |
| Generation.Tokens | generation/localizedstringkit/__init__.py:42 | no token name holds `@` or a line break |
| Generation.TokensCons | generation/localizedstringkit/__init__.py:42 | a `%#@name@` in front is found and the scan resumes after it |
| Generation.TokensAbsent | generation/localizedstringkit/__init__.py:42 | a value without `%#@` has no tokens |
| Generation.TokensOccur | generation/localizedstringkit/__init__.py:42 | every token was written `%#@name@` in the value |
| Generation.PluralIffTokens | generation/localizedstringkit/__init__.py:48-49 | with plural generation on, a string becomes a stringsdict entry iff its value contains `%#@`, a name without `@` or line break, and `@` |
| Generation.EntryOf | generation/localizedstringkit/__init__.py:54-60 | the entry keeps the string's key and value; its variables are exactly the token names, none twice |
| Generation.SortKeyLtIrreflexive | generation/localizedstringkit/__init__.py:40 | no string sorts before itself |
| Generation.SortKeyLtTransitive | generation/localizedstringkit/__init__.py:40 | the `(key, key_extension, comment)` order is transitive |
| Generation.SortKeyLtTotal | generation/localizedstringkit/__init__.py:40 | any two strings are ordered, or share the sort key |
| Generation.StringOrderStrictWeak | generation/localizedstringkit/__init__.py:40 | the sort key order is a strict weak order |
| Generation.OrderedProperties | generation/localizedstringkit/__init__.py:38-40 | the deduped, sorted strings are exactly the detected ones, none twice, in sort-key order |
| Generation.BucketMembers | generation/localizedstringkit/__init__.py:47-61 | a bundle's list holds exactly the strings of that bundle that go to that table |
| Generation.BundlesMembers | generation/localizedstringkit/__init__.py:44-61 | a table's keys are exactly the bundles of its strings |
| Generation.BundlesNoDuplicates | generation/localizedstringkit/__init__.py:44-45 | no bundle is listed twice |
| Generation.TableValid | generation/localizedstringkit/__init__.py:44-45 | each table is a well-formed dict |
| Generation.TableStep | generation/localizedstringkit/__init__.py:47-61 | one loop step appends the string to its bundle's list, creating the list for a new bundle, or leaves the table alone |
| Generation.EntryTableStep | generation/localizedstringkit/__init__.py:54-61 | appending a string to the plural table appends its entry |
| Generation.Group | generation/localizedstringkit/__init__.py:44-63 | the loop builds the two tables `Grouped` describes |
| Generation.GetStrings | generation/localizedstringkit/__init__.py:28-63 | fails iff detection fails, with its error; otherwise the grouped tables of the detected strings |
| Generation.BucketOrdered | generation/localizedstringkit/__init__.py:40-61 | each list keeps the order of the sorted strings and lists none twice |
| Generation.GroupedPartition | generation/localizedstringkit/__init__.py:47-61 | every detected string lands under its own bundle: in the plural table as an entry when it has tokens and plurals are on, and then in no normal list; otherwise in the normal table |
| Generation.GroupedMembers | generation/localizedstringkit/__init__.py:47-61 | normal lists hold exactly the detected non-plural strings of their bundle; plural lists only entries of detected plural strings of their bundle |
| Generation.GroupedOrdered | generation/localizedstringkit/__init__.py:40-61 | each normal list is sorted by `(key, key_extension, comment)` without repeats; each plural list is in non-decreasing key order |
| Generation.GroupedWithoutPlurals | generation/localizedstringkit/__init__.py:49-52 | with plurals off the plural table is empty and every string is in the normal table |
| Generation.FindByKey | generation/localizedstringkit/__init__.py:120-127 | an existing entry with the key, or none exactly when no entry has it |
| Generation.FindByKeyFirst | generation/localizedstringkit/__init__.py:120-127 | the entry found is the first with the key, as `next(...)` returns: no earlier entry has that key |
| Generation.SortedNamesEqualIff | generation/localizedstringkit/__init__.py:129-134 | sorted variable-name lists are equal iff the entries have the same variable names |
| Generation.ConflictMeaning | generation/localizedstringkit/__init__.py:128-135 | a new key never conflicts; a different value is `value names are inconsistent`; otherwise different variable names are `variables names are inconsistent`; else no error |
| Generation.LastWithKeyMeaning | generation/localizedstringkit/__init__.py:138 | later incoming entries overwrite earlier ones with the same key: what stays is the last entry with that key, and nothing stays when no entry has it |
| Generation.PlistContents | generation/localizedstringkit/__init__.py:140-141 | the dumped dict has strictly ascending keys, exactly the dict's keys, each with its value |
| Generation.CheckEntry | generation/localizedstringkit/__init__.py:120-135 | the existing entry is the first with the entry's key, and the conflict is the one `Conflict` describes |
| Generation.MergeEntries | generation/localizedstringkit/__init__.py:118-138 | the loop stops at a conflict after a run of clean entries and returns it; otherwise every entry was clean and the dict holds what `MergedItems` records |
| Generation.CleanMeaning | generation/localizedstringkit/__init__.py:119-135 | a prefix of the entries is clean iff none of its entries conflicts |
| Generation.MergedKeys | generation/localizedstringkit/__init__.py:138 | the merged keys are exactly the keys of the incoming entries so far |
| Generation.MergedValueAt | generation/localizedstringkit/__init__.py:137-138 | under each key: the last incoming entry with it, merged with the first existing entry with it |
| Generation.MergeFailed | generation/localizedstringkit/__init__.py:128-135 | a conflict after clean entries is the first conflict of the list |
| Generation.MergeSucceeded | generation/localizedstringkit/__init__.py:118-141 | after a clean loop no entry conflicts, and the dumped keys are ascending, exactly the incoming keys, each with its last incoming entry and its existing entry |
| Generation.MergeDone | generation/localizedstringkit/__init__.py:118-141 | after the loop: no conflict, keys ascending, exactly the incoming keys, each holding the last incoming entry merged with the first existing one |
| Generation.CreateOrMergeStringsdict | generation/localizedstringkit/__init__.py:101-141 | an error iff some entry conflicts, and then the first conflict's, before any write; otherwise the keys are exactly the incoming keys, ascending, each with its last incoming entry and its existing entry; existing-only keys are dropped |
| Generation.BundleDirectory | generation/localizedstringkit/__init__.py:175-177 | a name containing `.bundle` anywhere is kept, any other gets `.bundle` appended; the directory name always contains `.bundle` |
| Generation.BundleDirectoryIdempotent | generation/localizedstringkit/__init__.py:175-177 | naming a directory twice changes nothing |
| Generation.CheckedListingFileName | generation/localizedstringkit/__init__.py:305-308 | the listing file `has_changes` looks for never has an empty name |
| Generation.ListingNamesAgree | generation/localizedstringkit/__init__.py:175-186 | `generate_files` and `has_changes` use the same listing file iff the bundle name contains `.bundle` |
| Generation.PlainListingFileName | generation/localizedstringkit/__init__.py:175-186 | a name without `.bundle` gets the listing `name.m` |
| Generation.ListingNamesDiverge | generation/localizedstringkit/__init__.py:305-308 | `""` is written as `.m` but looked for as `source_strings.m`; `Strings` as `Strings.m` but looked for as `Strings` |
| Generation.NamePairs | generation/localizedstringkit/__init__.py:258-261 | one `(key, sorted variable names)` pair per entry, in order |
| Generation.KeyOrderStrictWeak | generation/localizedstringkit/__init__.py:263-265 | sorting by key alone is a strict weak order |
| Generation.SortedPairsStrictly | generation/localizedstringkit/__init__.py:263-274 | with distinct keys the sorted pairs are strictly ascending and are the same pairs |
| Generation.KeysAndVariableNamesEqualIff | generation/localizedstringkit/__init__.py:256-276 | when the file side gives each key one list of names (the code side may repeat keys), the compared lists are equal iff both sides hold the same `(key, sorted variable names)` pairs, each as many times; values play no part |
| Generation.PairsTotalOn | generation/localizedstringkit/__init__.py:263-274 | when equal keys carry equal names, ordering by key alone leaves no two different pairs tied |
| Generation.RepeatedKeyCounts | generation/localizedstringkit/__init__.py:256-276 | a key repeated on the code side makes the pair multisets differ from a file side whose keys are distinct |
| Generation.RepeatedKeyNeverMatches | generation/localizedstringkit/__init__.py:256-276 | a key repeated on the code side never gives the same sorted list as a file side whose keys are distinct |
| Generation.RepeatedKeyAlwaysStale | generation/localizedstringkit/__init__.py:242-278 | a bundle whose plural entries repeat a key is always stale, whatever its stringsdict holds, when that file does not repeat a key |
| Generation.CollectKeysAndVariableNames | generation/localizedstringkit/__init__.py:258-274 | the loop and sort build the key-sorted pair list |
| Generation.HasStringsDictChanges | generation/localizedstringkit/__init__.py:242-279 | true iff some bundle's stringsdict is missing or differs in keys and variable names |
| Generation.BundleChanged | generation/localizedstringkit/__init__.py:243-278 | one bundle is stale exactly when its stringsdict is missing or its key and variable-name pairs differ from the code's |
| Generation.ListingAppend | generation/localizedstringkit/__init__.py:94-96 | a listing is the listings of its parts in order |
| Generation.WriteListing | generation/localizedstringkit/__init__.py:91-96 | the loop writes each string's rendering on a line of its own |
| Generation.Workspace.WriteTemporaries | generation/localizedstringkit/__init__.py:84-96 | one temporary listing per bundle of the normal table, holding that bundle's listing; the listings and stringsdicts are untouched |
| Generation.FirstStale | generation/localizedstringkit/__init__.py:302-322 | the first bundle whose listing file is missing or differs; all bundles before it are up to date |
| Generation.Workspace.GenerateCodeStringsFile | generation/localizedstringkit/__init__.py:66-98 | fails iff detection fails; otherwise returns the normal table's bundles and the plural table, and adds one temporary listing per bundle; the listings and stringsdicts are untouched |
| Generation.Workspace.CompareListing | generation/localizedstringkit/__init__.py:303-322 | a missing listing file is reported with nothing deleted; otherwise the temporary listing is deleted, and the result says whether it differed from the listing file |
| Generation.Workspace.CompareListings | generation/localizedstringkit/__init__.py:302-322 | true iff some bundle's listing file is missing or differs; deletes the temporary listings up to the first such bundle, and that bundle's own only when its listing file exists |
| Generation.Workspace.HasChanges | generation/localizedstringkit/__init__.py:282-330 | true iff some listing file is missing or stale, or, with stringsdicts included, some stringsdict is; fails iff detection fails, with detection's error and the temporaries untouched; which temporaries are deleted |
| Files.PathJoin | generation/localizedstringkit/files.py:51 | an absolute folder replaces the root; otherwise the result starts with the root, ends with the folder, with at most one `/` between |
| Files.Components | generation/localizedstringkit/files.py:73 | components are non-empty and hold no `/` |
| Files.ListLtTotal | generation/localizedstringkit/files.py:73 | Python's list order on components is total |
| Files.ListLtAsymmetric | generation/localizedstringkit/files.py:73 | and asymmetric |
| Files.CommonPrefix | generation/localizedstringkit/files.py:73 | a common prefix of both lists that cannot be extended |
| Files.CommonPath | generation/localizedstringkit/files.py:73 | raises iff one path is absolute and the other relative |
| Files.ScanCommonPrefix | generation/localizedstringkit/files.py:73 | the scan over the smaller component list finds the longest common prefix |
| Files.CommonPathPrefix | generation/localizedstringkit/files.py:73 | `commonpath` of two paths of one kind is their longest common component prefix, in either order |
| Files.JoinInjective | generation/localizedstringkit/files.py:73 | joining non-empty components without `/` loses nothing |
| Files.Excludes | generation/localizedstringkit/files.py:73 | the comparison fails iff the folder and the path are of different kinds |
| Files.ExcludesIffUnder | generation/localizedstringkit/files.py:72-78 | a folder written canonically excludes exactly the paths whose components start with its own |
| Files.TrailingSlashExcludesNothing | generation/localizedstringkit/files.py:72-78 | a folder ending in `/` (other than `/`) excludes nothing |
| Files.BlankExclusionExcludesNothing | generation/localizedstringkit/files.py:47-51 | a blank exclusion line excludes nothing unless the root is empty or `/` |
| Files.IsExcluded | generation/localizedstringkit/files.py:70-75 | excluded means some folder excludes the path; kept means none does; the only error is `commonpath`'s |
| Files.ExcludedByAny | generation/localizedstringkit/files.py:72-75 | the loop over the folders with its `break` computes `IsExcluded` |
| Files.IsExcludedSameKind | generation/localizedstringkit/files.py:70-75 | with folders and path of one kind the search cannot fail, and a path is excluded iff some folder excludes it |
| Files.ReadLines | generation/localizedstringkit/files.py:46-47 | no line holds a line break |
| Files.StrippedLines | generation/localizedstringkit/files.py:46-47 | one stripped entry per line of the exclusion file |
| Files.JoinedFolders | generation/localizedstringkit/files.py:51 | every folder is joined onto the root |
| Files.Exclusions | generation/localizedstringkit/files.py:41-51 | an error iff both a folder list and an exclusion file are given; none given means no exclusions |
| Files.KeptMembers | generation/localizedstringkit/files.py:66-82 | a line is kept iff it is non-empty and no folder excludes it |
| Files.LocalizableContents | generation/localizedstringkit/files.py:66-85 | the result is in ascending order and holds exactly the non-empty, non-excluded lines of the `find` output |
| Files.LocalizableErrors | generation/localizedstringkit/files.py:41-85 | the only errors are conflicting arguments and a `commonpath` between an absolute and a relative path |
| Files.NoExclusionsKeepsAll | generation/localizedstringkit/files.py:41-42 | without exclusions every non-empty line is kept |
| Files.LocalizableFiles | generation/localizedstringkit/files.py:41-85 | the loops with their `break` compute `Localizable` |
| Files.KeptLines | generation/localizedstringkit/files.py:66-82 | the loop over the `find` output, skipping empty lines and excluded paths, computes `Kept` |
| Files.KeptPrefixError | generation/localizedstringkit/files.py:72-75 | an error on some line is the error of the whole output |
| Localizer.KeyInputAsWrittenAgrees | Sources/LocalizedStringKit/LocalizedStringKit.swift:49-57 | the runtime's key text agrees with the generator's iff there is no extension or it is empty |
| Localizer.KeyInputAsWrittenDropsExtension | Sources/LocalizedStringKit/LocalizedStringKit.swift:53-55 | `Hello` with extension `greeting` is hashed as `Hello`, the generator's key text is `Hello:greeting` |
| Localizer.RuntimeKey | Sources/LocalizedStringKit/LocalizedStringKit.swift:49-58 | the corrected key, with `":" + extension` appended whenever an extension is given (as the comment at line 50 says): it is the generator's key of every string with that value and extension |
| Localizer.AsWrittenKey | Sources/LocalizedStringKit/LocalizedStringKit.swift:49-58 | the key the code computes; with no extension or an empty one it is the generator's key of every string with that value and extension |
| Localizer.AsWrittenKeyAgrees | Sources/LocalizedStringKit/LocalizedStringKit.swift:49-58 | for a digest without collisions, the key looked up equals the corrected key iff there is no extension or it is empty |
| Localizer.NormalizeBundleName | Sources/LocalizedStringKit/LocalizedStringKit.swift:65-70 | the name (the primary bundle name when none is given) with `.bundle` appended iff it does not already end with it; the result always ends with `.bundle` |
| Localizer.NormalizeBundleNameIdempotent | Sources/LocalizedStringKit/LocalizedStringKit.swift:65-70 | normalising a normalised name changes nothing |
| Localizer.NormalizeAgreesWithGenerator | Sources/LocalizedStringKit/LocalizedStringKit.swift:65-70 | a name gets the generator's directory name iff it ends with `.bundle` or does not contain it |
| Localizer.NormalizeDiffersFromGenerator | Sources/LocalizedStringKit/LocalizedStringKit.swift:68-70 | `Extra.bundle.old` becomes `Extra.bundle.old.bundle` at runtime but stays `Extra.bundle.old` in the generator |
| Localizer.MissingSurvivesNewSearchPath | Sources/LocalizedStringKit/LocalizedStringKit.swift:33-37 | a missing name recorded under one search path can be findable under a new one |
| Localizer.UncachedMissing | Sources/LocalizedStringKit/LocalizedStringKit.swift:118-121 | a string whose bundle is not found is shown as written |
| Localizer.UncachedIgnoresPrimary | Sources/LocalizedStringKit/LocalizedStringKit.swift:101 | `localize` always passes a bundle name, so the primary bundle name never matters to it |
| Localizer.Localizer.constructor | Sources/LocalizedStringKit/LocalizedStringKit.swift:30-33 | empty caches, primary bundle `LocalizedStringKit.bundle`, no alternate path |
| Localizer.Localizer.SetAlternateBundleSearchPath | Sources/LocalizedStringKit/LocalizedStringKit.swift:33-37 | sets the path, empties the bundle cache (so it agrees with any search) and keeps the missing names |
| Localizer.Localizer.GetBundle | Sources/LocalizedStringKit/LocalizedStringKit.swift:60-98 | the bundle the search finds for the normalised name |
| Localizer.Localizer.Localize | Sources/LocalizedStringKit/LocalizedStringKit.swift:100-127 | the key looked up is the key as written (`AsWrittenKey`); default bundle and table; cached bundle used with nothing changed; a missing name returns the value unchanged; a failed search records the name as missing; a found bundle is cached; coherent caches stay coherent and the answer equals the uncached one |

## Findings

| source | as written | input that shows it | evidently intended | confidence | as-written member | corrected member |
|---|---|---|---|---|---|---|
| Sources/LocalizedStringKit/LocalizedStringKit.swift:53 | `if let ke = keyExtension, ke.isEmpty` appends `":" + ke` only when the extension is empty | `Localized("Hello", "…", keyExtension: "greeting")`: the runtime hashes `Hello`, the generator stored the key of `Hello:greeting`, so the translation is never found | append `":" + ke` whenever an extension is given, as the comment at line 50 and the generator do | high (not executed) | Localizer.KeyInputAsWrittenDropsExtension | Localizer.RuntimeKey |

`Localizer.Localize` and `Localizer.Uncached` look up the key as the code computes it
(`AsWrittenKey`), so the model of the runtime keeps the bug. `AsWrittenKeyAgrees` says
exactly when that key is the corrected one.

## Left out

- File and process I/O is outside the model:
  - reading code files (`read` gives their text) and the exclusion file (its text is a
    parameter);
  - the `find` subprocess (its output is a parameter);
  - `tempfile.mktemp` names (temporary listings are keyed by bundle);
  - `os.remove` and `shutil.move`;
  - `plistlib.dump` (its contents are modelled, not its bytes);
  - `load_dict` (`stringsdicts` holds the loaded entries of each bundle directory);
  - `stringsdict_file_path`.
- The `dotstrings` library is outside the model. The key digest, `ns_localized_format`,
  `DotStringsDictEntry.merge` and `stringsdict_format` are parameters or recorded
  arguments; their internals are not modelled.
- MD5 is the parameter `hash`. The Swift `md5` returning `nil` is not modelled: UTF-8
  encoding of a Swift `String` cannot fail, so the guard at
  LocalizedStringKit.swift:104-106 never fires.
- `filecmp.cmp` is modelled as equality of texts. Its shallow comparison of `os.stat`
  signatures is not modelled.
- `generate_files` is modelled only for its file names (`BundleDirectory`,
  `ListingFileName`). Its calls to `generate_strings` and the moves are I/O into an
  external library. `generate_dot_strings_files` only forwards to it.
- command_line.py (argument parsing and exit codes) and logger.py (logging) are not part of
  this model.
- The `getBundle` directory walk, `Bundle(url:)` and `NSLocalizedString` are Foundation
  calls. They are the parameters `locate` and `translate`.
- The public functions `Localized`, `LocalizedWithKeyExtension`, `LocalizedWithBundle` and
  `LocalizedWithKeyExtensionAndBundle` only forward to `localize`.
- `list(set(...))` dedupes by the equality of dotstrings' `LocalizedString`, whose
  definition is outside the model. The model takes it as equality of all six fields
  (value, comment, key extension, bundle, language and table).
- Python's set iteration order is not modelled. `list(set(...))` is modelled as keeping
  first occurrences. This matters only for strings that share the whole sort key; the
  stable sort then keeps an order Python leaves to the set.
- Generation.SortKeyLt orders a missing key extension before any present one. Python
  raises `TypeError` when it compares `None` with a string. That happens only for two
  strings with the same key, and by `KeyInputCollision` those need a key text such as
  `a:b` with no extension against `a` with extension `b`.
- Detection.Detector.DetectStrings requires every pattern of its table to capture at least
  two groups. Both languages' tables meet this (`TableUsable`). Python would fail on a
  shorter tuple.
- Generation.Workspace.CompareListing requires the bundle's temporary listing to exist.
  `generate_code_strings_file` has always written it. `filecmp.cmp` would raise otherwise.
- Regular expressions are modelled only for the fixed shapes the program uses: the call
  patterns, the invalid-call pattern and `%#@(.*?)@`. There is no general regex engine.
- Detection.Detector.constructor takes the file's text as read, after Python's text-mode
  newline translation. `localizable_files` models that translation explicitly
  (`UniversalNewlines`).
- The `find` expression itself (`-type f -name '*.swift' -o -name '*.m'`) is not modelled.
  Its output is taken as given.
