# Saved Prompts asset reconciliation, in Dafny

This project models the core of a wildcard-metadata extension for an image-generation web UI. The extension does four things:

- **Wildcard enumeration.** `collect_Wildcards` walks the wildcard roots. A `.txt` file becomes one identifier: its root-relative path with every literal `.txt` removed. A `.yaml`/`.yml` file contributes the `/`-joined key paths of its nested mappings (`get_yaml_paths` and its inner `traverse`).
- **Display names.** `precompute_prompt_names` gives each identifier a category (the segment above the last) and a display name. The display name is the last segment, with ` (<category>)` appended when that last segment is shared. `get_safe_name` and `get_safe_name_2` are two further naming helpers that the page does not call.
- **Sidecar store.** The Saved Prompts page keeps one JSON sidecar `<identifier>.json` per wildcard under the records root PROMPTS_DIR. `ensure_prompt_json_exists` writes a default record when none is there. `refresh` rebuilds the page's name cache and metadata cache. `create_item` and `list_items` produce the listed items, sorted by the lower-cased identifier.
- **Stale-asset sweep.** `enforce_asset_rules` classifies every file under PROMPTS_DIR. Files with a foreign extension, and sidecars or images of wildcards that are no longer live, are moved (never deleted) into a backup tree that mirrors their paths. Only successful moves are counted. The sweep then removes empty directories bottom-up. The cleanup callback of the settings page reports the count in a status string.

The file system is a value, `Storage.Disk(records, dirs, backup)`:

- `records` maps relative paths to file contents.
- `dirs` is the set of directories under PROMPTS_DIR, with `""` standing for PROMPTS_DIR itself.
- `backup` holds the files under `_tmp_bak_/Prompts`, keyed by the relative path each file had under PROMPTS_DIR.

The outcome of every move, directory removal and sidecar write is a parameter: the sets `moveFails`, `rmdirFails` and `writeFails`, or the flag `writeOk`. A wildcard root is given as the sequence of files `os.walk` finds under it. A YAML file carries the outcome of `yaml.safe_load` on it, either a `Node` or `ParseError`. The wrap string `WILD_STR` is the parameter `wrap`.

Modules:

- `Text`: the Python string built-ins the code relies on, restricted to ASCII casing: `split('/')`, `'/'.join`, `replace(pat, "")`, `upper`/`lower`, `str(n)`, `rfind`, `os.path.splitext`, and `sorted(key=str.lower)`.
- `Storage`: the disk value and path containment.
- `Wildcards`: enumeration.
- `SafeNames`: the two helpers.
- `AssetRules`: the sweep, with the methods proved against the specification function `Sweep`.
- `SweepProperties` and `Classification`: what the sweep guarantees.
- `PromptTab`: sidecars, names, the page class `SavedPromptsPage` with its two cache fields, items, and the cleanup callback.

## Model

| member | source | states |
|---|---|---|
| Text.Split | scripts/style_utils.py:82 | `s.split('/')` yields at least one part, and no part contains '/' |
| Text.JoinSplit | scripts/style_utils.py:88-89 | joining the parts of a split with '/' gives the string back |
| Text.SplitJoin | scripts/style_utils.py:88-89 | splitting a join of slash-free parts gives the parts back |
| Text.LastSegment | scripts/prompt_tab.py:73 | `path.split('/')[-1]` contains no '/' |
| Text.ParentSegment | scripts/prompt_tab.py:78 | `parts[-2]` (or "" for one part) contains no '/' |
| Text.LastSegmentAppend | scripts/prompt_tab.py:97 | appending slash-free text to a path extends its last segment by exactly that text |
| Text.LastSegmentAfterSlash | scripts/prompt_tab.py:97 | the last segment is the text after the last '/' (`rfind`) |
| Text.TailSlice | scripts/style_utils.py:88-89 | `parts[-n:]` has n elements (all of them when n is 0 or too large), and they are a suffix of `parts` |
| Text.RemoveAll | scripts/style_utils.py:55 | `replace(pat, "")` never lengthens the string |
| Text.RemoveAllAbsent | scripts/style_utils.py:55 | `replace` leaves a string in which the pattern never occurs unchanged |
| Text.RemoveTxtSuffix | scripts/style_utils.py:55 | removing every ".txt" from `s + ".txt"` equals removing every ".txt" from `s` |
| Text.LowerAppend | scripts/style_utils.py:158 | lower-casing distributes over concatenation |
| Text.NatToString | scripts/prompt_tab.py:25 | `str(n)` is a non-empty string of decimal digits without a leading zero |
| Text.NatToStringValue | scripts/prompt_tab.py:25 | reading back the digits of `str(n)` gives n |
| Text.NatToStringInjective | scripts/prompt_tab.py:25 | different counts are written differently |
| Text.LastIndexOf | scripts/style_utils.py:146 | `rfind`: -1 or an index holding the character, with no occurrence after it |
| Text.LastIndexOfUnique | scripts/style_utils.py:146 | those three facts determine `rfind` uniquely |
| Text.SplitExt | scripts/style_utils.py:146 | `splitext` splits the path into a root and an extension that concatenate back to it; the extension is empty or is '.' followed by no '.' and no '/' |
| Text.SplitExtAppend | scripts/style_utils.py:156 | `splitext(w + ext)` is `(w, ext)` for an extension appended to a path whose last component has a stem |
| Text.LexLeTotal | scripts/prompt_tab.py:131 | Python's string order is total |
| Text.LexLeTransitive | scripts/prompt_tab.py:131 | Python's string order is transitive |
| Text.InsertByLower | scripts/prompt_tab.py:131 | inserting into a list sorted by lower-cased value keeps it sorted and adds exactly that element |
| Text.SortByLower | scripts/prompt_tab.py:131 | `sorted(key=str.lower)` returns a permutation of its input in non-decreasing order of the lower-cased strings |
| Storage.InsideTransitive | scripts/style_utils.py:171-178 | lying below a directory is transitive |
| Storage.AncestorContains | scripts/prompt_tab.py:56 | a path lies below every directory `os.makedirs(os.path.dirname(...))` creates for it |
| Wildcards.Traverse | scripts/style_utils.py:62-68 | `traverse` adds exactly the leaf paths of the node to the closure's set |
| Wildcards.LeafReached | scripts/style_utils.py:62-68 | every key sequence that ends at a non-mapping value is emitted |
| Wildcards.LeafOrigin | scripts/style_utils.py:62-68 | every emitted path comes from a key sequence ending at a non-mapping value |
| Wildcards.EmittedPathIsJoin | scripts/style_utils.py:65 | a top-level emitted path is the '/'-join of its keys when the first key is not empty |
| Wildcards.FoldFromPrefix | scripts/style_utils.py:65 | below a non-empty prefix, the built path is the '/'-join of the prefix and the keys |
| Wildcards.ScalarDocument | scripts/style_utils.py:67-68 | a document that is not a mapping yields the single path "" |
| Wildcards.EmptyMapping | scripts/style_utils.py:63-66 | an empty mapping contributes nothing |
| Wildcards.NestedExample | scripts/style_utils.py:62-68 | {a: {b: 1, c: {d: 2}}} yields exactly a/b and a/c/d |
| Wildcards.ListOfSet | scripts/style_utils.py:75 | `list(paths)` holds every element of the set exactly once |
| Wildcards.GetYamlPaths | scripts/style_utils.py:70-79 | a parse error yields `[]`; otherwise each leaf path exactly once |
| Wildcards.FileIdentifiers | scripts/style_utils.py:53-58 | one file contributes its list identifier, its YAML paths, or nothing, according to its lower-cased extension |
| Wildcards.RootIdentifiers | scripts/style_utils.py:52-58 | the walk of one root contributes what its files contribute, duplicates included |
| Wildcards.CollectWildcards | scripts/style_utils.py:47-59 | the result holds, with multiplicity, the contributions of all files of all roots |
| Wildcards.CollectedAppend | scripts/style_utils.py:51 | collecting over two lists of roots gives the multiset sum, so duplicates across roots are kept |
| Wildcards.ListFileIdentifier | scripts/style_utils.py:54-56 | "stem.txt" is a list file, and its identifier is its root-relative path with every literal ".txt" removed |
| Wildcards.UpperCaseExtensionKept | scripts/style_utils.py:54-55 | the list-file test ignores case but the stripping does not: "A.TXT" is the wildcard "A.TXT" |
| Wildcards.OtherFilesIgnored | scripts/style_utils.py:53-58 | files with any other extension contribute nothing |
| Wildcards.StructuredFileContribution | scripts/style_utils.py:57-58 | a YAML file that fails to parse contributes nothing; one that parses contributes each leaf path once |
| SafeNames.SafeName | scripts/style_utils.py:81-97 | `get_safe_name`; its properties are the lemmas below: `SafeNameUnchangedIff` (unchanged exactly when the curated tail is unique), `SafeNameSeparatesParents`, `ParentAboveCurated` and `ShortPathCuratedWhole` |
| SafeNames.SafeNameUnchangedIff | scripts/style_utils.py:81-97 | `get_safe_name` returns the curated form unchanged exactly when it occurs at most once in the list |
| SafeNames.SafeNameSeparatesParents | scripts/style_utils.py:92-95 | two colliding paths with non-empty parents get equal names exactly when their parents are equal |
| SafeNames.BracketInjective | scripts/style_utils.py:95 | the parenthesised suffix can be read back from the name |
| SafeNames.ParentAboveCurated | scripts/style_utils.py:83-88 | the returned parent is the segment just above the curated part |
| SafeNames.ShortPathCuratedWhole | scripts/style_utils.py:83-88 | a path with no more segments than the inclusion level is its own curated form, with parent "" |
| SafeNames.SafeName2 | scripts/style_utils.py:99-116 | `get_safe_name_2`; its properties are `SafeName2Shape`, `SafeName2UsesParent`, `SafeName2EmptySuffix` and `SafeName2CountsItself` |
| SafeNames.SafeName2Shape | scripts/style_utils.py:99-116 | `get_safe_name_2` always returns "<last>(<suffix>)" and the second-to-last segment |
| SafeNames.SafeName2UsesParent | scripts/style_utils.py:110-116 | a path with a parent whose two-segment form is not repeated is named "<last>(<parent>)" |
| SafeNames.SafeName2EmptySuffix | scripts/style_utils.py:114-116 | "a" absent from the list is named "a()" |
| SafeNames.SafeName2CountsItself | scripts/style_utils.py:107-116 | "a" listed once counts itself and is named "a((2))" |
| AssetRules.ArchiveFile | scripts/style_utils.py:127-138 | a successful move puts the file under the same path in the backup tree and adds one to the count; a failed move changes nothing |
| AssetRules.ArchivePass | scripts/style_utils.py:140-166 | the first walk moves exactly the files that are not kept and whose move succeeds, and counts them |
| AssetRules.ArchiveEach | scripts/style_utils.py:144-166 | the loop over the files moves and counts exactly the target set |
| AssetRules.ArchiveOne | scripts/style_utils.py:145-166 | one visit archives the file exactly when it is in the target set |
| AssetRules.MoveOneMore | scripts/style_utils.py:135-136 | moving one more file extends the moved set and the count by one |
| AssetRules.PrunePass | scripts/style_utils.py:171-178 | the bottom-up pass leaves exactly the directories that still hold a file or whose removal (or that of an empty directory below them) failed |
| AssetRules.PruneStep | scripts/style_utils.py:174-178 | a directory visited after everything below it stays exactly when it survives the prune |
| AssetRules.EnforceAssetRules | scripts/style_utils.py:118-180 | the count and the new disk are those of `Sweep`: nothing changes when the root is not a directory |
| AssetRules.Sweep | scripts/style_utils.py:118-180 | `enforce_asset_rules` as one function of the disk; its properties are stated by `SweepSameElements`, `SweepOnlyRemoves`, `SweepRemaining`, `SweepLosesNoFile`, `SweepCountsMoves`, `SweepIdempotent` and `SweepKeepsTree` |
| AssetRules.SweepSameElements | scripts/style_utils.py:124 | two live lists with the same elements, in any order and with any repetition, give the same sweep |
| SweepProperties.SweepOnlyRemoves | scripts/style_utils.py:118-180 | a sweep never adds a file or a directory to the records tree and never drops a backup path |
| SweepProperties.SweepRemaining | scripts/style_utils.py:144-166 | a file stays in the records tree exactly when it is kept or its move failed |
| SweepProperties.SweepLosesNoFile | scripts/style_utils.py:127-138 | every file either stays where it was or is in the backup tree with the same content |
| SweepProperties.SweepKeepsOtherBackups | scripts/style_utils.py:132-135 | backup entries the sweep did not write are untouched |
| SweepProperties.SweepCountsMoves | scripts/style_utils.py:136-180 | the returned count is exactly the number of files that left the records tree |
| SweepProperties.SweepConforms | scripts/style_utils.py:144-166 | when no move fails, every file left conforms and belongs to a live wildcard |
| SweepProperties.SecondSweepArchivesNothing | scripts/style_utils.py:140-180 | after a sweep without failed moves, a second sweep with the same live list archives 0 |
| SweepProperties.SweepIdempotent | scripts/style_utils.py:118-180 | without failures, a second sweep changes nothing and returns 0 |
| SweepProperties.PrunedHasFile | scripts/style_utils.py:171-178 | without failed removals, every directory left holds a file |
| SweepProperties.PruneRemovesEmptyDirs | scripts/style_utils.py:171-178 | a directory holding a file is never removed, and without failed removals a directory stays exactly when it holds a file (PROMPTS_DIR included) |
| SweepProperties.SweepKeepsTree | scripts/style_utils.py:171-178 | the sweep keeps every directory above each file and directory that remains |
| SweepProperties.FileAncestorKept | scripts/style_utils.py:174 | the prune never removes a directory above a remaining file |
| SweepProperties.DirAncestorKept | scripts/style_utils.py:171-178 | the prune never removes a directory above a directory it keeps |
| SweepProperties.AncestorSurvives | scripts/style_utils.py:171-178 | a directory above a surviving directory survives |
| Classification.ClassifyByExtension | scripts/style_utils.py:146-163 | conformance depends only on the lower-cased extension, and the base identifier does not depend on it |
| Classification.OtherExtensionNonConforming | scripts/style_utils.py:148-153 | a file with any other extension is archived whatever is live |
| Classification.NoExtensionNonConforming | scripts/style_utils.py:146-153 | a file whose name has no '.' is archived whatever is live |
| AssetRules.Classify | scripts/style_utils.py:146-166 | the verdict on one file; `ClassifyByExtension`, `OtherExtensionNonConforming`, `NoExtensionNonConforming`, `AssetVerdict` and `PreviewVerdict` state it per kind of file |
| Classification.AssetVerdict | scripts/style_utils.py:146-166 | `<w>.json` and `<w>.<image ext>` are kept exactly when `w` is live, ignoring case; other extensions are non-conforming |
| Classification.PreviewVerdict | scripts/style_utils.py:156-166 | `<w>.preview.<ext>` is kept exactly when `w` is live |
| Classification.PreviewNamedWildcardLosesSidecar | scripts/style_utils.py:158-166 | a live wildcard named `<w>.preview` loses its own sidecar, which is read as the preview of `w` |
| Classification.PreviewSuffix | scripts/style_utils.py:158 | `<w>.preview` has a stem and ends in ".preview" under any casing |
| PromptTab.DefaultRecord | scripts/prompt_tab.py:58-62 | the default record has exactly the four keys, with the wrapped name as the activation text and "" elsewhere |
| PromptTab.NotOwnAncestor | scripts/prompt_tab.py:56-57 | creating the directories above a sidecar never creates the sidecar path itself |
| PromptTab.SavedPromptsPage.EnsurePromptJsonExists | scripts/prompt_tab.py:54-69 | the directories above the sidecar are created; an existing file or directory is left alone and None returned; otherwise the default record is written and returned, or None if the write fails |
| PromptTab.EnsureAllKeeps | scripts/prompt_tab.py:92-93 | ensuring sidecars never removes or changes an existing file, and never removes a directory |
| PromptTab.EnsureAllCreates | scripts/prompt_tab.py:92-93 | after the loop, every listed wildcard whose sidecar existed or was written has one, with its directories |
| PromptTab.WrittenSidecarLoads | scripts/prompt_tab.py:58-101 | a written sidecar loads back as the default record |
| PromptTab.Counter | scripts/prompt_tab.py:73 | the counter has exactly the elements of the sequence as keys, each mapped to its number of occurrences (its multiset count) |
| PromptTab.CountBases | scripts/prompt_tab.py:73 | the Counter has exactly the last segments as keys, each mapped to its number of occurrences |
| PromptTab.NameOf | scripts/prompt_tab.py:76-84 | one loop step computes the name-cache entry of the path |
| PromptTab.SavedPromptsPage.PrecomputePromptNames | scripts/prompt_tab.py:71-85 | every listed path, and nothing else, gets its display name and category |
| PromptTab.DisplayNamesSeparate | scripts/prompt_tab.py:80-81 | two different paths sharing a last segment get equal display names exactly when their categories are equal |
| PromptTab.DisplayNamePlainIff | scripts/prompt_tab.py:80-83 | the display name is the bare last segment exactly when that segment occurs at most once |
| PromptTab.SameCategoryCollides | scripts/prompt_tab.py:76-84 | paths sharing the last segment and the category get the same entry |
| PromptTab.GlobStem | scripts/prompt_tab.py:97 | the wildcard read from a globbed path is the path without ".json" |
| PromptTab.MetadataCache | scripts/prompt_tab.py:99-105 | the metadata cache has only named wildcards as keys |
| PromptTab.CacheOfOneMore | scripts/prompt_tab.py:96-105 | visiting a sidecar adds the entry of its wildcard when that is named, and nothing otherwise |
| PromptTab.SidecarPathInjective | scripts/prompt_tab.py:55 | different wildcards have different sidecars |
| PromptTab.SavedPromptsPage.EnsureEach | scripts/prompt_tab.py:92-93 | the ensure loop leaves the disk that ensuring each collected path in order gives |
| PromptTab.SavedPromptsPage.LoadSidecars | scripts/prompt_tab.py:95-105 | the glob loop builds exactly the metadata cache |
| PromptTab.SavedPromptsPage.Refresh | scripts/prompt_tab.py:87-106 | both caches are replaced: names for every collected path, and metadata for every named wildcard whose sidecar the glob finds after the ensure loop |
| PromptTab.EveryLiveSidecarCached | scripts/prompt_tab.py:92-102 | a listed wildcard whose sidecar existed or was written, and is not hidden, is cached after refresh |
| PromptTab.ObjectSidecarCached | scripts/prompt_tab.py:97-102 | a globbed sidecar of a named wildcard holding a JSON object is cached as that object |
| PromptTab.UnreadableCachedEmpty | scripts/prompt_tab.py:103-105 | a globbed sidecar of a named wildcard that does not load (a directory, a file that is not JSON) is cached as `{}`, not dropped; the model also caches non-object JSON as `{}` (see Left out) |
| PromptTab.CreateItem | scripts/prompt_tab.py:108-127 | `create_item` without the fields left out; `ItemSortKeys`, `DefaultRecordItem` and `ListedItemNamed` state what an item shows |
| PromptTab.ItemSortKeys | scripts/prompt_tab.py:109-120 | `sort_keys.name` is the lower-cased display name and `default` ends with "-" and it; a name missing from the cache falls back to its last segment with an empty category |
| PromptTab.DefaultRecordItem | scripts/prompt_tab.py:108-127 | an item from the default record shows the same texts as one from an empty record |
| PromptTab.ListedItemNamed | scripts/prompt_tab.py:109-120 | an item of a listed wildcard carries the display name and category the name cache computed |
| PromptTab.SavedPromptsPage.CreateItems | scripts/prompt_tab.py:133-134 | one item per name, in order, built from the caches |
| PromptTab.SavedPromptsPage.ListItems | scripts/prompt_tab.py:129-134 | after a refresh, the items are those of the metadata-cache keys, each once, in non-decreasing order of the lower-cased identifier |
| PromptTab.CleanupStatus | scripts/prompt_tab.py:25-28 | the status text after a sweep; `CleanupStatusReportsCount` states that it tells "nothing archived" apart and tells every count apart |
| PromptTab.CleanupStatusReportsCount | scripts/prompt_tab.py:25-28 | the status is the "No stale files found" message exactly when nothing was archived, and different counts give different statuses |
| PromptTab.CleanupCallback | scripts/prompt_tab.py:20-30 | for every ordering of the collected wildcards, the status and the disk are those of the sweep against it (`SweepSameElements`: the order and repetition of the list do not matter) |

## Left out

- I/O is not modelled as such. `os.walk`, `shutil.move`, `os.rmdir`, `os.makedirs`, `open`, `glob`, `json.load`/`dump` and `yaml.safe_load` act on the `Disk` value, or are inputs (the files of a wildcard root and their parse results). Whether a move, a removal or a write fails is a parameter. Log messages are not modelled.
- Wildcards.CollectWildcards: states its result as a multiset. The order of `os.walk` and of iterating a Python set is not modelled.
- Wildcards.GetYamlPaths: also states its result as a multiset, for the same reason.
- Wildcards.GetYamlPaths and Wildcards.Traverse: the code catches only `yaml.YAMLError`. An `OSError` from `open` or a `UnicodeDecodeError` while reading escapes `collect_Wildcards` and ends the refresh, `list_items` or the cleanup callback with that error; the model's `ParseError` makes every failure contribute nothing.
- Wildcards.Traverse: mapping keys are strings only. A non-string top-level key (`1:`, `null:`, `true:`) over a scalar puts a non-string into the list, on which `path.split` and `upper()` later raise; a falsy top-level key (`0:`, `null:`) over a mapping loses its prefix. Neither is modelled.
- PromptTab.SavedPromptsPage.ListItems: `sorted` is stable, so identifiers equal once lower-cased keep their glob order. The model orders the metadata-cache keys in an unspecified order before sorting, so the order among such ties is left open.
- AssetRules.MoveToBackup: a file already at the backup path is replaced. Moving onto an existing backup file is platform-dependent and is not modelled further.
- Path normalisation is not modelled (`os.path.join`, `relpath`, separators other than '/'). Paths are relative and '/'-separated, as on POSIX, where `replace(os.path.sep, "/")` changes nothing.
- The walks' skip of paths under the backup root `_tmp_bak_` is not modelled. The backup tree is a separate map, because in the extension's layout the backup root lies outside PROMPTS_DIR.
- PromptTab.SavedPromptsPage.EnsurePromptJsonExists: a failing `os.makedirs` (a file where a directory is needed) is not modelled; the directories are always created. A partially written sidecar is not modelled either: a write either succeeds or leaves nothing.
- PromptTab.Load: a sidecar that holds valid JSON other than an object (a list, a string, a number) is cached as loaded by the code, and `create_item` then fails on `user_metadata.get`, which ends `list_items` with an AttributeError. The model does not carry such documents: they are `Raw` files, and `Load` caches them as `{}`, like a file that does not load. Sidecar values that are not strings are not modelled either.
- The class constructor's `os.makedirs(PROMPTS_DIR)` and the `ExtraNetworksPage` base class are not modelled.
- The prune tests emptiness with `os.listdir` (direct children), and the model with "no file and no directory below". On a tree closed under ancestors these are the same; `SweepKeepsTree` shows that the sweep keeps that shape.
- `shorthash`, `preview`, `search_terms`, `local_preview` and `quote_js` of `create_item` are not modelled. They depend on Python's randomised `hash` or on host functions that are not part of this model. `prompt` and `negativePrompt` are the texts before quoting.
- Unicode case mapping is reduced to ASCII `upper`/`lower`.
- `find_ext_wildcard_paths`, `silentremove`, the settings-page registration (`on_ui_settings`) and scripts/ui_edit_prompt_metadata.py are host wiring, not part of this model.
- Collisions that remain after adding the category are not disambiguated further: the code does not append a counter, and the model follows the code. `SameCategoryCollides` shows that two wildcards with the same last segment and category get the same display name.
- A live wildcard whose own name ends in ".preview" has its sidecar archived: the sweep reads `<w>.preview.json` as the preview of `<w>`. `PreviewNamedWildcardLosesSidecar` states this behaviour of the code.
