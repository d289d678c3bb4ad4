# Catalogue merge tools, modelled in Dafny

The repository holds three scripts that keep game XML documents in step with a catalogue.

- **The merge tool** (`Tools/_theft.py`) builds its catalogue from every `<Item …>…</Item>` block of the source documents. Each entry maps an identifier to the block's inner text, with Fabricate/Deconstruct components removed and the text stripped; a later block overwrites an earlier one. The tool then rewrites every block of every target document whose identifier the catalogue knows and whose inner text differs up to whitespace. The new inner text is the catalogue text, re-indented one tab deeper than the block's tag. The tool writes a diff for every changed document and a MISSING report of the catalogue identifiers that no target carries. Only after a yes at the prompt does an apply run write the new documents.
- **The text swapper** (`Text/_swapper.py`) normalises a target's line endings and four-space indentation. It then replaces the text of every `<tag>text</tag>` element whose tag has a patch value, and normalises again.
- **The cleaner** (`Tools/cleaner/cleaner.py`) walks the comments and Items of the source documents. It files each identifier under `subfolder_stem → category`, once per category, records identifiers that have no name or no description in the language file, and writes the organised language file.

Module overview:

- **Pattern scanners:** `ItemScanner` for the three patterns of the merge tool. Each is a left-to-right scanner with the leftmost, lazy semantics these particular patterns have; no regular-expression engine is modelled.
- **Text functions:** `Whitespace` holds `normalize_whitespace` and `reindent`, `Lines` holds line splitting and line-ending conversion, and `Formatting` holds the swapper's `normalize_formatting`.
- **Merge tool:** `Catalog` builds the catalogue, `Merge` models `update_tar_file` and its replacer, and `Controller` models `main` as a two-state machine (dry run, then at most one apply run).
- **Swapper:** `Swapper` holds `patch_xml_content`, the `patch_dict` accumulation and the per-target writes.
- **Cleaner:** `Cleaner` has the `Organizer` class, whose fields are the cleaner's mutable globals.
- **Shared helpers:** `Wrappers` (Option), `Strings` (ASCII whitespace, strip, lower-casing, substring search), `Dicts` (last-wins dictionary building) and `StringOrder` (Python's string order, and `sorted(set(…))`).

The modelling choices:

- File contents, directory listings, the platform's line separator (`os.linesep`, the parameter `sep`) and the answers typed at prompts are inputs.
- Whatever the scripts write is recorded as a sequence of write effects.
- The cleaner's parsed tree is a sequence of events (`Comment(text)`, `ItemElem(identifier?)`, `OtherElem`) in `tree.iter()` order.

## Model

| member | source | states |
|---|---|---|
| ItemScanner.IndentLengthSpec | Tools/_theft.py:19 | the `indent` group is the maximal run of spaces and tabs at the line start |
| ItemScanner.AttrsEndSpec | Tools/_theft.py:19 | the `attrs` group runs up to the first `>`, and holds none |
| ItemScanner.MatchAtSound | Tools/_theft.py:18-21 | a match found at a position is well formed: indent of spaces/tabs, attrs without `>`, inner ending at the first `</Item>`; its text is a prefix of the input |
| ItemScanner.MatchAtComplete | Tools/_theft.py:18-21 | conversely, every well-formed block at the head of the input is the match found there |
| ItemScanner.Scan | Tools/_theft.py:18-21 | `finditer`/`sub` split a document into literal characters and blocks that render back to the document exactly; every block is well formed and starts at a line start |
| ItemScanner.RenderAppend | Tools/_theft.py:18-21 | rendering distributes over concatenation of pieces |
| ItemScanner.IdentAtIff | Tools/_theft.py:24 | `identifier="v"` matches at a position exactly when `v` is non-empty, has no `"`, and the text there is `identifier="v"` |
| ItemScanner.FirstIdentFrom | Tools/_theft.py:24 | the search finds the leftmost match position at or after the start, or reports that there is none |
| ItemScanner.FindIdentifier | Tools/_theft.py:24 | `IDENTIFIER_REGEX.search` returns the value of the leftmost match (non-empty, without `"`), or nothing when no position matches |
| ItemScanner.FirstCloseSpec | Tools/_theft.py:27-30 | the lazy group stops at the first `</Fabricate>` or `</Deconstruct>` after the opening, whichever name it carries |
| ItemScanner.ComponentAt | Tools/_theft.py:27-30 | a component match at the head of the text spans `<Fabricate` or `<Deconstruct`, a word boundary, then up to and including the first closing tag |
| ItemScanner.ComponentAtComplete | Tools/_theft.py:27-30 | conversely, every such span at the head is the match found there |
| ItemScanner.RemoveComponents | Tools/_theft.py:67 | removing the components never lengthens the text |
| ItemScanner.RemoveComponentsKeeps | Tools/_theft.py:67 | characters before which no component span starts are kept, in place |
| ItemScanner.RemoveComponentsDrops | Tools/_theft.py:27-30 | a component span at the head is removed whole, up to and including its first closing tag |
| ItemScanner.RemoveComponentsStep | Tools/_theft.py:67 | `sub('', s)` keeps the text before the leftmost component span, drops that span and goes on after it |
| ItemScanner.RemoveComponentsNone | Tools/_theft.py:67 | a text in which no component span starts comes back unchanged |
| ItemScanner.RemoveComponentsNoOpening | Tools/_theft.py:67 | a text with no component opening comes back unchanged |
| Whitespace.NormalizeIsJoinedWords | Tools/_theft.py:32-34 | the normal form is the text's words joined by single spaces |
| Whitespace.NormalizeCanonical | Tools/_theft.py:32-34 | the normal form has no leading or trailing whitespace and no two adjacent whitespace characters, and its only whitespace is `' '` |
| Whitespace.NormalizeIdempotent | Tools/_theft.py:32-34 | normalising twice equals normalising once |
| Whitespace.SameNormalForm | Tools/_theft.py:32-34 | two texts have the same normal form exactly when they have the same words |
| Lines.SplitLines | Tools/_theft.py:38 | `splitlines` gives no lines for the empty text only, and no line holds a line break |
| Whitespace.ReindentShape | Tools/_theft.py:36-40 | the empty text gives `""`; otherwise the result's `"\n"`-separated lines are the `splitlines` lines one for one, each non-blank line prefixed by the indent and each blank one emptied; no `\r` is added |
| Whitespace.ReindentKeepsWords | Tools/_theft.py:36-40 | with a whitespace indent, re-indenting keeps the words and so the normal form |
| Lines.ToLF | Tools/_theft.py:118 | the converted text holds no `\r` |
| Lines.ToLFIsOnePass | Text/_swapper.py:34 | the two replacements equal one pass that turns each `\r\n` and each lone `\r` into exactly one `\n` |
| Lines.ToLFKeepsLFText | Text/_swapper.py:34 | a text without `\r` is left as it is |
| Whitespace.WordsOfToLF | Tools/_theft.py:118 | the line-ending conversion keeps the words |
| Lines.SplitJoin | Text/_swapper.py:36 | splitting joined lines at `"\n"` gives them back |
| Lines.JoinSplit | Text/_swapper.py:36 | joining the `"\n"`-separated parts gives the text back |
| Dicts.LastWinsKeys | Tools/_theft.py:69 | a key is in the dictionary exactly when some assignment sets it |
| Dicts.LastWinsValue | Tools/_theft.py:69 | each key holds the value of its last assignment |
| Dicts.LastWinsAppend | Text/_swapper.py:65 | `update` with a later batch overrides the earlier entries |
| Catalog.CleanInner | Tools/_theft.py:67 | the cleaned inner text neither starts nor ends with whitespace |
| Catalog.AssignBlocks | Tools/_theft.py:60-69 | the loop over one document's blocks leaves the dictionary updated with their identified entries, the last one winning |
| Catalog.ExtractItemsFromSrc | Tools/_theft.py:48-70 | the catalogue holds every identified block of every readable `.xml` source, last one winning; unreadable and non-`.xml` files are skipped |
| Catalog.CatalogKeys | Tools/_theft.py:60-69 | an identifier is a catalogue key exactly when a block of a readable `.xml` source carries it |
| Catalog.CatalogValues | Tools/_theft.py:60-69 | every catalogue value is the cleaned inner text of some block carrying that identifier |
| Merge.KnownId | Tools/_theft.py:94-99 | a block's identifier counts only when the identifier search finds one and the catalogue knows it |
| Merge.Replacer | Tools/_theft.py:89-113 | the replacer returns the block's new text and adds to `used_ids` exactly the known identifier |
| Merge.NewBlockTextIs | Tools/_theft.py:112 | the rebuilt block keeps the indent and the attribute text, with line separators around the re-indented catalogue text and the indent before `</Item>` |
| Merge.NewInnerInSync | Tools/_theft.py:101-112 | the rebuilt inner text has the catalogue text's normal form |
| Merge.ReplacementChangesIff | Tools/_theft.py:94-112 | a block's text changes exactly when its identifier is known and its inner text differs from the catalogue's up to whitespace |
| Merge.ReplacedBlockIsStable | Tools/_theft.py:101-112 | a rewritten block is matched whole by the block pattern again, and a second merge with the same catalogue leaves it unchanged |
| Merge.MatchedIdsIff | Tools/_theft.py:94-100 | an identifier is recorded exactly when the catalogue knows it and some matched block carries it, in sync or not |
| Merge.MatchedIdsInCatalog | Tools/_theft.py:98-100 | `used_ids` gains catalogue keys only |
| Merge.SubstituteAll | Tools/_theft.py:115 | calling the replacer on every match in order produces the substituted text and all the recorded identifiers |
| Merge.SubstituteAppend | Tools/_theft.py:115 | the substitution works piece by piece over a concatenation |
| Merge.OutsideBlocksCopied | Tools/_theft.py:115 | every character outside the matched blocks comes through unchanged, in its place |
| Merge.SubstituteIdentity | Tools/_theft.py:95-106 | where the replacer returns every block as found, the substitution gives the text back |
| Merge.PostProcessKeepsNormalForm | Tools/_theft.py:117-119 | the post-processing keeps the text's normal form |
| Merge.ChangedIffSubstitutionDiffers | Tools/_theft.py:117-122 | `changed` holds exactly when the substituted text's normal form differs from the original's, whatever the post-processing does |
| Merge.NothingReplacedNotChanged | Tools/_theft.py:115-122 | when no block is rewritten, the substitution returns the original and the document is not changed |
| Merge.EmptyCatalogChangesNothing | Tools/_theft.py:115-122 | with an empty catalogue nothing is rewritten, nothing is recorded and nothing changes |
| Merge.UpdateTarFile | Tools/_theft.py:72-123 | a read failure gives `("", "", False)` and records nothing; otherwise the triple of original, post-processed substitution and change flag, with the matched identifiers recorded |
| StringOrder.SortIds | Tools/_theft.py:165 | `sorted(set)`: strictly ascending in Python's string order, with exactly the set's elements, each once |
| StringOrder.AscendingUnique | Tools/_theft.py:165 | a set has only one strictly ascending listing |
| StringOrder.SortedList | Tools/_theft.py:165 | the specification of `sorted` on a set: its strictly ascending listing |
| Controller.XmlTargets | Tools/_theft.py:141 | the targets kept are exactly the listed files whose name ends in `.xml` |
| Controller.XmlTargetsAppend | Tools/_theft.py:141 | the filter works file by file, so it keeps listing order and repeats |
| Controller.Tool.constructor | Tools/_theft.py:11 | a tool starts with the given DRY_RUN flag and nothing written |
| Controller.Tool.ProcessTarget | Tools/_theft.py:144-162 | one target: its diff when changed, its new text too when not in a dry run, and `used_ids` grown by its matched identifiers |
| Controller.Tool.ProcessTargets | Tools/_theft.py:143-162 | the whole loop: every target's writes in listing order, with `used_ids` the union of the targets' identifiers |
| Controller.Tool.ReportMissing | Tools/_theft.py:164-170 | MISSING.txt is written, sorted, exactly when some identifier went unused |
| Controller.Tool.Pass | Tools/_theft.py:134-170 | one run writes what its target loop and its missing report write, in that order, and keeps the flag |
| Controller.Tool.Session | Tools/_theft.py:172-176 | a dry run followed by an apply run on a yes, leaving the flag cleared; on any other answer only the dry run; without DRY_RUN a single apply run |
| Controller.AffirmativeIff | Tools/_theft.py:173-174 | the prompt accepts exactly `y` and `Y`, with whitespace around |
| Controller.DryRunWritesNoOutput | Tools/_theft.py:155-159 | a dry run writes no target document |
| Controller.EffectOfTargets | Tools/_theft.py:143-162 | a write of the target loop is exactly a write of one of its targets |
| Controller.DiffIffChanged | Tools/_theft.py:149-154 | in either kind of run, a diff of the raw original against the post-processed text is written exactly for the readable `.xml` targets that changed |
| Controller.OutputOnlyWhenChanged | Tools/_theft.py:155-159 | an apply run writes a target exactly when it changed, and then with its merged text |
| Controller.UsedIdsIff | Tools/_theft.py:98-100 | an identifier is used exactly when it is a catalogue key and a block of a readable `.xml` target carries it |
| Controller.MissingReport | Tools/_theft.py:164-170 | the MISSING report is written exactly when some catalogue identifier is carried by no target block, and it lists exactly those identifiers in ascending order |
| Formatting.LeadingBlanks | Text/_swapper.py:36 | the leading run is all spaces and maximal |
| Formatting.NormalizeFormatting | Text/_swapper.py:32-37 | the normalised text holds no `\r` |
| Formatting.RetabNoCR | Text/_swapper.py:36 | the indentation rewrite adds no `\r` |
| Formatting.RetabLine | Text/_swapper.py:36 | the rewrite of one line adds no `\n` |
| Formatting.RetabLineShape | Text/_swapper.py:36 | a line whose leading run is 4k+r spaces (r < 4) becomes k tabs, r spaces and the rest of the line unchanged |
| Formatting.RetabLineUntouched | Text/_swapper.py:36 | a line starting with a tab, or with fewer than four spaces, is unchanged |
| Formatting.RetabLineIdempotent | Text/_swapper.py:36 | rewriting a line twice equals rewriting it once |
| Formatting.RetabByLines | Text/_swapper.py:36 | the multi-line substitution is the line-by-line rewrite of the text split at `\n` |
| Formatting.NormalizeFormattingLines | Text/_swapper.py:32-37 | the lines of the result are the rewritten lines of the `\n`-converted input |
| Formatting.NormalizeFormattingIdempotent | Text/_swapper.py:32-37 | `normalize_formatting` is idempotent |
| Swapper.TryTagSpec | Text/_swapper.py:30 | the lazy `\S+?` takes the shortest tag of at least the given length for which the rest of the element matches, or reports that none does |
| Swapper.ElementAt | Text/_swapper.py:30 | a match at a position has the shortest working tag, and its text is a prefix of the input; no match exactly when no tag length works |
| Swapper.ElementOfFits | Text/_swapper.py:30 | a matched element has a non-empty tag without whitespace, closes with the same tag name, and ends at the first such closing tag |
| Swapper.ScanRenders | Text/_swapper.py:30 | the scan splits the content into characters and elements that render back to it exactly |
| Swapper.ReplaceTagRule | Text/_swapper.py:20-27 | an element is returned unchanged exactly when its tag has no replacement or the replacement equals its text; otherwise it becomes `<tag>new</tag>` |
| Swapper.PatchPartsIdentity | Text/_swapper.py:18-30 | where every element is returned unchanged, the patch gives the content back |
| Swapper.PatchIdentity | Text/_swapper.py:18-30 | content whose elements all stay unchanged is returned as it is |
| Swapper.PatchEmpty | Text/_swapper.py:18-30 | with no replacements the patch is the identity |
| Swapper.PatchAtElement | Text/_swapper.py:30 | matches do not overlap: a matched element is handled as one piece, so an element nested in it is never patched on its own, and an element whose tag has no replacement is copied with all it contains |
| Swapper.PatchOutside | Text/_swapper.py:30 | where no element starts, the character is copied and the scan moves on |
| Swapper.AttributedTagNeverMatches | Text/_swapper.py:30 | an opening tag with whitespace before its `>` (one with attributes) never starts a match |
| Swapper.BuildPatchDict | Text/_swapper.py:62-65 | the loop builds the dictionary of the children of the `.xml` sources (case-insensitive extension), the last one winning |
| Swapper.PatchDictLastWins | Text/_swapper.py:62-65 | for a tag set by several elements or files, the value is the last one processed |
| Swapper.PatchDictKeys | Text/_swapper.py:62-65 | a tag is a key exactly when some `.xml` source element has it |
| Swapper.SwapTarget | Text/_swapper.py:78-80 | both the normalised original and the normalised patched text are fixed points of `normalize_formatting` |
| Swapper.SwapEmptyPatch | Text/_swapper.py:78-95 | with an empty patch dictionary a target is reported unchanged |
| Swapper.TargetWritesRule | Text/_swapper.py:83-98 | with preview on, nothing is written unless the lower-cased answer is `y`; otherwise the target is saved first, then a diff of the two normalised texts exactly when they differ, and nothing else |
| Cleaner.CategorySnoc | Tools/cleaner/cleaner.py:38-41 | a comment changes the current category exactly when its stripped text is non-empty and does not start with `+++`; it then becomes that text |
| Cleaner.CategoryIsLastHeading | Tools/cleaner/cleaner.py:36-41 | the current category is `None` exactly when no heading comment has been seen, and otherwise the stripped text of the last one |
| Cleaner.ItemsSnoc | Tools/cleaner/cleaner.py:42-50 | an Item without an identifier is skipped; any other Item appends `(current category, identifier)` |
| Cleaner.ItemsOfMembers | Tools/cleaner/cleaner.py:42-50 | a pair is collected exactly when some identified Item carries the identifier with that current category |
| Cleaner.MissingSnoc | Tools/cleaner/cleaner.py:46-49 | an item is appended to a missing list exactly when its identifier is absent from that language map |
| Cleaner.MissingInMembers | Tools/cleaner/cleaner.py:46-49 | an identifier is in a missing list exactly when an item carries it and the map lacks it |
| Cleaner.MissingInCount | Tools/cleaner/cleaner.py:46-49 | a missing list has one entry per item whose identifier the map lacks |
| Cleaner.MissingAppend | Tools/cleaner/cleaner.py:46-49 | the missing list of two batches is the concatenation of theirs |
| Cleaner.Stem | Tools/cleaner/cleaner.py:63 | `splitext(name)[0]` is a prefix of the name |
| Cleaner.LastDot | Tools/cleaner/cleaner.py:63 | the extension starts at the last dot |
| Cleaner.StemOfXml | Tools/cleaner/cleaner.py:59-63 | a `.xml` name that is not all dots before its extension loses exactly `.xml` |
| Cleaner.CategoryName | Tools/cleaner/cleaner.py:66 | a `None` category is filed under `Uncategorized`; a non-empty category under itself |
| Cleaner.AddToCategoriesLookup | Tools/cleaner/cleaner.py:66-68 | `setdefault` + append in one group touches only the named category's list |
| Cleaner.AddEntryLookup | Tools/cleaner/cleaner.py:64-68 | an addition touches only its (group, category) list, appending the entry unless its identifier is already there |
| Cleaner.AddEntryKeys | Tools/cleaner/cleaner.py:65 | a new group key goes to the end of the group order; a known one keeps it |
| Cleaner.DedupMembers | Tools/cleaner/cleaner.py:67 | the de-duplicated list has exactly the values of the input |
| Cleaner.DedupDistinct | Tools/cleaner/cleaner.py:67 | the de-duplicated list holds each value once |
| Cleaner.AddAllAppend | Tools/cleaner/cleaner.py:64-68 | grouping two batches equals grouping them one after the other |
| Cleaner.GroupedIdents | Tools/cleaner/cleaner.py:64-68 | each (group, category) list holds the identifiers filed under it, each once, in order of first insertion |
| Cleaner.GroupedEntries | Tools/cleaner/cleaner.py:64-68 | each (group, category) list is, for each identifier filed under it once in order of first insertion, the entry `(ident, lang_names.get(ident), lang_descs.get(ident))` |
| Cleaner.GroupedLookedUp | Tools/cleaner/cleaner.py:68 | every filed entry carries the two map lookups of its own identifier |
| Cleaner.GroupedKeys | Tools/cleaner/cleaner.py:63-65 | the groups are the keys filed, each once, in order of first insertion |
| Cleaner.GroupingDistinct | Tools/cleaner/cleaner.py:67-68 | within a category list an identifier appears at most once, and so does each group key |
| Cleaner.FilesAddsFrom | Tools/cleaner/cleaner.py:58-63 | every filed item comes from a visited `.xml` file of the sub-folder, under the key `subfolder_stem` |
| Cleaner.OutputFrame | Tools/cleaner/cleaner.py:72-84 | the file starts with the XML declaration and `<infotexts language="English">` and ends with `</infotexts>` |
| Cleaner.EntryLinesRule | Tools/cleaner/cleaner.py:79-83 | an entry writes a name line exactly when its name is non-empty and a description line exactly when its description is non-empty, and nothing else |
| Cleaner.EntryWritten | Tools/cleaner/cleaner.py:75-83 | every line of every entry of every category of every group is in the file |
| Cleaner.Organizer.constructor | Tools/cleaner/cleaner.py:18-23 | the organiser starts with the language maps, empty missing lists and nothing organised |
| Cleaner.Organizer.CollectItemsFromFile | Tools/cleaner/cleaner.py:25-51 | a parse failure gives no items; otherwise the items of the event fold, with each missing list grown by the identifiers its map lacks |
| Cleaner.Organizer.AddItem | Tools/cleaner/cleaner.py:64-68 | one item is filed with its name and description looked up, keeping the missing lists |
| Cleaner.Organizer.ProcessFile | Tools/cleaner/cleaner.py:61-68 | one file's items are filed under its group key, and the missing lists grow by its missing identifiers |
| Cleaner.Organizer.VisitFile | Tools/cleaner/cleaner.py:58-68 | a non-`.xml` file is skipped; an `.xml` file is processed |
| Cleaner.Organizer.ProcessFolder | Tools/cleaner/cleaner.py:58-68 | the loop over a sub-folder's files files the items of its visited files in order |
| Cleaner.Organizer.VisitFolder | Tools/cleaner/cleaner.py:55-68 | a listed entry that is not a directory is skipped |
| Cleaner.Organizer.Organize | Tools/cleaner/cleaner.py:54-68 | the whole walk: the groups are those of all visited files' items in walk order, and the missing lists are the identifiers their maps lack |
| Cleaner.Organizer.Output | Tools/cleaner/cleaner.py:72-84 | the written lines start with the declaration and the root tag and end with the closing root tag |
| Cleaner.Organizer.Warnings | Tools/cleaner/cleaner.py:87-94 | the all-clear exactly when both missing lists are empty; otherwise each list's identifiers once each, in ascending order |

## Left out

- File and console I/O is not modelled; directory listings, file contents and prompt answers are inputs. This covers `os.listdir`, `open`, `os.makedirs`, `print` and `input`.
- `generate_diff` in both scripts is out. It wraps `difflib.unified_diff`, so a diff write records the two texts it compares, not the diff text.
- XML parsing is out. The swapper's `get_tag_text_dict` is modelled from an already-parsed list of (tag, text) children per file.
- The cleaner's lxml parse is also out. Its `tree.iter()` walk is a given event sequence; a parse failure is the absent sequence.
- A comment whose text is `None` is not modelled: a comment carries a string.
- The cleaner's reading of the language file with `NAME_RE`/`DESC_RE` is out; the two maps are constructor inputs.
- ItemScanner.ComponentAt: the `\b` after `<Fabricate` or `<Deconstruct` treats only ASCII `[A-Za-z0-9_]` as word characters. Python's `\b` on a str pattern also counts every non-ASCII letter and digit, so for text such as `<Fabricateé</Fabricate>` the model finds a component where Python finds none. Python's Unicode letter and digit classes are not modelled.
- ItemScanner.ComponentAtComplete: complete for the same ASCII word boundary only; a span whose name is followed by a non-ASCII letter or digit is one here but not in Python.
- Python's Unicode whitespace and line-break classes are out. Whitespace is the ASCII set `' '`, `\t`, `\n`, `\r`, `\f`, `\v`; line breaks for `splitlines` are `\n`, `\r` and `\r\n`; lower-casing is ASCII.
- `Tools/ripper/_ripper.py` is not part of this model. It only reads images, crops them and writes them out.
- The dictionary iteration order of `organized` is modelled as insertion order, which is what Python guarantees.
- The swapper's `process_all_files` loop over targets is modelled per target (`Swapper.TargetWrites`). The file loop and the interleaving of prompts are not.
- PREVIEW_MODE and DRY_RUN are parameters, not globals. The recursion of `main` through the global DRY_RUN is modelled as `Controller.Tool.Session`: a dry run, then at most one apply run.
- Merge.ReplacedBlockIsStable: requires that the catalogue text hold no `</Item>`. Removing components can create one (for example from `</It<Fabricate>…</Fabricate>em>`), and a block rebuilt from such a text is not matched back whole.
- Catalog.CleanInner: states only that the result is stripped, not how the components were removed. That part is stated by `ItemScanner.RemoveComponentsStep`, `RemoveComponentsKeeps`, `RemoveComponentsDrops` and `RemoveComponentsNone`.
- Swapper.SwapTarget: states that both texts are normalised, not which patch was applied; the patch itself is stated by the `Swapper.Patch…` lemmas.

Behaviour worth noting, modelled as the code does:

- The MISSING report is written in the dry run as well as in the apply run.
- Line 119 of `Tools/_theft.py` (`reindent(modified, "")`) does not turn spaces into tabs. It empties whitespace-only lines and drops the final line break.
- The diff compares the raw original with the post-processed text.
- `reindent` ends its result in `"\n"` when the last line is blank: that line becomes `""` after a separator.
- The block pattern has no word boundary after `<Item`, so `<ItemGroup …>` opens a block with attributes `Group …`. The identifier pattern has no boundary either, so `myidentifier="x"` matches.
- The swapper lower-cases its answer without stripping it, while the merge tool strips and lower-cases.
- A swapper replacement value of `None` is written as the text `None`.
