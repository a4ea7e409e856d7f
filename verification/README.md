# refstudio core, modelled in Dafny

This project models the core of refstudio, a desktop editor for research writing with a Python "sidecar" that stores references and builds prompts for a language model. It proves properties of five parts:

- **Project paths and files** (`src/io/filesystem.ts`), module `Filesystem`.
  - Translation between project-relative "ref-studio paths" and host system paths.
  - The uploads and exports folders.
  - Conversion of the host's recursive directory listing into the `FileEntry` tree.
  - Choosing the editor content kind for a file.
  - The rename guard.
  - The file names and paths of the Markdown export.
  - The module-level project base directory, modelled as class `Project`. Its `disk` field is the set of paths the host reports as existing.
- **The sidecar's reference store** (`python/sidecar/references/storage.py`), class `ReferenceStorage.JsonStorage`.
  - Lookup by id.
  - Batch delete: all ids are deleted or nothing changes.
  - Patch update.
  - The chunk corpus: three lists built in lockstep.
- **The front end's reference record** (`src/atoms/referencesState.ts`), class `ReferencesState.ReferencesStore`.
- **The prompt builders** (`python/sidecar/ai/prompts.py`), module `Prompts`.
- **The sidebar's rename validator and active-file test** (`src/application/sidebar/FileExplorer.tsx`), module `FileExplorer`.

Supporting modules:

- `KeyedIndex` is the insertion-ordered dictionary that both a Python `dict` and a JavaScript record with string keys behave as:
  - a new key goes at the end of the key order;
  - reassigning a key keeps its position and replaces its value;
  - `del` removes the key.

  The storage (`{ref.id: ref for ref in ...}`, `del refs[id]`, `list(refs.values())`) and the front-end record (`forEach` assignment, `Object.values`) are both stated in its terms.
- `Strings` gives the semantics of the string built-ins the source calls.
- `ReferenceSchemas` holds the stored records.
- `Wrappers` holds `Option`.

The host path separator is a parameter `sep`. The host's `join` is modelled by `Filesystem.HostJoin`: it puts exactly one separator at the seam, and an empty side contributes nothing. This is what a concatenating join followed by normalisation gives when neither part has an empty, `.` or `..` segment; the round-trip lemmas require that of their paths.

Where the documented design and the code disagree, the model follows the code:

- `renameFile` reports a failed host rename as `{ success: false }`; it does not raise (`src/io/filesystem.ts:331-334`).
- The file extension is lower-cased (`src/io/filesystem.ts:240`).

## Model

| member | source | states |
|---|---|---|
| Filesystem.HostJoin | src/io/filesystem.ts:82-84 | an empty side contributes nothing, and the other side is the result |
| Filesystem.HostJoinSeam | src/io/filesystem.ts:82-84 | two non-empty sides, each without its separator at the seam, are joined by exactly one separator |
| Filesystem.SystemPath | src/io/filesystem.ts:82-84 | `getSystemPath` of a ref-studio path (starting with the separator, or empty) under a base without a trailing separator is the base followed by the path |
| Filesystem.Project.GetSystemPath | src/io/filesystem.ts:82-84 | `getSystemPath` for the project's current base directory: the base followed by the ref-studio path |
| Filesystem.StripBase | src/io/filesystem.ts:94-97 | `getRefStudioPath` removes the base directory when the path starts with it; any other path is returned unchanged |
| Filesystem.Project.GetRefStudioPath | src/io/filesystem.ts:94-97 | `getRefStudioPath` for the project's current base directory: the base is removed when the path starts with it, any other path is returned unchanged |
| Filesystem.SystemPathRoundTrip | src/io/filesystem.ts:82-97 | a ref-studio path (the separator followed by segments that are not empty, `.` or `..`, or the empty root path) translated to a system path and back is unchanged, for a base that normalisation keeps and that holds no regular-expression metacharacter other than `.` |
| Filesystem.BareNameGainsSeparator | src/io/filesystem.ts:82-97 | under the same conditions on the base and the name's segments, a bare name without a leading separator comes back from the round trip with a separator in front |
| Filesystem.MakeRefStudioPath | src/io/filesystem.ts:251-254 | the path is the separator followed by exactly the name |
| Filesystem.RefStudioPathSegments | src/io/filesystem.ts:251-259 | `makeRefStudioPath(n)` splits into the root's empty segment followed by the segments of `n` |
| Filesystem.SplitRefStudioPath | src/io/filesystem.ts:256-259 | at least one segment, none holding the separator, and joining them with the separator gives back the path |
| Filesystem.GetParentFolder | src/io/filesystem.ts:261-264 | a path without a separator has the root `""` as parent; otherwise the path is its parent, the separator and its last segment |
| Filesystem.ParentOfChild | src/io/filesystem.ts:261-264 | `getParentFolder(p + sep + n)` is `p` for every name `n` that has no separator |
| Filesystem.TopLevelPath | src/io/filesystem.ts:251-264 | `makeRefStudioPath(n)` splits into `["", n]` and its parent folder is the root `""` |
| Filesystem.GetUploadsDir | src/io/filesystem.ts:111-113 | the uploads folder is `makeRefStudioPath("uploads")` |
| Filesystem.GetExportsDir | src/io/filesystem.ts:115-117 | the exports folder is `makeRefStudioPath("exports")` |
| Filesystem.TopLevelFolder | src/io/filesystem.ts:251-264 | a folder made by `makeRefStudioPath` from a name without separator has the root `""` as parent and the name as last segment |
| Filesystem.DataFoldersAtRoot | src/io/filesystem.ts:111-117 | the uploads and exports folders sit at the root, under the names "uploads" and "exports" |
| Filesystem.IsInUploadsDir | src/io/filesystem.ts:123-125 | a path it accepts starts at the root and its first folder's name starts with "uploads" |
| Filesystem.MakeUploadPath | src/io/filesystem.ts:111-125 | an upload path is `sep + "uploads" + sep + filename` and `isInUploadsDir` accepts it |
| Filesystem.UploadParent | src/io/filesystem.ts:111-121 | the parent folder of an uploaded file is the uploads folder |
| Filesystem.UploadsTestIsStringPrefix | src/io/filesystem.ts:123-125 | `isInUploadsDir` is a string-prefix test, so it also accepts a sibling folder such as `/uploads-old` |
| Filesystem.FileExtension | src/io/filesystem.ts:236-240 | a name without a dot has the empty extension |
| Filesystem.ExtensionOfDottedName | src/io/filesystem.ts:236-240 | a name with a dot is the text before its last dot, the dot and a dot-free rest; the extension is that rest lower-cased |
| Filesystem.ExtensionAfterLastDot | src/io/filesystem.ts:236-240 | the extension is the lower-cased text after the last dot, even when nothing precedes the dot |
| Filesystem.DotfileExtension | src/io/filesystem.ts:223-240 | `.bashrc` is a dotfile whose extension is `bashrc` |
| Filesystem.ConvertTauriFileEntry | src/io/filesystem.ts:220-246 | `convertTauriFileEntryToFileEntry`: a folder node for an entry with a children list, holding its converted children in order; a file node with the name's extension otherwise; each with the name (or `""`), the dotfile flag and the ref-studio path |
| Filesystem.ConvertKeepsOutline | src/io/filesystem.ts:220-246 | conversion keeps the tree: the same entries in the same pre-order, a folder exactly where the host gave a children list, each folder with as many children as the host listed (so the pre-order fixes the shape: a folder's children are the converted host children, in order), the host's name (or `""`), the project-relative form of the host path |
| Filesystem.ConvertedNode | src/io/filesystem.ts:220-246 | each converted node is exactly one of file or folder, its dotfile flag is "name starts with a dot", and a file's extension is derived from its name |
| Filesystem.ReadFileContent | src/io/filesystem.ts:280-307 | the content kind is `json`, `pdf`, `refstudio` (for `refstudio` and the empty extension) or `text` (every other extension), each kind exactly for its extensions; it carries the text or bytes read; a refstudio file that fails to parse gives an empty document and raises the notification, and no other case does |
| Filesystem.RenameTarget | src/io/filesystem.ts:321-322 | the new system path is the parent folder of the old system path joined with the new name |
| Filesystem.RenameTargetInSystemFolder | src/io/filesystem.ts:321-322 | renaming `dir/old` to `new` targets `base + dir/new` |
| Filesystem.RenameStaysInFolder | src/io/filesystem.ts:320-330 | renaming `/dir/old` to `new` targets `/dir/new`: same folder, new name, as a ref-studio path, when the base and the segments are ones normalisation and the pattern keep |
| Filesystem.LastSegmentOfChild | src/io/filesystem.ts:346-347 | the popped last segment of `dir + sep + name` is `name` |
| Filesystem.TrailingSeparatorLastSegment | src/io/filesystem.ts:346-350 | a path ending in the separator has an empty last segment, so nothing is exported |
| Filesystem.BeforeLastDotOf | src/io/filesystem.ts:352-355 | only the last extension is dropped: `a.b.refstudio` becomes `a.b` |
| Filesystem.MarkdownFileName | src/io/filesystem.ts:346-358 | no name when the last segment is empty; otherwise the last extension is replaced by `.md` when the name has a dot, and `.md` is appended when it has none |
| Filesystem.ExportDefaultPathAsWritten | src/io/filesystem.ts:360-364 | the dialog's default path as the code computes it: the system exports folder joined with the Markdown name, passed through `getSystemPath` again |
| Filesystem.ExportDefaultPath | src/io/filesystem.ts:360-364 | the intended default path: the system exports folder joined with the Markdown name |
| Filesystem.ExportDefaultPathLayout | src/io/filesystem.ts:360-364 | the intended default path is base, separator, "exports", separator, Markdown name |
| Filesystem.ExportDefaultPathRepeatsBase | src/io/filesystem.ts:360-364 | as written, the dialog's default path contains the project base directory twice |
| Filesystem.ExportDefaultPathCounterexample | src/io/filesystem.ts:360-364 | for base `/p` and `a.md`, the as-written default path is `/p/p/exports/a.md`; the intended one is `/p/exports/a.md` |
| Filesystem.ExportDefaultPathInExportsDir | src/io/filesystem.ts:340-364 | the corrected default path is the Markdown file inside the project's exports folder |
| Filesystem.StemOfDotted | src/io/filesystem.ts:372-374 | the chosen file's stem is its name without the last extension |
| Filesystem.BibliographyPath | src/io/filesystem.ts:369-385 | no bibliography path exactly when the chosen path's last segment is empty |
| Filesystem.BibliographyBesideMarkdown | src/io/filesystem.ts:369-385 | the bibliography for `dir/stem.md` is written to `dir/stem.<bibliography extension>`: same folder, same stem |
| Filesystem.BibliographyNeedsFileName | src/io/filesystem.ts:369-371 | a chosen path ending in the separator writes no bibliography |
| Filesystem.Project.constructor | src/io/filesystem.ts:55 | the project base directory starts empty |
| Filesystem.Project.SetProjectBaseDir | src/io/filesystem.ts:71-73 | the base directory is replaced and returned |
| Filesystem.Project.RenameFile | src/io/filesystem.ts:320-335 | an existing target or a missing source gives failure and changes nothing; otherwise the file moves to the target in its folder and the new ref-studio path is returned |
| Filesystem.Project.SaveAsMarkdownDefaultPath | src/io/filesystem.ts:340-364 | the exports folder exists afterwards and nothing else on disk changes; no default path when the exported path has no file name, otherwise the corrected default path for the derived Markdown name, of which the path the code passes to the dialog is `getSystemPath`, the as-written `Filesystem.ExportDefaultPathAsWritten` |
| Strings.Split | src/io/filesystem.ts:257-259 | `split` always yields at least one part, and no part contains the separator |
| Strings.JoinSplit | src/io/filesystem.ts:262-263 | joining the parts of a split with the same separator gives back the string |
| Strings.SplitSeveralParts | src/io/filesystem.ts:236-240 | `split` gives more than one part exactly when the separator occurs |
| Strings.JoinInitSplit | src/io/filesystem.ts:262-263 | joining all parts but the last gives everything before the last separator, or `""` when there is none |
| Strings.LowerHasNoCapitals | src/io/filesystem.ts:240 | `toLowerCase` maps each character on its own and leaves no Latin-1 capital |
| Strings.SplitAppend | src/io/filesystem.ts:262-263 | splitting at a separator splits the two sides independently |
| KeyedIndex.FromSeq | python/sidecar/references/storage.py:100 | the dictionary `{ref.id: ref for ref in ...}` is well formed and its keys are exactly the keys of the list's elements |
| KeyedIndex.Put | python/sidecar/references/storage.py:145 | `d[k] = v`: `k` maps to `v`, every other key keeps its presence and value, a present key keeps its place in the order and a new key goes last |
| KeyedIndex.Del | python/sidecar/references/storage.py:105-107 | `del d[k]` on a present key: the key is gone, every other key keeps its value |
| KeyedIndex.DelAll | python/sidecar/references/storage.py:105-114 | the delete loop, which stops at the first id no longer present; a successful run leaves a well-formed dictionary (its outcome is stated by `KeyedIndex.DelAllSucceedsIff`, `KeyedIndex.DelAllEntries` and `KeyedIndex.DelAllMirrors`) |
| KeyedIndex.Values | python/sidecar/references/storage.py:116 | `list(refs.values())`: one value per key, the `i`-th being the value of the `i`-th key, and every stored value among them |
| KeyedIndex.LastOccurrenceWins | python/sidecar/references/storage.py:100 | in a dictionary built from a list, a key maps to the last element that carries it |
| KeyedIndex.FromSeqKeysFirstOccurrence | python/sidecar/references/storage.py:100 | the key order of a dictionary built from a list is the order of first occurrence |
| KeyedIndex.WellFormedSize | python/sidecar/references/storage.py:100 | a dictionary has one key in its order per entry |
| KeyedIndex.FromSeqEntriesFromList | python/sidecar/references/storage.py:100 | every value of a dictionary built from a list is an element of that list |
| KeyedIndex.UniqueKeysValues | python/sidecar/references/storage.py:100-116 | with unique keys, the values of the dictionary built from a list are that list |
| KeyedIndex.DelAllSucceedsIff | python/sidecar/references/storage.py:105-114 | deleting keys one after another succeeds exactly when every key is present and none is repeated |
| KeyedIndex.DelAllEntries | python/sidecar/references/storage.py:105-107 | after a successful deletion, the keys left are the old keys minus the deleted ones |
| KeyedIndex.DelAllMirrors | python/sidecar/references/storage.py:105-116 | deleting keys from the dictionary that mirrors a list leaves the values of exactly the other elements, in list order |
| KeyedIndex.PutMirrors | python/sidecar/references/storage.py:145-147 | reassigning an existing key keeps every position and replaces exactly the element under that key, whatever key the new element carries |
| ReferenceSchemas.ApplyPatch | python/sidecar/references/storage.py:145 | `copy(update=...)`: a patched `id` replaces the id, otherwise the id is kept; the chunks are kept; other patched fields take the patch's values; every other field keeps its value; the field names are the union |
| ReferenceStorage.Index | python/sidecar/references/storage.py:134 | the id-keyed dictionary of the stored references is well formed and holds exactly their ids |
| ReferenceStorage.Tokenize | python/sidecar/references/storage.py:158 | `text.lower().split()` gives non-empty tokens without spaces or capitals |
| ReferenceStorage.AlignedAppend | python/sidecar/references/storage.py:153-158 | appending chunks with their texts and token lists keeps the three corpus lists in lockstep |
| ReferenceStorage.DeleteSucceedsIff | python/sidecar/references/storage.py:100-114 | a batch delete succeeds exactly when every id is stored and no id is listed twice |
| ReferenceStorage.DeleteKeepsOthersInOrder | python/sidecar/references/storage.py:100-119 | with unique stored ids, a successful delete leaves exactly the references whose id was not listed, in their original order |
| ReferenceStorage.DeleteEverything | python/sidecar/references/storage.py:102-116 | deleting all stored ids always succeeds and leaves no references |
| ReferenceStorage.UpdateReplacesOnlyTarget | python/sidecar/references/storage.py:134-147 | with unique stored ids, an update replaces the one reference with that id by its patched copy, and every other reference stays in its place |
| ReferenceStorage.PatchRenames | python/sidecar/references/storage.py:145-147 | a patch naming another id renames the reference in its place, and the old id is no longer stored |
| ReferenceStorage.DeleteEach | python/sidecar/references/storage.py:105-114 | the deletion loop returns what deleting the ids one after another gives, stopping at the first missing id |
| ReferenceStorage.JsonStorage.constructor | python/sidecar/references/storage.py:41-46 | the reference list and the three corpus lists start empty |
| ReferenceStorage.JsonStorage.Load | python/sidecar/references/storage.py:48-62 | the stored references are appended, then the corpus is extended with their chunks |
| ReferenceStorage.JsonStorage.Save | python/sidecar/references/storage.py:64-70 | the file holds the current references |
| ReferenceStorage.JsonStorage.GetReference | python/sidecar/references/storage.py:72-79 | `None` exactly when no reference has the id; otherwise the first reference with the id |
| ReferenceStorage.JsonStorage.Delete | python/sidecar/references/storage.py:81-120 | `ValueError` with its message when neither ids nor `all_` are given. A missing or repeated id gives `ERROR` with "Unable to delete <id>: not found in storage", and neither the references nor the file change. Otherwise the result is `OK`, the references are the dictionary's remaining values, and they are saved |
| ReferenceStorage.JsonStorage.Update | python/sidecar/references/storage.py:122-151 | an unknown id gives `ERROR` with "Unable to update <id>: not found in storage" and changes nothing; otherwise the result is `OK`, the reference is patched (its id too, when the patch names one) under its old key in the id-keyed dictionary, and its values are saved |
| ReferenceStorage.JsonStorage.CreateCorpus | python/sidecar/references/storage.py:153-158 | chunks, texts and token lists of every reference are appended in reference order, and the three lists stay in lockstep |
| ReferencesState.FromListKeyedById | src/atoms/referencesState.ts:21-25 | the record built from a list files every item under its own id |
| ReferencesState.LookupAfterSet | src/atoms/referencesState.ts:19-25 | after setting a list, an id is found exactly when the list carries it, and it finds the last item with that id |
| ReferencesState.KeyedValuesIds | src/atoms/referencesState.ts:17 | the values of a record keyed by id have distinct ids |
| ReferencesState.OneItemPerId | src/atoms/referencesState.ts:17-25 | the list read back holds one item per distinct id of the list that was set, each taken from that list |
| ReferencesState.DistinctListRoundTrip | src/atoms/referencesState.ts:17-25 | a list with distinct ids reads back whole and in order |
| ReferencesState.ReferencesStore.constructor | src/atoms/referencesState.ts:11 | the record starts empty |
| ReferencesState.ReferencesStore.SetReferences | src/atoms/referencesState.ts:21-27 | the state is replaced by the record built from the list in order; its ids are the list's ids |
| ReferencesState.ReferencesStore.GetReferences | src/atoms/referencesState.ts:17 | one item per stored id, each the item stored under its own id |
| ReferencesState.ReferencesStore.GetDerivedReference | src/atoms/referencesState.ts:19 | nothing exactly when the id is not stored; otherwise the item stored under it, whose id is that id |
| Prompts.CreatePromptForRewrite | python/sidecar/ai/prompts.py:5-11 | the fixed instruction with the manner inside it, then `TEXT: ` and the text |
| Prompts.RewritePromptLayout | python/sidecar/ai/prompts.py:5-11 | the prompt opens with the fixed instruction, holds the manner right after it, and ends with `TEXT: ` and the text |
| Prompts.RewritePromptInjective | python/sidecar/ai/prompts.py:5-11 | for one manner, two prompts are equal exactly when the texts are |
| Prompts.CreatePromptForTextCompletion | python/sidecar/ai/prompts.py:14-26 | building the prompt step by step gives the preamble, the optional title and abstract lines, the instructions and the input line |
| Prompts.TextCompletionPrompt | python/sidecar/ai/prompts.py:14-26 | the completion prompt as one expression: preamble, title line if the title is truthy, abstract line if the abstract is truthy, instructions, input line |
| Prompts.TextCompletionFrame | python/sidecar/ai/prompts.py:14-26 | every completion prompt opens with the preamble and ends with `INPUT: `, the stripped text and ` [MASK]` |
| Prompts.NextSectionStart | python/sidecar/ai/prompts.py:19-21 | what follows the title position starts with the abstract tag's first letter exactly when the abstract is truthy, and with the instructions' otherwise |
| Prompts.TitleLineIff | python/sidecar/ai/prompts.py:17-18 | a title line follows the preamble exactly when the title is truthy, and it holds the stripped title in quotes |
| Prompts.AbstractLineIff | python/sidecar/ai/prompts.py:19-20 | an abstract line follows the title line, if any, exactly when the abstract is truthy |
| Prompts.AfterTitle | python/sidecar/ai/prompts.py:14-26 | after the preamble and the title line, if any, the prompt continues with the abstract line, if any, then the closing |
| Prompts.AbstractLineAt | python/sidecar/ai/prompts.py:19-20 | a truthy abstract's line, with the stripped abstract in quotes, sits right after the title line, if any |
| Prompts.ChunkLine | python/sidecar/ai/prompts.py:31-33 | one chunk's source line: `\nSource: `, file name, `, p`, page number, ` - `, text, newline |
| Prompts.ChunksContext | python/sidecar/ai/prompts.py:29-34 | the source list is empty exactly when there are no chunks |
| Prompts.PrepareChunksForPrompt | python/sidecar/ai/prompts.py:29-34 | the loop gives one source line per chunk, in chunk order |
| Prompts.ChunksContextAppend | python/sidecar/ai/prompts.py:29-34 | the source list of two runs of chunks is the first run's list followed by the second's |
| Prompts.ChunksContextCons | python/sidecar/ai/prompts.py:29-34 | a chunk in front contributes its source line (file, page, text) in front |
| Prompts.CreatePromptForChat | python/sidecar/ai/prompts.py:37-58 | the fixed instructions, a separator, the context, a separator, the question line and `Answer: ` |
| Prompts.ChatPromptLayout | python/sidecar/ai/prompts.py:37-58 | the fixed instructions, then the context between two separators, then the question line and `Answer: ` |
| Prompts.ChatPromptInjective | python/sidecar/ai/prompts.py:37-58 | when two chat prompts are equal, their queries are equal exactly when their contexts are |
| FileExplorer.ExistingFileNames | src/application/sidebar/FileExplorer.tsx:36 | the names of the entries beside a file, one per entry, in order (also line 72) |
| FileExplorer.IsNameValid | src/application/sidebar/FileExplorer.tsx:101-113 | a leading dot rejects, then a `/` rejects, then a name among the existing ones rejects; anything else is accepted |
| FileExplorer.NameValidIff | src/application/sidebar/FileExplorer.tsx:101-113 | a name is accepted exactly when it does not start with a dot, contains no `/`, and is not among the existing names |
| FileExplorer.ValidatorMonotone | src/application/sidebar/FileExplorer.tsx:101-113 | more existing names never make the validator accept more |
| FileExplorer.CurrentNameRejected | src/application/sidebar/FileExplorer.tsx:101-113 | a file's own unchanged name is rejected, because the existing names are those of all entries beside it, itself included (lines 36 and 72) |
| FileExplorer.ActiveIds | src/application/sidebar/FileExplorer.tsx:92-95 | an id is in the list exactly when some pane has an active editor whose parsed id it is |
| FileExplorer.IsFileActive | src/application/sidebar/FileExplorer.tsx:90-97 | the file's path is among the parsed ids of the panes' active editors |
| FileExplorer.IsFileActiveIff | src/application/sidebar/FileExplorer.tsx:90-97 | a file is active exactly when the left or the right pane's active editor parses to its path |

## Findings

| source | as written | input that shows it | evidently intended | confidence | as-written member | corrected member |
|---|---|---|---|---|---|---|
| src/io/filesystem.ts:360-364 | `markdownFilePath` is built from the system exports path, and `getSystemPath` is applied to it again for the dialog's default path, which joins the base directory a second time | base `/p`, exported file `a.refstudio`: default path `/p/p/exports/a.md` | the Markdown file in the project's exports folder, `/p/exports/a.md` | not executed | Filesystem.ExportDefaultPathCounterexample | Filesystem.ExportDefaultPathInExportsDir |

## Left out

- Host I/O is not modelled: `appConfigDir`, `desktopDir`, `readDir`, `readTextFile`, `writeTextFile`, `createDir`, `removeDir` and `exists`.
  - The model states the paths these functions are called with.
  - It keeps a set of existing paths in `Filesystem.Project`.
  - What is read becomes a parameter, as in `Filesystem.ReadFileContent`.
- These are not modelled because each is a sequence of host calls with no logic beyond the path translation modelled here: `newProject`, `openProject`, `sampleProject`, `createSampleFiles`, `ensureFile`, `uploadFiles`, `readAllProjectFiles`, `writeFileContent` and `deleteFile`. `Filesystem.ConvertKeepsOutline` covers the tree that `readAllProjectFiles` returns.
- Filesystem.StripBase: `getRefStudioPath` builds a regular expression from the base directory. A base holding regular-expression metacharacters is not modelled; the model removes the base only as a literal prefix.
- Filesystem.HostJoin: only models the joins used here, with one separator at the seam. The rest of the host's normalisation (`.` and `..` segments, repeated separators inside a part) is not modelled.
- Filesystem.SystemPathRoundTrip: promised only for paths normalisation leaves alone (no empty, `.` or `..` segment) and for a base without regular-expression metacharacters other than `.`. With `\` as separator, a non-empty base always holds a metacharacter, so the pattern in `getRefStudioPath` does not match it literally and no round trip is promised there. The same conditions apply to `Filesystem.BareNameGainsSeparator` and `Filesystem.RenameStaysInFolder`.
- Filesystem.FileExtension: `toLowerCase` is modelled on Latin-1 (`Strings.Lower`). Capitals outside Latin-1, such as Greek or Cyrillic ones, are kept as they are.
- Filesystem.ExtensionAfterLastDot: the same Latin-1 limit of `Strings.Lower` applies to the extension it states.
- Filesystem.Project.SaveAsMarkdownDefaultPath: returns the corrected default path, in the exports folder, not the path `src/io/filesystem.ts:364` passes to the dialog. That path is `getSystemPath` of the one returned, which joins the base directory twice; the method's contract states this relation, and the Findings table records the discrepancy.
- `saveAsMarkdown`:
  - The save dialog and the Markdown serializer are external. The dialog's answer is a parameter of `Filesystem.BibliographyPath`.
  - The serializer's output and the two file writes are not modelled.
  - An error thrown anywhere is logged and swallowed; this is not modelled.
- `readFileContent`: `JSON.parse` is a parameter that answers `None` where it throws.
- `JsonStorage.load`:
  - Parsing the JSON file and building `Author` and `Chunk` objects are not modelled. The stored references are a field.
  - The loop reuses `authors` and `chunks` from an earlier item when an item lacks those keys, or fails when the first item lacks them. This is not modelled.
- The module-level `get_reference`, `update_reference` and `delete_references` (python/sidecar/references/storage.py:20-37) are not modelled. They open the JSON file.
  - They pass the keywords `reference_update=` and `ids=`, which `update(reference_id, patch)` and `delete(reference_ids, all_)` do not accept. Python rejects such a call with `TypeError`.
  - The model states the methods the wrappers should have called.
- Logging (`logger.warning`, `logger.error`, `logger.info`) is not modelled.
- ReferenceStorage.Tokenize: `lower()` is modelled on Latin-1 capitals only, and `split()` on whitespace within Latin-1.
- ReferenceSchemas.ApplyPatch: a patch that names `chunks`, or gives `id` a value that is not a string, is not modelled. Pydantic's `copy(update=...)` stores such a value unchecked, and the model's reference holds typed chunks and a string id. `ReferenceStorage.JsonStorage.Update`, `ReferenceStorage.UpdateReplacesOnlyTarget` and `ReferenceStorage.PatchRenames` carry the same condition.
- Prompts.TitleLine: `strip()` removes whitespace within Latin-1 only. The same holds for `Prompts.AbstractLine` and `Prompts.InputLine`.
- Chunk metadata:
  - A chunk carries `source_filename` and `page_num` as fields.
  - The `KeyError` that a chunk without them would raise in `prepare_chunks_for_prompt` is not modelled.
  - The page number is formatted as an integer.
- Prompts.CreatePromptForRewrite: the manner is any string. `RewriteMannerType` is not part of this model.
- A reference item's fields other than its id are an uninterpreted map. The type `ReferenceItem` is not part of this model.
- FileExplorer.IsFileActive: `parseEditorId` is a parameter, because the editor-id format is not part of this model.
- JavaScript records:
  - A record orders integer-like keys numerically before the other keys. The model orders every key by insertion, as for non-numeric ids.
  - Keys inherited from `Object.prototype` are not modelled.
- The React rendering, the context menus, the rename input and the events emitted by `FileExplorer.tsx` are not modelled; they are UI.
- The Jotai atom subscription mechanics of `referencesState.ts` are not modelled. The store is a class with one field.
