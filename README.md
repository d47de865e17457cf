# fairscape-cli command form and helpers, modelled in Dafny

The project models two parts of fairscape-cli in Dafny 4.11 and proves properties about them.

**The desktop front end.** This part is `src/App.jsx` and `src/components/CommandForm.jsx`:

- a static three-level catalogue of `fairscape-cli` commands: command, then subcommand, then action, which leads to a leaf of `options` and `required` option names;
- a React state machine that selects a path through the catalogue and edits option values;
- the predicate that enables the Execute button;
- the serialiser that builds the `fairscape-cli ...` command string;
- the derivation of the form fields and their required markers.

**Pure and in-place helpers of the Python package:**

- Merkle tree construction over content hashes, with the sort by `contentUrl` and the resolution of a `contentUrl` to a local file;
- insertion of inverse links into JSON-LD entities;
- parsing of column-range slices and their overlap checks;
- parsing of HuggingFace repo ids and URLs, the choice of a weights file, and extraction of a model-card section;
- normalisation and counting of provenance references.

Modules:

| module | models |
|---|---|
| `Wrappers` | `Option`, `Result` and `Outcome` (`Pass`, or `Fail` with an error) |
| `Text` | `String.prototype.trim` and `str.strip`, `startswith`/`endswith`, `split`/`join`, ASCII `lower()` |
| `Dict` | JavaScript objects and Python dicts as insertion-ordered association lists |
| `Json` | JSON values and their Python truthiness |
| `Catalogue` | the `commands` object of `src/App.jsx`, and the lookup chain that walks it |
| `App` | `isExecuteDisabled`, the command-string serialiser, and the `Engine` class, whose fields are the `useState` variables and whose methods are the handlers |
| `AppSessions` | concrete sessions on the shipped catalogue: the latent stale-closure bug and a complete `schema create-tabular create` run |
| `CommandForm` | `renderOptions` |
| `Merkle` | `build_merkle_tree`, the sort step of `generate_merkle_tree`, `resolve_content_url` |
| `Inverse` | `get_json_key_from_uri`, `add_or_update_json_link` (an `Entity` class with a mutable `properties` dict) |
| `SchemaSlices` | `GenerateSlice`, `CheckSliceSliceOverlap`, `CheckIntSliceOverlap` |
| `HuggingFace` | `parse_huggingface_url`, `select_model_file`, `extract_section_from_markdown` |
| `Provenance` | `_normalize_to_list`, `_extract_id`, `_is_dataset`, `aggregate_input_datasets` |

Error paths of the source are modelled as values, not as preconditions:

- A JavaScript `TypeError` from indexing `undefined` is `JsError.TypeError`.
- Python `ValueError`s, `AttributeError`s and the package's exceptions are constructors of each module's error datatype.
- SHA-256 is the function parameter `concat`: the hash of the concatenation of two hex digests. Nothing is assumed about it.
- The filesystem test `Path.is_file()` is the function parameter `isFile`.

## Model

| member | source | states |
|---|---|---|
| Catalogue.ShippedRequiredWithinOptions | src/App.jsx:103-303 | every leaf of the shipped catalogue has both lists, and every required name is one of its options |
| Catalogue.ShippedWellFormed | src/App.jsx:103-303 | the shipped catalogue is well formed at every leaf: required names are among the options |
| Catalogue.WellFormedLeafAt | src/App.jsx:103-303 | in a well-formed catalogue, every leaf reachable by command, subcommand and action is well formed |
| Catalogue.ShippedNoSingleSubCommand | src/App.jsx:103-303 | each shipped command has exactly three subcommands, so the auto-select at line 325 never fires |
| Catalogue.ShippedSoleActions | src/App.jsx:103-303 | `rocrate create`, `schema create-tabular` and `schema validate` have one action each; `rocrate add`, `rocrate register` and `schema add-property` have 2, 3 and 5 |
| App.Engine.constructor | src/App.jsx:305-312 | a new form starts with every selection, the options and both paths empty; every handler keeps the option keys unique from there on |
| App.Engine.SelectCommand | src/App.jsx:314-327 | sets the command and clears subcommand, action, options, ROCRATE_PATH and SCHEMA_FILE. An unknown command raises `TypeError`. A command with one subcommand selects it and resolves the actions through the command rendered before the call, as written |
| App.Engine.SelectCommandFixed | src/App.jsx:314-327 | the same handler resolving the auto-selected subcommand through the new command: it selects the subcommand and its sole action, and never raises for a known command |
| App.Engine.SelectSubCommand | src/App.jsx:329-339 | sets the subcommand and clears action and options; the command and both paths are unchanged. It raises `TypeError` exactly when the rendered command has no such subcommand. A sole action is selected |
| App.Engine.SelectAction | src/App.jsx:341-344 | sets the action and clears the options; nothing else changes |
| App.Engine.ChangeOption | src/App.jsx:346-348 | `options` becomes the old options with one key set. Keys keep their order, a new key goes last, and no key occurs twice; every other field is unchanged |
| Dict.PutGet | src/App.jsx:346-348 | after setting one key, that key reads the new value and every other key reads what it read before |
| App.Engine.ChangeRocratePath | src/App.jsx:350-352 | sets ROCRATE_PATH and nothing else |
| App.Engine.ChangeSchemaFile | src/App.jsx:354-356 | sets SCHEMA_FILE and nothing else |
| App.Engine.BuildCommand | src/App.jsx:358-379 | the loop over the options, in edit order, produces exactly `CommandLine` of the current state |
| App.CommandLinePrefix | src/App.jsx:360-363 | the command line starts `fairscape-cli <cmd> <sub>`, followed by ` <action>` only when an action is selected |
| App.FlagPresentIff | src/App.jsx:365-369 | for options with unique keys, a `--key` token appears iff the option is set to a non-empty value |
| App.Engine.FlagPresentInState | src/App.jsx:365-369 | in every state the handlers reach (each keeps the option keys unique), a `--key` token appears iff that option holds a non-empty value |
| App.FlagStep | src/App.jsx:365-369 | each further option appends ` --key "value"` when its value is non-empty and nothing otherwise |
| App.CommandLineSuffix | src/App.jsx:371-379 | a rocrate command line ends with the quoted ROCRATE_PATH, and a schema command line ends with the quoted SCHEMA_FILE |
| App.PathStep | src/App.jsx:371-379 | the trailing path token is the quoted ROCRATE_PATH for rocrate, the quoted SCHEMA_FILE for schema, and nothing otherwise |
| App.ExecuteEnabledIff | src/App.jsx:468-495 | Execute is enabled iff all of: the selection walks to a leaf that has a `required` list; every required option has a value with a non-whitespace character; the rocrate or schema path is non-blank when that command is selected |
| App.FilledIffNonBlank | src/App.jsx:481-483 | `v && v.trim() !== ""` holds iff the value is present and has a character that `trim` keeps |
| App.DisabledWithoutRequired | src/App.jsx:477-479 | when the selection resolves to something without a `required` list, Execute is disabled |
| App.OptionalEditIrrelevant | src/App.jsx:346-348 | editing an option that is not required leaves the enabled state unchanged |
| App.WalkToLeaf | src/App.jsx:469-475 | with a subcommand and an action selected, the lookup chain reaches the catalogue leaf at that path |
| AppSessions.StaleClosureWitness | src/App.jsx:335 | on a catalogue with a single-subcommand command, the as-written handler raises `TypeError` and selects no action; the fixed one passes and selects the sole action |
| AppSessions.TabularSessionEnabled | src/App.jsx:468-495 | on the shipped catalogue, `schema create-tabular create` with name, description, separator and a schema file enables Execute |
| AppSessions.TabularSessionTokens | src/App.jsx:358-379 | that session serialises to `fairscape-cli schema create-tabular create --name "demo" --description "d" --separator "," "<schema file>"` |
| AppSessions.TabularSchemaSession | src/App.jsx:314-379 | the handlers run in the user's order (choose command, subcommand, type three options, pick a file) end with Execute enabled and with that command string |
| CommandForm.PathFieldAgrees | src/components/CommandForm.jsx:44-65 | a path field is shown exactly when the command line (src/App.jsx:371-379) ends with a quoted path, and that path is the value the field shows; its caption is ROCRATE_PATH for rocrate and SCHEMA_FILE for schema |
| CommandForm.Fields | src/components/CommandForm.jsx:66-93 | one field per name, in order; each is marked required iff its name is in `required`, and shows the stored value or "" when unset |
| CommandForm.RenderOptions | src/components/CommandForm.jsx:24-31 | rendering raises `TypeError` exactly when the lookup chain does |
| CommandForm.RenderedIffLeaf | src/components/CommandForm.jsx:33-40 | a form is rendered iff the selection reaches something with `options` or `required`; otherwise nothing is rendered |
| CommandForm.RequiredFieldsMarked | src/components/CommandForm.jsx:40-91 | at a well-formed leaf: the path field matches the command; a name is required iff some rendered field of that name is marked required; every field is one of the leaf's options and shows the stored value |
| CommandForm.ExecuteEnabledIffFormComplete | src/components/CommandForm.jsx:24-96 | at a well-formed leaf, Execute (src/App.jsx:468-495) is enabled iff every field marked required and the shown path field are non-blank |
| CommandForm.WellFormedExecuteMatchesForm | src/components/CommandForm.jsx:24-96 | at any leaf of a well-formed catalogue, a form is rendered, and Execute is enabled iff that form is complete |
| CommandForm.NoFormDisabled | src/components/CommandForm.jsx:33-38 | the form raises iff the Execute predicate raises; when nothing is rendered, Execute is disabled |
| Merkle.BuildMerkleTree | src/fairscape_cli/utils/merkle.py:29-86 | the in-place construction produces exactly the tree `TreeOf` (empty, single-leaf and general cases) |
| Merkle.BuildLevels | src/fairscape_cli/utils/merkle.py:63-78 | the level loop produces `Levels` of the hashes, and the root is the single entry of the last level |
| Merkle.NextLevel | src/fairscape_cli/utils/merkle.py:74-77 | the pairing loop produces the pairwise concat-hashes of a padded level |
| Merkle.IndexLeaves | src/fairscape_cli/utils/merkle.py:48-51 | leaf `i` becomes `{index: i, contentUrl, sha256}`, in input order |
| Merkle.TreeFacts | src/fairscape_cli/utils/merkle.py:38-86 | the algorithm is SHA-256 and `leafCount` is the input length. Leaves are indexed 0..n-1. The last level is `[rootHash]`. An empty input gives the empty-string hash and `[[H("")]]`; one leaf gives its own hash and `[[h]]` |
| Merkle.LevelsStructure | src/fairscape_cli/utils/merkle.py:63-78 | the last level has one hash, and for more than one leaf the first stored level is the padded leaf level. Every stored level below the last has an even number (at least two) of hashes, and the level above it is their pairwise hashes, padded when it is odd and not the root |
| Merkle.OddLevelStoresDuplicate | src/fairscape_cli/utils/merkle.py:68-72 | for an odd number of leaves (more than one), the stored leaf level ends with a duplicate of the last hash |
| Merkle.ThreeLeaves | src/fairscape_cli/utils/merkle.py:63-78 | three leaves give the root `H(H(a,b), H(c,c))` and three levels |
| Merkle.SingleLeafIsGeneral | src/fairscape_cli/utils/merkle.py:54-61 | the special case for one leaf agrees with what the general loop would build |
| Merkle.SortByUrlSpec | src/fairscape_cli/utils/merkle.py:153-156 | the sort by `contentUrl` yields a sorted permutation of its input |
| Merkle.SortedUnique | src/fairscape_cli/utils/merkle.py:153-156 | when the URL determines the leaf, two sorted permutations of the same leaves are equal |
| Merkle.RootIndependentOfGraphOrder | src/fairscape_cli/utils/merkle.py:153-156 | when the URL determines the leaf, any two orderings of the same leaves give the same tree after the sort |
| Merkle.StrLeTotal | src/fairscape_cli/utils/merkle.py:156 | Python's string order compares any two strings |
| Merkle.StrLeTransitive | src/fairscape_cli/utils/merkle.py:156 | Python's string order is transitive |
| Merkle.StrLeAntisymmetric | src/fairscape_cli/utils/merkle.py:156 | strings ordered both ways are equal |
| Merkle.LocalPath | src/fairscape_cli/utils/merkle.py:98-112 | a stripped URL is skipped iff it is http(s), `embargoed` in any ASCII case, or empty |
| Merkle.ResolveContentUrl | src/fairscape_cli/utils/merkle.py:89-118 | a path is returned iff the value is a string whose stripped form is local and whose join onto the crate directory is a file; the path returned is that join |
| Merkle.NonStringsNotLocal | src/fairscape_cli/utils/merkle.py:95-96 | an empty or non-string `contentUrl` resolves to nothing |
| Merkle.SkippedUrlsNotLocal | src/fairscape_cli/utils/merkle.py:98-106 | http(s), `embargoed` and whitespace-only URLs resolve to nothing |
| Merkle.TripleSlashRemoved | src/fairscape_cli/utils/merkle.py:109-110 | `file:///rel` becomes `rel` |
| Merkle.DoubleSlashRemoved | src/fairscape_cli/utils/merkle.py:111-112 | `file://rel` becomes `rel` when `rel` does not start with '/' |
| Merkle.BarePath | src/fairscape_cli/utils/merkle.py:98-112 | a bare relative path is kept as it is |
| Merkle.FileUrlForms | src/fairscape_cli/utils/merkle.py:89-118 | `file:///rel`, `file://rel` and `rel` resolve to the same file |
| Inverse.GetJsonKeyFromUri | src/fairscape_cli/entailments/inverse.py:9-17 | with the base namespace as prefix, the key is the rest of the URI. Otherwise the key is the URI's last segment: free of '/' and '#', and every character after it is part of it |
| Inverse.LastSegmentOfSplits | src/fairscape_cli/entailments/inverse.py:17 | `uri.split('/')[-1].split('#')[-1]` is the URI's last segment |
| Inverse.LastSegmentUnique | src/fairscape_cli/entailments/inverse.py:17 | a URI has only one last segment |
| Inverse.GeneratedByKey | src/fairscape_cli/entailments/inverse.py:14-16 | `https://w3id.org/EVI#generatedBy` has the key `generatedBy` |
| Inverse.Entity.AddOrUpdateJsonLink | src/fairscape_cli/entailments/inverse.py:20-51 | the entity's properties become `LinkAdded` of the old ones. The cases: an absent key gets `[{"@id": id}]`; a dict with that id is kept and one with another id becomes `[old, new]`; a list is appended to unless it already links to the id; any other value is replaced by `[link]` |
| Inverse.LinkPresent | src/fairscape_cli/entailments/inverse.py:20-51 | afterwards the key is present and links to the id |
| Inverse.OtherKeysUnchanged | src/fairscape_cli/entailments/inverse.py:20-51 | afterwards every other key reads what it read before |
| Inverse.LinkIdempotent | src/fairscape_cli/entailments/inverse.py:20-51 | adding the same link twice is the same as adding it once |
| Inverse.NoDuplicateLinks | src/fairscape_cli/entailments/inverse.py:47-49 | a list without duplicates of the id ends with exactly one link to the id |
| Inverse.LinkCount | src/fairscape_cli/entailments/inverse.py:47-48 | the number of items linking to an id is zero iff `any(...)` is false |
| SchemaSlices.GenerateSlice | src/fairscape_cli/models/schema/utils.py:22-54 | the parser as intended: it fails only with `ValueError` or with `InvalidRangeException` carrying the range string |
| SchemaSlices.GenerateSliceAsWritten | src/fairscape_cli/models/schema/utils.py:15-54 | the parser as written accepts the same strings, but its invalid-range branch raises `AttributeError` from the exception's constructor |
| SchemaSlices.UnmatchedRangeRaisesAttributeError | src/fairscape_cli/models/schema/utils.py:17 | `"a-b"` raises `AttributeError` as written and `InvalidRangeException("a-b")` as intended |
| SchemaSlices.NToEnd | src/fairscape_cli/models/schema/utils.py:26-32 | `"n::"` gives `slice(n, row_length)` |
| SchemaSlices.StartToN | src/fairscape_cli/models/schema/utils.py:27-38 | `"::m"` gives `slice(0, m)` |
| SchemaSlices.NToM | src/fairscape_cli/models/schema/utils.py:28-45 | `"n:m"` gives `slice(n, m)` |
| SchemaSlices.GenerateSliceOkIff | src/fairscape_cli/models/schema/utils.py:26-52 | a string gives a slice iff the body left after the `$` anchor (which may drop one trailing newline) has the form `n::`, `::m` or `n:m`; any other string raises |
| SchemaSlices.NoFormButNToM | src/fairscape_cli/models/schema/utils.py:26-28 | `digits:digits` matches only the `n:m` pattern |
| SchemaSlices.CheckSliceSliceOverlapAsWritten | src/fairscape_cli/models/schema/utils.py:70-85 | the check as written raises on identical bounds but passes two slices with the same start and different stops |
| SchemaSlices.AsWrittenSound | src/fairscape_cli/models/schema/utils.py:75-83 | for well-formed slices, whatever the as-written check rejects really overlaps |
| SchemaSlices.SameStartOverlapMissed | src/fairscape_cli/models/schema/utils.py:82 | `slice(3, 5)` and `slice(3, 10)` overlap but the as-written check passes them |
| SchemaSlices.CheckSliceSliceOverlap | src/fairscape_cli/models/schema/utils.py:70-85 | for well-formed slices, the corrected check raises iff the closed ranges intersect |
| SchemaSlices.OverlapSymmetric | src/fairscape_cli/models/schema/utils.py:75-83 | the corrected check does not depend on the order of its arguments |
| SchemaSlices.CheckIntSliceOverlap | src/fairscape_cli/models/schema/utils.py:89-99 | for a well-formed slice, it raises iff `start <= i <= stop`; for an inverted one, iff `i` is one of the two bounds |
| SchemaSlices.IntAsUnitSlice | src/fairscape_cli/models/schema/utils.py:89-99 | a column checks like the one-column slice `(i, i)` |
| HuggingFace.ParseHuggingFaceUrl | src/fairscape_cli/utils/huggingface_utils.py:42-81 | a parsed repo id holds exactly one '/'; a string without '/' is rejected as not a HuggingFace URL |
| HuggingFace.ShorthandRoundTrip | src/fairscape_cli/utils/huggingface_utils.py:57-61 | `a/m`, followed by nothing or by anything starting with '/', parses to `a/m` |
| HuggingFace.ShorthandRejectedIff | src/fairscape_cli/utils/huggingface_utils.py:57-62 | a non-URL with a '/' is rejected iff `strip('/')` leaves a single part, and then with the invalid-repo-id error |
| HuggingFace.UrlRoundTrip | src/fairscape_cli/utils/huggingface_utils.py:64-81 | `http(s)://(www.)huggingface.co/a/m`, with or without a `/tree|blob|resolve/...` tail, parses to `a/m` |
| HuggingFace.ForeignHostRejected | src/fairscape_cli/utils/huggingface_utils.py:64-68 | a URL on any other host is rejected as not a HuggingFace URL |
| HuggingFace.SinglePartPathRejected | src/fairscape_cli/utils/huggingface_utils.py:70-75 | a HuggingFace URL whose path is a single part (or empty) is rejected with the invalid-repo-path error for that part |
| HuggingFace.CutMarker | src/fairscape_cli/utils/huggingface_utils.py:72 | the result is the prefix before the leftmost `/tree/`, `/blob/` or `/resolve/`, or the whole path when there is none |
| HuggingFace.ExtensionRank | src/fairscape_cli/utils/huggingface_utils.py:97-108 | a file joins the first group in priority order whose extension its name ends with, and no earlier one |
| HuggingFace.GroupMembers | src/fairscape_cli/utils/huggingface_utils.py:99-108 | group k holds exactly the files whose rank is k |
| HuggingFace.FirstLatest | src/fairscape_cli/utils/huggingface_utils.py:115-126 | the stable descending sort's head: a candidate with the latest date |
| HuggingFace.ChooseFromLatest | src/fairscape_cli/utils/huggingface_utils.py:111-130 | when some candidate has a date, the choice has a date no earlier than any candidate's |
| HuggingFace.SelectModelFile | src/fairscape_cli/utils/huggingface_utils.py:84-130 | the grouping and choosing loops produce exactly `ModelFileChoice` |
| HuggingFace.SelectNoneIff | src/fairscape_cli/utils/huggingface_utils.py:84-130 | nothing is selected iff no file name ends with a priority extension |
| HuggingFace.SelectBest | src/fairscape_cli/utils/huggingface_utils.py:97-130 | the selected file is one of the inputs and carries the best extension present; within its group, no dated file is later |
| HuggingFace.HeadingShape | src/fairscape_cli/utils/huggingface_utils.py:155-158 | a stripped line is a heading iff it starts with '#'. Its level is the length of the run of leading '#'s, and its title is the rest, stripped |
| HuggingFace.ExtractSectionFromMarkdown | src/fairscape_cli/utils/huggingface_utils.py:133-177 | the line loop produces exactly `ExtractSection` |
| HuggingFace.ScanSection | src/fairscape_cli/utils/huggingface_utils.py:152-172 | the scan collects exactly the lines after the first matching heading and up to the next heading of equal or higher level |
| HuggingFace.SectionContent | src/fairscape_cli/utils/huggingface_utils.py:133-177 | with a matching heading, the result is the section's lines joined with newlines and stripped, or None when the section has no lines |
| HuggingFace.NoMatchingHeading | src/fairscape_cli/utils/huggingface_utils.py:152-177 | without a case-insensitively matching heading, the result is None |
| Provenance.NormalizeToList | src/fairscape_cli/datasheet_builder/rocrate/prov_utils.py:129-135 | the result is empty exactly for a falsy value, and a list is kept as it is |
| Provenance.NormalizeSingleton | src/fairscape_cli/datasheet_builder/rocrate/prov_utils.py:133-135 | a truthy value that is not a list becomes `[v]`, the same references as the one-element list of it |
| Provenance.NormalizeIdempotent | src/fairscape_cli/datasheet_builder/rocrate/prov_utils.py:129-135 | normalising an already normalised list changes nothing |
| Provenance.ExtractId | src/fairscape_cli/datasheet_builder/rocrate/prov_utils.py:137-143 | an identifier is found exactly for a dict with an `@id` key and for a string |
| Provenance.IdOfDict | src/fairscape_cli/datasheet_builder/rocrate/prov_utils.py:139-140 | a dict gives back the `@id` written into it, whatever its other keys |
| Provenance.ReferenceFormsAgree | src/fairscape_cli/datasheet_builder/rocrate/prov_utils.py:137-143 | `{"@id": id}` and `id` yield the same identifier |
| Provenance.IsDataset | src/fairscape_cli/datasheet_builder/rocrate/prov_utils.py:145-152 | An absent `@type` is no dataset. A string (lifted to a list) or a list must hold one of the three dataset types, and a dict must have one as a key. A `@type` of any other kind raises `TypeError` |
| Provenance.IsDatasetLiftsStrings | src/fairscape_cli/datasheet_builder/rocrate/prov_utils.py:147-148 | a bare `@type` string and the one-element list of it give the same answer |
| Provenance.AggregateInputDatasets | src/fairscape_cli/datasheet_builder/rocrate/prov_utils.py:107-127 | the counting loop over external then internal inputs produces exactly `Aggregate` of their concatenation |
| Provenance.AggregateCounts | src/fairscape_cli/datasheet_builder/rocrate/prov_utils.py:118-125 | each key (`"sub, fmt"` or `fmt`) maps to the number of inputs with that key; keys no input has are absent |
| Provenance.AggregateUnique | src/fairscape_cli/datasheet_builder/rocrate/prov_utils.py:115-125 | no key is counted in two entries |
| Provenance.AggregateTotal | src/fairscape_cli/datasheet_builder/rocrate/prov_utils.py:107-127 | the counts add up to the number of inputs |

## Left out

- The `exec` call that runs the command and the `output` state it fills (src/App.jsx:381-391): a process runner is external I/O. `BuildCommand` returns the string that would be run.
- The JSX markup of both components (labels, inputs and event wiring): only the data that `renderOptions` derives is modelled.
- The SHA-256 implementation: `concat` is an uninterpreted function parameter. `sha256_file` and the loop in `generate_merkle_tree` that reads the crate's file entities are not modelled; neither is `Path.is_file`, which is the `isFile` parameter.
- The `pathlib` join `crate_dir / stripped` is modelled as a string join (`Merkle.JoinPath`), without the normalisation of `..`, of absolute `stripped` values or of duplicate separators.
- `str.lower()` is modelled for ASCII letters only, and `str.isspace` by the fixed set of characters in `Text.IsPySpace`.
- Merkle.SortedUnique: the sort is proved unique only when the URL determines the whole leaf. Python's stable sort on equal URLs depends on the input order, which the model does not track.
- HuggingFace.ParseHuggingFaceUrl: the `ValueError` that `urlsplit` raises on a malformed IPv6 netloc is folded into the not-a-HuggingFace-URL error. A port or user info stays part of the raw netloc, so such a URL is rejected by the host test, as in the source; an upper-case scheme fails the case-sensitive `startswith` tests and takes the repo-id branch, as in the source.
- HuggingFace.UrlRoundTrip: the round trip is proved for paths without a query, fragment, parameters, tabs or newlines. The parser accepts the others, and the model implements them, but they have no lemma.
- HuggingFace.SelectModelFile: commit dates are integers compared as the source compares its date values. `str(file)` is modelled as the file's name. The result is the chosen file, not the tuple of file name and file object.
- HuggingFace.ExtractSectionFromMarkdown: headings are matched with the ASCII case folding of `Text.LowerAscii`.
- Provenance.AggregateInputDatasets: a dataset record without `format` or `subcrate` (a `KeyError`) is not modelled. Both fields are strings, and the sub-crate is falsy exactly when it is empty.
- Inverse.Entity.AddOrUpdateJsonLink: a list already stored under the key is replaced by a new list with the link appended, where the source appends to that list object in place; aliasing of the stored list with other references to it is not modelled.
- The other datasheet-builder and RO-Crate code, the Click commands, the network connectors and the Electron shell are not part of this model.
- The option order: the command string emits options in the order they were first edited (`Object.entries` of the spread object), not in catalogue order, and the model follows the code.
- Auto-descend for `rocrate`: the rocrate command has three subcommands, so selecting it does not descend automatically. The model follows the catalogue in the code.

## Findings

| source | as written | input that shows it | evidently intended | confidence | as-written member | corrected member |
|---|---|---|---|---|---|---|
| src/App.jsx:335 | `handleSubCommandSelect`, when called from `handleCommandSelect`'s auto-select, reads `selectedCommand` from the render before the command changed | a catalogue with a command `x` whose only subcommand is `only`, selected while no command is selected: `commands[""]` is `undefined` and indexing it raises `TypeError` | look up the actions under the newly selected command | not executed; the shipped catalogue has no single-subcommand command, so the bug is latent there (`Catalogue.ShippedNoSingleSubCommand`) | App.Engine.SelectCommand, AppSessions.StaleClosureWitness | App.Engine.SelectCommandFixed |
| src/fairscape_cli/models/schema/utils.py:17 | `InvalidRangeException.__init__` builds its message from `self.slice_value` before that attribute is assigned | `GenerateSlice("a-b", 10)` | raise `InvalidRangeException` carrying `"a-b"` | not executed | SchemaSlices.GenerateSliceAsWritten, SchemaSlices.UnmatchedRangeRaisesAttributeError | SchemaSlices.GenerateSlice |
| src/fairscape_cli/models/schema/utils.py:82 | the identical-bounds test needs both start and stop equal, and the partial-overlap tests are strict, so two slices with one shared start and different stops pass | `CheckSliceSliceOverlap(slice(3, 5), slice(3, 10))` | raise on any intersection of the two ranges | not executed | SchemaSlices.CheckSliceSliceOverlapAsWritten, SchemaSlices.SameStartOverlapMissed | SchemaSlices.CheckSliceSliceOverlap |
