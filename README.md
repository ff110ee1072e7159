# YAML Inspector core, modelled in Dafny

The YAML Inspector (`scripts/deploy/yaml_log.py`) finds a project root by
walking from the working directory up to the first directory that holds a
`.root` marker file. It then reports every scalar of every YAML file below
that root as table rows:

    File | Location | Key Path | Value | Type

This project models the logic behind those rows and proves what it does:

- **Document** (`document.dfy`): the parsed tree, its key-paths, lookup
  along a key-path, Python truthiness, and `load(f) or {}`.
- **Flatten** (`flatten.dfy`): the stack-driven `flatten` generator as an
  imperative method. The method is proved to emit exactly
  `Reverse(Leaves(obj, path))`, where `Leaves` lists the leaves in document
  order.
- **Truncate** (`truncate.dfy`): `truncate_display` as a method with the
  source's early return, its `for` loop and its `break`. It is proved equal
  to the function `Truncated`, and the truncation laws are proved about
  that function. The width of one character is a parameter `w`, standing
  for `wcswidth` on one character.
- **KeyPathText** (`keypath.dfy`): the Key Path cell,
  `".".join(str(e) for e in key_path) or "(root)"`.
- **RootLocator** (`root_locator.dfy`): `find_project_root` as a method
  with an early return. The filesystem is a predicate `isFile`, and a
  directory is the list of components of its resolved absolute path.
- **Inspector** (`inspector.dfy`): how the above meet for one file, with a
  worked example document.

The traversal order is settled, not left open: for each container, the
last child's subtree is emitted first and in full. Overall, the entries
come out in exactly the reverse of document order.

Where the docstring of `truncate_display` and its code differ, the model
follows the code:

- The docstring (`scripts/deploy/yaml_log.py:69-70`) promises a display
  width of at most `max_width`. That holds only when `max_width >= 3`.
  Below that, a non-empty string that does not fit becomes `"..."`
  (lines 78-80), which is 3 columns wide. See `Truncate.TruncateNarrow`;
  `Truncate.TruncateBudget` proves the promise for `max_width >= 3`.
- The empty string is returned unchanged for any budget, including a
  negative one. See `Truncate.TruncateEmpty`.

## Model

| member | source | states |
|---|---|---|
| Document.IsFalsy | scripts/deploy/yaml_log.py:45 | Python truthiness of a loaded root: empty mapping or sequence, None, False, 0, "" or a zero-valued other scalar; described by `Document.Normalize` and `Flatten.NormalizedLeaves` |
| Document.Normalize | scripts/deploy/yaml_log.py:45 | the result is never falsy unless it is `{}`; it is `{}` exactly when the loaded root is falsy; a truthy root is kept unchanged |
| Document.NormalizeIdempotent | scripts/deploy/yaml_log.py:45 | normalising a normalised document changes nothing |
| Flatten.Flatten | scripts/deploy/yaml_log.py:50-64 | the stack loop terminates (measure: node count on the stack) and emits exactly the document-order leaves in reverse |
| Flatten.LeavesCount | scripts/deploy/yaml_log.py:57-64 | one entry per scalar leaf of the tree |
| Flatten.FlattenedIsPermutation | scripts/deploy/yaml_log.py:55-64 | the output has exactly one entry per scalar leaf of the tree, and holds the document-order entries in another order; with `FlattenedEntries` and `FlattenedPathsDistinct` this says nothing is dropped and nothing duplicated |
| Flatten.FlattenedPathsDistinct | scripts/deploy/yaml_log.py:57-62 | with unique mapping keys no key-path is emitted twice |
| Flatten.FlattenedEntries | scripts/deploy/yaml_log.py:50-64 | `(q, v)` is emitted if and only if `q` extends the start path and following the remainder of `q` from the root reaches the scalar `v` |
| Flatten.LeavesSound | scripts/deploy/yaml_log.py:57-64 | every emitted entry is reached by its own path: the path extends the start path and the lookup yields that scalar |
| Flatten.LeavesComplete | scripts/deploy/yaml_log.py:57-64 | every scalar reachable by a path is emitted with that path |
| Flatten.PathsExtend | scripts/deploy/yaml_log.py:59-62 | each descent only appends a segment, so every emitted path starts with the start path |
| Flatten.LastFieldFirst | scripts/deploy/yaml_log.py:55-59 | the last item of a mapping is pushed last, so its whole subtree is emitted before any earlier item's |
| Flatten.LastItemFirst | scripts/deploy/yaml_log.py:55-62 | the same for a sequence: the last element's subtree is emitted first, with index `len - 1` |
| Flatten.NormalizedLeaves | scripts/deploy/yaml_log.py:45 | a falsy loaded root yields no entries; any other root is flattened as loaded |
| Truncate.Width | scripts/deploy/yaml_log.py:72 | `wcswidth(s)` as the sum of per-character widths, described by `Truncate.WidthConcat` |
| Truncate.WidthConcat | scripts/deploy/yaml_log.py:72 | the width of a concatenation is the sum of the widths of its parts |
| Truncate.TruncateDisplay | scripts/deploy/yaml_log.py:67-83 | the early return, the greedy loop and the break compute exactly `Truncated` |
| Truncate.FitCountGreedy | scripts/deploy/yaml_log.py:76-82 | the greedy prefix stays within a non-negative budget, and one more character would exceed the budget |
| Truncate.TruncateIdentity | scripts/deploy/yaml_log.py:72-73 | a string whose width fits is returned unchanged |
| Truncate.TruncateClipped | scripts/deploy/yaml_log.py:74-83 | a non-empty string that does not fit becomes its longest greedy prefix within `max_width - 3` columns followed by `"..."`, and the next character would not have fitted |
| Truncate.TruncateNarrow | scripts/deploy/yaml_log.py:78-80 | with `max_width < 3`, a non-empty string that does not fit becomes `"..."` |
| Truncate.TruncateEmpty | scripts/deploy/yaml_log.py:72-83 | the empty string is returned unchanged for every budget |
| Truncate.TruncateBudget | scripts/deploy/yaml_log.py:67-71 | with `.` one column wide and a budget of at least 3, the result fits the budget |
| Truncate.TruncateIdempotent | scripts/deploy/yaml_log.py:67-83 | truncating an already truncated value with the same budget changes nothing |
| KeyPathText.SegmentText | scripts/deploy/yaml_log.py:91 | `str(e)` of one segment: a key as written, an index by `Decimal`; described by `KeyPathText.SegmentNoDot` and `KeyPathText.RenderRoundTrip` |
| KeyPathText.Join | scripts/deploy/yaml_log.py:91 | `".".join(parts)`, described by `KeyPathText.JoinEmpty` and `KeyPathText.SplitJoin` |
| KeyPathText.Render | scripts/deploy/yaml_log.py:91 | the joined segment texts, or `(root)` when the join is empty; described by `KeyPathText.RenderIsSentinel` and `KeyPathText.RenderRoundTrip` |
| KeyPathText.Decimal | scripts/deploy/yaml_log.py:91 | `str(i)` of an index is non-empty, all digits, and has no leading zero unless it is 0 |
| KeyPathText.DecimalRoundTrip | scripts/deploy/yaml_log.py:91 | the digits of an index denote that index again |
| KeyPathText.Texts | scripts/deploy/yaml_log.py:91 | one text per segment: a key as written, an index in decimal |
| KeyPathText.JoinEmpty | scripts/deploy/yaml_log.py:91 | the `.`-join is empty exactly for no parts or a single empty part |
| KeyPathText.RenderIsSentinel | scripts/deploy/yaml_log.py:91 | the cell reads `(root)` exactly for the empty path, a single empty key, or a single key named `(root)` |
| KeyPathText.SplitJoin | scripts/deploy/yaml_log.py:91 | splitting a join of dot-free parts at `.` gives the parts back |
| KeyPathText.RenderRoundTrip | scripts/deploy/yaml_log.py:91 | when no key contains a dot and the join is non-empty, the cell determines the text of every segment |
| RootLocator.Ancestors | scripts/deploy/yaml_log.py:31 | the start directory and then each parent up to the filesystem root, one per length |
| RootLocator.HasMarker | scripts/deploy/yaml_log.py:32 | `(d / marker).is_file()`, described by `RootLocator.FindProjectRoot` |
| RootLocator.FindProjectRoot | scripts/deploy/yaml_log.py:29-34 | the result is the deepest ancestor holding the marker; failure happens if and only if no ancestor holds it, and it reports the marker and the start directory |
| Inspector.ScalarRootRow | scripts/deploy/yaml_log.py:87-91 | a truthy scalar document yields exactly one entry, with the empty path and that value, and its Key Path cell reads `(root)` |
| Inspector.FalsyScalarRoot | scripts/deploy/yaml_log.py:45 | a falsy scalar document yields no rows, although flattening it unnormalised would yield one |
| Inspector.AppDocumentEntries | scripts/deploy/yaml_log.py:87-91 | for `name`/`replicas`/`tags: [a, b]` the entries are yielded as `tags.1`, `tags.0`, `replicas`, `name` |
| Inspector.AppNameCell | scripts/deploy/yaml_log.py:92 | whenever no character is wider than two columns, the example's emoji-prefixed name fits the 60-column cell and is shown whole |
| Inspector.Rows | scripts/deploy/yaml_log.py:87-99 | the Key Path and Value cells of the rows built for a loaded document, described by `Inspector.DocumentRows` |
| Inspector.DocumentRows | scripts/deploy/yaml_log.py:87-99 | a loaded document gets one row per scalar leaf, no row when it is falsy, and every row has a non-empty Key Path cell and a Value cell within 60 columns |
| Inspector.ValueText | scripts/deploy/yaml_log.py:92 | `str(value)`: `None`, `True`/`False`, a signed decimal integer, a string as it is; described by `Inspector.RowCells` and `Inspector.IntTextRoundTrip` |
| Inspector.Cells | scripts/deploy/yaml_log.py:91-92 | the rendered key-path and the truncated `str(value)` of one entry, described by `Inspector.RowCells` |
| Inspector.RowCells | scripts/deploy/yaml_log.py:90-92 | for every entry: the Key Path cell is non-empty and reads `(root)` exactly for the sentinel paths; the Value cell is within 60 columns, is `str(value)` when that fits, and is otherwise a proper prefix of it plus `"..."` |
| Inspector.IntTextRoundTrip | scripts/deploy/yaml_log.py:92 | `str(i)` of an integer cell is its decimal digits, preceded by `-` when negative, and denotes `i` again |

## Left out

- YAML parsing (`ruamel.yaml` in safe mode) is not modelled. Any `Node` stands for a document the loader may return.
- The `YAMLError` exit in `read_yaml` is not modelled, because it belongs to the parser.
- File opening and UTF-8 decoding are not modelled.
- `wcswidth` is the parameter `w` of type `char -> nat`. Its `-1` result for non-printable characters is not modelled.
- Truncate.TruncateDisplay and Truncate.TruncateIdentity assume that the width of a whole string (`wcswidth(s)` at line 72) is the sum of its characters' widths (`wcswidth(ch)` at line 77). Some wcwidth releases measure zero-width-joiner sequences and U+FE0F differently in a whole string than one character at a time. On such strings the source can return an over-wide `s` unchanged, or finish the loop without appending `"..."`. The model does not capture either case: under additivity the `else ""` branch of `Truncated` is reached only by the empty string with a negative budget.
- The truncation laws that measure widths need `w('.') == 1`.
- `find_yaml_files` (`rglob` for `*.yaml` and `*.yml`) is not modelled: it is filesystem I/O.
- Sorting in `main` and the "No YAML files found" exit are not modelled: they are I/O-driven control flow, not core logic.
- `main` is not modelled.
- `tabulate_file` is modelled only for the Key Path and Value cells of its rows (`Inspector.Rows`). The table layout (`tabulate`), `print`, the File and Location cells, and `relative_to` are left out as output formatting.
- `str(value)` is modelled for null, booleans, integers and strings (`Inspector.ValueText`).
- Floats, dates and other scalar types beyond null, bool, int and string are represented by `Other(tag, text, zero)`. Their `str` is the recorded `text`, which is not derived.
- The Type column (`type(value).__name__`) is not modelled. It is the `tag` of `Other`.
- Flatten returns the whole output sequence. The generator's laziness is not modelled.
- Flatten: `path=None` is modelled by passing `[]`. `path or []` treats both alike.
- Mapping keys are strings. A non-string key (an integer, say) is modelled by its text, which is what the Key Path cell shows.
- Flatten.FlattenedPathsDistinct, Flatten.LeavesSound and Flatten.FlattenedEntries require `KeysUnique`, which compares key texts. A Python dict keeps keys unique by `==` instead. So the YAML `1: x` plus `"1": y` is a valid dict with keys `1` and `"1"`, while `KeysUnique` fails on it. These lemmas say nothing about such documents, and the source shows two rows with Key Path `1` for them.
- Flatten.Flatten: `Node` is inductive, so a document with a recursive alias (`x: &a [*a]`, a list that contains itself) cannot be represented. The safe loader can build such a document, and on it the loop at lines 55-62 never ends. The termination proof covers only finite trees.
- Python's `isinstance(node, dict)` is the `Map` case, and `isinstance(node, list)` is the `List` case. Dict and list subclasses are not modelled separately.
- RootLocator: `Path.cwd().resolve()` is the parameter `start`. Symlink resolution and the meaning of `is_file` are left to the caller's `isFile` predicate.
- RootLocator.FindProjectRoot returns `MarkerNotFound` instead of exiting the process.
