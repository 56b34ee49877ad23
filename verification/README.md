# Resource-manifest reconciler of Cxx-Module-Helper, in Dafny

This project models the rename listener of the Cxx-Module-Helper VS Code
extension (`renameFilesListener`). Every directory of a C++ module tree may
hold a `resource.yml` manifest. A manifest maps category names to values. List
values hold file base names. When files are renamed or moved, the listener
keeps those manifests consistent:

- **Same-directory rename.** Each list element equal to the old base name is
  overwritten by the new base name. The manifest is then written back. This
  write happens even when nothing was replaced.
- **Cross-directory move.** Each list category is split into the entries equal
  to the old base name (`moved`) and the rest (`kept`). If nothing matched, the
  file is done and nothing is written. Otherwise the old manifest is rewritten
  with `kept` in every category that matched. Then the moved blocks are merged
  into the new directory's manifest, which counts as `{}` when absent. A block
  is appended to an existing list. It creates an absent category. It is
  skipped with a warning when the existing value is not a list.
- A directory without a manifest makes the file a no-op. The files of one
  event are handled one after another.

Modules:

- `ListOps` (`lists.dfy`): the list surgery. `ReplaceAll` is the in-place
  replacement loop. `Partition` is the `reduce` into `[moved, kept]`. It has
  independent reference definitions (`Repeat`, `Without`, `Count`).
- `Manifest` (`manifest.dfy`): `Value = List(items) | Other(raw)` and
  `Manifest = map<string, Value>`. It holds the three manifest-level
  operations: `RenameEntries`, `SplitEntries` and `MergeMoved`.
- `Conservation` (`conservation.dfy`): `Total`, a name's occurrence count over
  all list categories of a manifest, and the balance of the old name across
  the split and the merge.
- `RenameListener` (`listener.dfy`): a store of manifests keyed by directory,
  `ReconcileFile` for one file, and `ProcessEvent`, the sequential fold over
  an event's files. A file's result lists the manifests it loads, the writes
  it performs in order, and the categories it warns about.

Two details of the code that the model keeps as written:

- Moved entries keep the **old** base name. `value` is pushed at
  src/extension.ts:92, and that value equals the old base name. Lines 141 and
  143 merge it unchanged. So a move that also changes the base name leaves the
  destination listing the old name. For a pure move the two names are equal.
- The same-directory branch writes the manifest back unconditionally
  (src/extension.ts:77-80), even when nothing was replaced. The cross-directory
  branch writes nothing when nothing matched. `ReconcileOutcomes` and
  `SameDirRename` state both.

## Model

| member | source | states |
|---|---|---|
| ListOps.ReplaceAll | src/extension.ts:71-75 | the renamed list has the original length; position i holds the new name exactly where the original held the old name, duplicates included, and every other element is unchanged |
| ListOps.ReplaceAllIdentity | src/extension.ts:71-75 | renaming to the same name, or renaming a name the list does not hold, leaves the list equal to the input |
| ListOps.ReplaceAllCounts | src/extension.ts:71-75 | after a rename to a different name the old name occurs zero times, the new name gains exactly the old name's occurrences, and every other name keeps its count |
| ListOps.PartitionFromReference | src/extension.ts:89-99 | the accumulating `reduce` from any `(moved, kept)` appends copies of the name (as many as occur) to `moved` and the filtered list to `kept` |
| ListOps.Partition | src/extension.ts:89-99 | `moved` is exactly Count(xs, name) copies of the name and `kept` is the input with the name filtered out |
| ListOps.PartitionExact | src/extension.ts:89-99 | `moved` holds only the name, as many times as it occurs; `kept` holds no copy of it and every other name as often as the input; the lengths add up to the input's; the two multisets add up to the input's |
| ListOps.WithoutIsSubsequence | src/extension.ts:89-99 | `kept` is a subsequence of the input, so the surviving entries keep their relative order |
| Manifest.RenameEntries | src/extension.ts:66-76 | the same-directory rename keeps the key set and every non-list value; each list keeps its length and is renamed position by position |
| Manifest.RenameEntriesIdentity | src/extension.ts:66-76 | renaming to the same name, or renaming a name no list holds, gives back the manifest unchanged |
| Manifest.RenameEntriesCounts | src/extension.ts:66-76 | after a rename to a different name no list holds the old name, and in each category the new name's count is the old count of both names |
| Manifest.SplitEntries | src/extension.ts:83-104 | `moved_resources` has exactly the list categories holding the old name, each with the right number of copies; the rewritten manifest keeps its keys, holds `kept` in those categories, and holds the old value in every other category |
| Manifest.SplitNothingMoved | src/extension.ts:100-110 | nothing is moved exactly when no list category of the old manifest holds the old name |
| Manifest.SplitRest | src/extension.ts:100-103 | the rewritten old manifest lists the old name nowhere; every other name keeps its count per category; unmatched and non-list categories are unchanged; per category, what stays plus what moves is what was there |
| Manifest.MergeMoved | src/extension.ts:132-145 | the destination gains exactly the moved categories; an existing list is kept as a prefix with the block appended at the end; an absent category holds exactly the block; a non-list value is unchanged; other keys are unchanged; a warning is raised exactly for the moved categories that do not end up holding a list |
| Manifest.MergeCounts | src/extension.ts:132-145 | per category, the destination's count of any name grows by the block's count, except in a category skipped with a warning, where it does not change |
| Conservation.SplitMergeConservation | src/extension.ts:89-145 | over the split and the merge, the old name's totals satisfy old-after + new-after + lost == old-before + new-before, where lost are the blocks routed to non-list categories; with no warnings nothing is lost |
| RenameListener.AfterCases | src/extension.ts:56-150 | the store after one file is unchanged when the old directory has no manifest or a move matches nothing; on a same-directory rename only the old manifest is replaced by its renamed form; after a matching move the old manifest is replaced and then the new one |
| RenameListener.ReconcileOutcomes | src/extension.ts:56-150 | nothing is written for a missing old manifest or a move matching nothing, and the destination is then not loaded; a same-directory rename writes the old manifest once, even with no replacement; a matching move loads and writes the old manifest, then the new one; warnings arise only from a matching move |
| RenameListener.ReconcileWritesOnly | src/extension.ts:54-150 | one file's writes touch only the manifests of its old and new directory; every other directory's manifest, or its absence, is unchanged |
| RenameListener.ReconcileLocal | src/extension.ts:54-131 | one file's outcome depends only on the manifests of its old and new directory |
| RenameListener.SameDirRename | src/extension.ts:65-80 | after a same-directory rename the manifest keeps its keys and non-list values; no list holds the old name; each category's new-name count gained the old name's occurrences; if the name is unchanged or not listed, the written manifest equals the stored one |
| RenameListener.SameDirExample | src/extension.ts:65-80 | renaming `a` to `c` in `{resources: [a, b], version: "1.0"}` writes back `{resources: [c, b], version: "1.0"}` |
| RenameListener.MoveIntoNonListExample | src/extension.ts:100-145 | moving `a` out of `{resources: [a, b]}` into a directory whose `resources` value is not a list leaves `{resources: [b]}` behind, leaves the destination unchanged and warns about `resources`: the entry is lost |
| RenameListener.MoveOldManifest | src/extension.ts:100-114 | after a matching move the old manifest keeps its keys, lists the old name nowhere, keeps unmatched and non-list categories unchanged, and keeps every other name's count |
| RenameListener.MoveNewManifest | src/extension.ts:115-149 | after a matching move the destination (`{}` if absent) gains the matched categories; a list or absent category ends with the block of old-name copies after its existing entries; a non-list category is unchanged and warned about; every other category is unchanged |
| RenameListener.MoveConservation | src/extension.ts:100-149 | the old name's total over the two manifests after a matching move equals its total before, minus the entries lost to non-list destination categories |
| RenameListener.MoveConserves | src/extension.ts:100-149 | when each matched category is absent or a list at the destination, there are no warnings, the old manifest's total for the old name is zero, and the destination's total is the old manifest's total plus its own prior total |
| RenameListener.FoldAppliesWrites | src/extension.ts:46-151 | for any per-file step, the store after the loop is the initial store with every write performed in order |
| RenameListener.FoldSequential | src/extension.ts:46-151 | for any per-file step, looping over `a + b` is looping over `a` and then over `b` from the store `a` left; loads, writes and warnings concatenate |
| RenameListener.EventAppliesWrites | src/extension.ts:46-151 | the event's final store is the initial store with all of the event's writes performed in order |
| RenameListener.EventSequential | src/extension.ts:46-151 | the listener processes the files of an event one after another: `a + b` behaves as `a` followed by `b` |
| RenameListener.EventSkipsUntracked | src/extension.ts:56-63 | a file whose old directory has no manifest is skipped and the event continues with the next file from the same store |
| RenameListener.EventFrame | src/extension.ts:46-151 | an event leaves the manifest of every directory none of its files comes from or goes to as it was |
| RenameListener.ReconcileCommutes | src/extension.ts:46-150 | two files whose directories are disjoint leave the same store in either order, so files are handled independently |

## Left out

- VS Code API: `activate` and its subscriptions, `readFile`/`writeFile`,
  `showWarningMessage` and console logging (src/extension.ts:9-36, 57-61,
  77-80, 126-128, 136-138). Reads and writes are lookups and updates on a
  store keyed by directory. A failed read is a missing key. A warning is a
  category in a returned set.
- `createFilesListener` (src/extension.ts:38-42): its loop body is empty, so
  it has no behaviour to model. The text-change logger
  (src/extension.ts:24-26) and `deactivate` (src/extension.ts:155) have no
  behaviour either.
- YAML parsing and dumping with `js-yaml` (src/extension.ts:64, 79, 113, 131,
  148): the model starts from parsed trees and ignores key order in the dumped
  text. A malformed manifest makes `yaml.load` throw. The model leaves that
  case out. In the code the exception leaves the async listener, so the
  event's remaining files are not processed.
- Odd parse results: `yaml.load` can return `undefined`, `null`, a scalar or an
  array for unusual text. Keys inherited through the prototype can show up in
  `in` and `for...in`. The model treats every stored manifest as a mapping. An
  empty destination file is `{}`, as line 131 does, which is the same as an
  empty map.
- List elements that are not strings: the model's lists hold strings. A
  non-string element never equals a base name under `===`, so it would always
  be kept in place.
- Path handling: `path.basename`, `path.dirname` and `Uri.joinPath`
  (src/extension.ts:47-54, 115-118). Each file of an event is given as old and
  new directory and base name. "Same directory" is equality of the two
  directories.
- Failures of `writeFile`, and read failures other than a missing file. Every
  failed read of the new manifest is treated as absence (src/extension.ts:124-128).
- Concurrency: overlapping rename events racing on one manifest, and async
  interleaving. The files of one event are modelled as sequential, because
  each file's work is awaited in order.
- The command dispatcher, the process runner and the create/delete tool
  invocations: src/extension.ts contains no code for them, so they are not
  part of this model.
