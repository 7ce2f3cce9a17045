# cargo-table-deps: dependency-table conversion, modelled in Dafny

cargo-table-deps rewrites the dependency declarations of a Cargo manifest. A
dependency written as a bare version string (`serde = "1"`) or as an inline
table (`serde = { version = "1", features = ["derive"] }`) becomes a full
table (`[dependencies.serde]` with one line per key). Every other part of the
manifest stays as it was.

The project models the conversion engine and the package-selection rule:

- `document.dfy` (module `Document`) is the manifest document.
  - A `Table` is an ordered list of `(key, Item)` entries plus the `implicit`
    header flag.
  - An `Item` is a full table, a value, or an array of tables.
  - A `Value` is a string, an inline table, or any other value.
  - It holds the `Table` capability (`insert`, `sort_values`,
    `set_implicit`) and the three locators (`get_cfgs`, `get_dependencies`,
    `get_target_dependencies`).
  - It holds `exclude_table`, which computes the replacements for one
    dependency table.
- `manifest.dfy` (module `Manifest`) is the conversion.
  - `ConvertTable` is the per-table step. It inserts every replacement, then
    sorts the table and marks it implicit.
  - `ConvertDocument` specifies the walk over all dependency locations:
    kind by kind, the root table, then the kind under every
    `target.<cfg>`.
  - The class `Manifest` holds `converted`, `document` and `path`. Its
    `Convert` method runs the nested loops in place and is proved equal to
    `ConvertDocument`.
- `metadata.dfy` (module `Metadata`) is the package-selection rule of
  `get_packages`.
- `wrappers.dfy`, `sequences.dfy` and `keyorder.dfy` are small supporting
  modules:
  - `Option`/`Result`;
  - distinctness and order-preserving subsequences;
  - the lexicographic key order used for sorting.

A well-formed document (`ValidTable`) has no key twice in any table, at any
depth. TOML itself forbids duplicate keys, so a parsed manifest always has
this property; `Build` takes it as the promise of the parser it is given.

The generic implementation in `src/manifest/mod.rs` and
`src/manifest/document.rs` is the one modelled. `src/manifest.rs` implements
the same algorithm directly over the TOML library, including the `continue`
described under Findings (src/manifest.rs:48-54).

The walk is kind-major: the root table of a kind, then that kind under each
cfg, before the next kind (`Manifest.VisitsOrder`).

## Model

| member | source | states |
|---|---|---|
| Document.Insert | src/manifest/document.rs:37-39 | inserting at a key already present replaces its item in place and keeps every key and its position; a new key is appended at the end; lookups at every other key are unchanged; the flag is kept |
| Document.SortValues | src/manifest/document.rs:41-43 | the result is sorted by key and is a permutation of the entries (and of the keys); the implicit flag is kept; an already sorted table is returned unchanged |
| Document.SortByKeySorted | src/manifest/document.rs:41-43 | the reordering produces entries in ascending key order |
| Document.SortByKeyPermutes | src/manifest/document.rs:41-43 | the reordering neither adds, drops nor duplicates an entry |
| Document.SortValuesLookup | src/manifest/document.rs:41-43 | in a table with distinct keys, sorting keeps the keys distinct and every key keeps its item |
| Document.SetImplicit | src/manifest/document.rs:45-47 | only the implicit flag changes, to the given value |
| Document.Subtable | src/manifest/document.rs:65 | a key yields a table exactly when its item is a full table (not a value, not an array of tables) |
| Document.SetSubtable | src/manifest/document.rs:64-73 | writing back through a table handle keeps the key order and the flag, makes the key hold the new table, leaves every other key alone, and writing back the same table is the identity |
| Document.GetCfgs | src/manifest/document.rs:50-57 | the keys of the root `target` table, in table order, or none when `target` is missing or not a full table; in a well-formed document no cfg occurs twice |
| Document.GetDependencies | src/manifest/document.rs:64-66 | the root item at the key, exactly when it is a full table |
| Document.GetTargetDependencies | src/manifest/document.rs:68-73 | `target.<k1>.<k2>`, exactly when `target`, `target.<k1>` and `target.<k1>.<k2>` are all full tables |
| Document.SetDependencies | src/manifest/document.rs:64-66 | after writing back, the locator returns the written table |
| Document.SetTargetDependencies | src/manifest/document.rs:68-73 | after writing back, the target locator returns the written table |
| Document.Promote | src/manifest/document.rs:93-96 | the pairs of an inline table become table entries with the same keys in the same order, each value kept |
| Document.Expand | src/manifest/document.rs:81-98 | there is a replacement exactly for a string value or an inline-table value; `"X"` becomes a full table whose only key is `version`, holding the string X; an inline table becomes a full table with the same pairs in the same order; a replacement is never implicit |
| Document.ExpandValid | src/manifest/document.rs:87-96 | the replacement of a well-formed item is well-formed |
| Document.Rewritten | src/manifest/document.rs:81-98 | the item an entry holds after conversion: the replacement when there is one, the item itself otherwise; never a string or inline table |
| Document.ExcludeTable | src/manifest/document.rs:79-101 | the keys of the replacements are an order-preserving subsequence of the table's keys |
| Document.ExcludeTableSpec | src/manifest/document.rs:80-100 | each replacement expands an entry of the table, every string or inline-table entry has its replacement, and there are none exactly when no entry is a string or inline table |
| Document.ExcludeTableExact | src/manifest/document.rs:80-100 | with distinct keys, the replacements name exactly the string and inline-table entries, no key twice, each carrying the expansion of that key's item |
| Manifest.KindsDistinct | src/manifest/mod.rs:54 | the three dependency kinds are distinct and none of them is `target` |
| Manifest.InsertAllExclude | src/manifest/mod.rs:64-67 | inserting the replacements one by one into the table they were computed from rewrites each entry in place: same keys, same order, each item replaced by its rewriting |
| Manifest.ConvertedTableShape | src/manifest/mod.rs:64-70 | a converted table holds no string or inline-table entry, is sorted by key, is implicit, keeps exactly its old keys (still distinct), and each key holds the rewriting of its old item |
| Manifest.ConvertedTableOfConverted | src/manifest/mod.rs:64-70 | a table with no string or inline-table entry, sorted and implicit, has no replacements and is its own conversion |
| Manifest.ConvertedTableIdempotent | src/manifest/mod.rs:64-70 | a converted table has no replacements left, and converting it again changes nothing |
| Manifest.ConvertedTableValid | src/manifest/mod.rs:64-70 | converting a well-formed table yields a well-formed table |
| Manifest.ConvertTable | src/manifest/mod.rs:64-70 | the insert loop, sort and flag step computes the converted table; `changed` is set exactly when the table had a replacement |
| Manifest.UpdateLocate | src/manifest/mod.rs:60-62 | writing back one dependency table makes that location hold it and leaves every other dependency location as it was |
| Manifest.UpdateSame | src/manifest/document.rs:64-73 | writing back the table just read leaves the document unchanged |
| Manifest.UpdateKeepsRest | src/manifest/document.rs:64-73 | writing back a dependency table keeps the root keys in order, the root flag, every root item other than the one it lies under, and the cfg list |
| Manifest.LocateValid | src/manifest/document.rs:64-73 | a dependency table found in a well-formed document is well-formed |
| Manifest.UpdateValid | src/manifest/document.rs:64-73 | writing a well-formed table back into a well-formed document keeps it well-formed |
| Manifest.StepValid | src/manifest/mod.rs:60-70 | converting one location keeps the document well-formed |
| Manifest.ConvertLocation | src/manifest/mod.rs:60-70 | one location: a missing or non-table location is skipped unchanged; otherwise its table is converted and written back, with `changed` set when it had a replacement |
| Manifest.TargetVisits | src/manifest/mod.rs:72 | one visit per cfg, in cfg order, each for the given kind |
| Manifest.VisitsCoverage | src/manifest/mod.rs:59-84 | the walk visits exactly the root location of each kind and the kind under each cfg, and with distinct cfgs none of them twice |
| Manifest.VisitsDistinct | src/manifest/mod.rs:57-84 | with distinct cfgs no location is visited twice, and every visit is at one of the three kinds |
| Manifest.VisitsOrder | src/manifest/mod.rs:59-84 | kind-major order: for each kind in the fixed order, the root table first, then that kind under each cfg |
| Manifest.WalkLocate | src/manifest/mod.rs:59-84 | after the walk, each visited dependency location holds the conversion of its old table (or still nothing); unvisited ones are unchanged |
| Manifest.WalkFlag | src/manifest/mod.rs:66 | the walk's flag is true exactly when some visited table had a replacement |
| Manifest.StepKeepsOthers | src/manifest/mod.rs:60-70 | converting one location leaves every other dependency location as it was |
| Manifest.StepSameOutside | src/manifest/mod.rs:60-70 | converting one location changes nothing outside the dependency tables (`SameOutsideDependencies`): at the root, in `target` and in every `target.<cfg>`, the keys keep their order, the flag is kept, and every item that is not a dependency table keeps its exact value |
| Manifest.WalkKeepsRest | src/manifest/mod.rs:59-84 | the walk changes nothing outside the dependency tables, in the sense of `SameOutsideDependencies`, and keeps the cfg list |
| Manifest.WalkKeepsRoots | src/manifest/mod.rs:60-62 | a walk keeps which root dependency tables exist, so the `continue` test gives the same answer before and after converting earlier kinds |
| Manifest.WalkValid | src/manifest/mod.rs:59-84 | the walk keeps a well-formed document well-formed |
| Manifest.WalkFixpoint | src/manifest/mod.rs:59-84 | a walk over tables that are all converted already changes nothing and reports nothing |
| Manifest.WalkCons | src/manifest/mod.rs:59-84 | a walk is its first step followed by the walk over the rest, with the flags or-ed |
| Manifest.ResumesCons | src/manifest/mod.rs:59-84 | taking one step of a walk that ends in a given outcome leaves a walk that ends in the same outcome |
| Manifest.ConvertDocument | src/manifest/mod.rs:56-86 | convert with the correction described under Findings: the walk over every dependency location in kind-major order, with the cfgs read once before anything changes; a well-formed document stays well-formed |
| Manifest.ConvertCoverage | src/manifest/mod.rs:56-86 | the corrected conversion: every dependency table, at the root or under any `target.<cfg>`, is converted exactly once; a missing or non-table location stays missing |
| Manifest.ConvertNormalizes | src/manifest/mod.rs:56-86 | the corrected conversion: afterwards every located table holds no string or inline-table entry, is sorted, is implicit and holds the same keys as before; a location is a table afterwards exactly when it was before |
| Manifest.ConvertFlag | src/manifest/mod.rs:64-67 | the corrected conversion: it reports an update exactly when some dependency table had a string or inline-table entry |
| Manifest.ConvertIdempotent | src/manifest/mod.rs:56-86 | the corrected conversion: converting a converted document changes nothing and reports no update |
| Manifest.ConvertKeepsRest | src/manifest/mod.rs:56-86 | the corrected conversion: outside the dependency tables nothing changes. At the root, in `target` and in every `target.<cfg>`, the keys keep their order and the `implicit` flag is kept. Every item that is not a dependency table keeps its exact value: other root keys, a missing or non-table kind, a non-table `target` or `target.<cfg>`, and the other keys of a cfg table. The cfg list is kept |
| Manifest.WalkAppend | src/manifest/mod.rs:59-84 | walking two lists of locations one after the other is walking their concatenation |
| Manifest.WalkKeepsPresence | src/manifest/mod.rs:59-84 | a dependency table present before a walk is present after it |
| Manifest.ConvertDocumentAsWritten | src/manifest/mod.rs:56-86 | convert as the loop is written: kind by kind, the root table then the kind under each cfg, with the `continue` skipping the whole kind when its root table is missing; a well-formed document stays well-formed |
| Manifest.WalkKindsAsWrittenAgrees | src/manifest/mod.rs:59-84 | when every kind has its root table, the loop as written visits the same locations as the corrected walk |
| Manifest.AsWrittenAgreesWhenRootsPresent | src/manifest/mod.rs:59-62 | with all three root dependency tables present, the loop as written and the corrected conversion give the same result |
| Manifest.AsWrittenVisitsCount | src/manifest/mod.rs:59-84 | the loop as written visits the root location and the per-cfg locations of exactly those kinds whose root table exists, each once per occurrence of its cfg |
| Manifest.WalkKindsAsWrittenIsWalk | src/manifest/mod.rs:59-84 | the kind loop as written is the walk over the locations of the kinds whose root table exists in the document it starts from |
| Manifest.AsWrittenVisitsFacts | src/manifest/mod.rs:59-84 | in a well-formed document the loop as written visits no location twice, only dependency locations, and exactly the root and per-cfg locations of the kinds whose root table exists |
| Manifest.AsWrittenCoverage | src/manifest/mod.rs:56-86 | for every input, the loop as written converts each dependency location exactly once when the root table of its kind exists, and otherwise leaves it exactly as it was, a present `target.<cfg>.<kind>` table included |
| Manifest.AsWrittenFlag | src/manifest/mod.rs:56-86 | for every input, the loop as written reports an update exactly when some dependency table whose kind has a root table had a string or inline-table entry |
| Manifest.AsWrittenKeepsRest | src/manifest/mod.rs:56-86 | the loop as written changes nothing outside the dependency tables, in the sense of `SameOutsideDependencies`, and keeps the cfg list |
| Manifest.AsWrittenIdempotent | src/manifest/mod.rs:56-86 | running the loop as written on its own output changes nothing and reports no update |
| Manifest.TargetOnlyManifestValid | src/manifest/mod.rs:59-62 | the counterexample manifest is well-formed |
| Manifest.AsWrittenSkipsTargetTables | src/manifest/mod.rs:59-62 | on a manifest whose only dependencies are under `target."cfg(unix)"`, the loop as written converts nothing and reports nothing, while the corrected conversion expands `libc = "0.2"` and reports the update |
| Manifest.Manifest.constructor | src/manifest/mod.rs:42-46 | a new manifest holds its path and document and has converted nothing |
| Manifest.Manifest.Build | src/manifest/mod.rs:35-47 | a parse failure becomes an error naming the path; otherwise a fresh, well-formed manifest with `converted` false |
| Manifest.Manifest.Convert | src/manifest/mod.rs:56-86 | the nested loops leave the document equal to the conversion of the old one; `converted` becomes the old flag or-ed with whether anything was replaced, and is never reset; the document stays well-formed |
| Manifest.Manifest.ConvertTargets | src/manifest/mod.rs:72-84 | the inner loop over the cfgs leaves the document as the walk over that kind's `target.<cfg>.<kind>` locations, in cfg order, and sets `converted` when that walk had a replacement, never resetting it |
| Metadata.FilterByName | src/metadata.rs:40-51 | an order-preserving subsequence of the packages; a package whose name is kept occurs as often as in the input, every other one not at all |
| Metadata.FilterByNameMembers | src/metadata.rs:43-50 | a package is in the result exactly when it is in the input and its name's membership in the list matches the filter |
| Metadata.GetPackages | src/metadata.rs:32-52 | no workspace flag and no package names: the default packages; the workspace flag, whatever the package names: every workspace package not excluded, in workspace order and as often as it occurs there; otherwise: every workspace package named in the list, in workspace order and as often as it occurs there, unknown names ignored |

## Left out

- The command line and its I/O in `src/cli.rs` and `src/main.rs` are not modelled: option parsing, the option constraints, file reads, the "Updated"/"no updates" report and the dry-run choice.
- `print` and `write` (src/manifest/mod.rs:88-98) are not modelled. They only serialise the document to standard output or to the file.
- Parsing and serialisation belong to the TOML library and are not modelled. `Build` takes the parser as a function parameter that may fail. Comments, whitespace and byte-identical re-emission are outside the model.
- The error of `Build` is `ParseFailed(path, cause)`. The exact message text is not modelled.
- `Metadata::build` runs the `cargo metadata` subprocess and is not modelled. The workspace packages and the default packages are inputs to `GetPackages`.
- Library behaviour of the TOML tables is modelled as follows:
  - `insert` on an existing key replaces its item in place; on a new key it appends.
  - `sort_values` is ascending order by key, compared character by character.
  - `implicit` is a boolean field.
  - A table made by `Table::new` or by `into_table` is not implicit.
- The value `insert` returns (the old item) is discarded by the source and is not modelled.
- Values other than strings and inline tables (numbers, booleans, dates, arrays) are one opaque `OtherValue`. The conversion never looks inside them.
- The library's empty placeholder item (`Item::None`) is not modelled. Iterating a table never yields it.
- The mutable table handles returned by the locators are modelled as a read followed by a write-back (`Locate` then `Update`).
- `src/manifest.rs` is not modelled separately. It is the same algorithm as `src/manifest/mod.rs`, written directly over the TOML library.
- Manifest.Manifest.Convert: models the loop with the correction described under Findings. It visits a kind's target tables even when that kind's root table is missing. The loop as written is `ConvertDocumentAsWritten`.

## Findings

| source | as written | input that shows it | evidently intended | confidence | as-written member | corrected member |
|---|---|---|---|---|---|---|
| src/manifest/mod.rs:60-62 | when the root table of a kind is missing (or is not a full table), `continue` skips the rest of the kind loop, including the loop over `target.<cfg>.<kind>` (the same in src/manifest.rs:48-54); modelled by `ConvertDocumentAsWritten`, whose effect on every input is `AsWrittenCoverage` and `AsWrittenFlag` | a manifest with `[target."cfg(unix)".dependencies]` holding `libc = "0.2"` and no root `[dependencies]`: nothing is converted and no update is reported | every `target.<cfg>.<kind>` table is converted whether or not the root table of that kind exists, as target-specific dependencies are declared independently of the root ones; modelled by `ConvertDocument` and `Manifest.Convert`, with `ConvertCoverage` and `ConvertFlag` | not executed | Manifest.AsWrittenSkipsTargetTables | Manifest.ConvertCoverage |
