# yii2-migration updater, modelled in Dafny

`Updater` decides whether a database table needs a new migration. It reads
the applied migrations (`fetchHistory`; with migration namespaces configured
the source sorts them in the order described under "## Findings", and the
model's corrected history is newest first), walks back through them
collecting what each did to the table until it reaches the table's creation
(`analyseChanges` inside `isUpdateRequired`), replays the collected calls
oldest first into a structure of columns, primary key, foreign keys and unique
indexes (`formatStructure`), and compares that structure with the table's
current one (`compareStructures`). The differences are recorded as
modifications grouped by the migration method that will apply them, and
`prepareUpdates` lists them in that grouping. Column definitions carrying a
primary-key clause are recognised per database dialect by
`checkPrimaryKeyString`.

Modules:

- `Wrappers`, `Seqs` and `Ascii` hold the option type, sequence reversal and
  PHP's ASCII character functions.
- `Sorting` models `usort` as a stable insertion sort.
- `Assoc` models PHP's ordered arrays as lists of key/value pairs. Assigning
  an existing key keeps its position, and reading takes the first entry with
  the key.
- `Schema` and `Ops` hold the table structure and the recorded migration
  calls.
- `Walk`, `Fold`, `Diff`, `Modifications`, `History`, `PrimaryKey` and
  `Updater` follow the methods of `src/Updater.php`.

PHP's loose `!=` on property values is the parameter `eq`. Only its
reflexivity is assumed where a lemma needs it. Loading a migration file and
recording its `up()` calls is the parameter `extract`, and the rows of the
migration table are an input.

## Model

| member | source | states |
|---|---|---|
| Walk.AnalyseChanges | src/Updater.php:139-159 | the walk only appends entries: never a drop or a rename, and a create only as the last entry; when it asks for more history it appended no create |
| Walk.Scan | src/Updater.php:144-158 | scanning the subject's entries newest first only appends entries: never a drop or a rename, and a create only as the last one; when it asks for older migrations it appended no create |
| Walk.AnalyseChangesOutcome | src/Updater.php:139-159 | a migration that did not touch the subject asks for more; a rename back to an already scanned name does not terminate; otherwise the result is that of scanning the subject's entries from the newest |
| Walk.ScanMatchesOutcome | src/Updater.php:144-158 | scanning the entries newest first stops at the newest drop (collecting nothing further), follows the newest rename, or collects up to and including the newest create, everything newer being collected in reverse order |
| Walk.LastBoundary | src/Updater.php:145-156 | finds the newest drop, rename or create among the entries not yet scanned, with none newer |
| Walk.WalkHistory | src/Updater.php:372-376 | reading the history keeps the guarantees of each step: only collectable entries are appended, and a walk that reads everything appended no create |
| Walk.WalkHistoryConcat | src/Updater.php:372-376 | the loop stops at the first migration whose analysis returns false: older migrations are read only when the newer ones asked for more |
| Fold.FormatStructure | src/Updater.php:182-246 | replaying well-formed entries yields a structure whose arrays hold each key once |
| Fold.Apply | src/Updater.php:189-245 | one `switch` case changes only the part of the structure its method belongs to; `addPrimaryKey` sets the primary key to its columns and `dropPrimaryKey` empties it |
| Fold.NewestAppliedLast | src/Updater.php:184-189 | the collected list is newest first and is replayed oldest first: the newest entry is applied last |
| Fold.PutColumnsGet | src/Updater.php:191-196 | `createTable` and `addColumn` assign every given column, overwriting an existing one and leaving the others |
| Fold.PutColumnsSound | src/Updater.php:191-196 | assigning columns keeps column names and property names unique |
| Fold.MissingTargetIsNoOp | src/Updater.php:197-243 | dropping, renaming, altering or commenting a column that is not there, or dropping a missing foreign key or index, changes nothing |
| Fold.AlterSupersedesCreate | src/Updater.php:208-212 | an `alterColumn` after the create replaces the column's properties wholesale |
| Fold.ApplySound | src/Updater.php:189-245 | every entry kind keeps the structure's keys unique |
| Fold.FoldSound | src/Updater.php:189-245 | replaying any list of well-formed entries keeps the keys unique |
| Fold.RenameColumnContent | src/Updater.php:202-207 | renaming moves the old column's properties to the new name and removes the old name; renaming to itself removes the column |
| Fold.CommentContent | src/Updater.php:235-243 | commenting sets the `comment` property of that column and nothing else |
| Fold.ApplyMatchesContent | src/Updater.php:189-245 | each entry acts on the structure's contents as the map-level reference step does: assign, unset, move, replace the primary key |
| Fold.FoldMatchesContent | src/Updater.php:189-245 | the whole replay agrees with the map-level reference replay |
| Fold.FormatStructureContent | src/Updater.php:182-246 | the folded structure's contents are those of the reference replay of the reversed collected list from empty maps |
| Diff.NeedsAlterSome | src/Updater.php:292-311 | a present column is altered exactly when some desired property is non-null and not set in the folded column, or reads loosely unequal to it |
| Diff.NoAlterAgainstItself | src/Updater.php:292-311 | with a reflexive loose equality, a column's properties never require altering against themselves |
| Diff.ColumnPass | src/Updater.php:283-312 | the first loop records at most one entry per desired column, each an `addColumn` or `alterColumn` of a desired column |
| Diff.ColumnPassMembers | src/Updater.php:283-312 | the first loop records an `addColumn` for a desired column the folded structure lacks and an `alterColumn` for one that differs, and nothing else |
| Diff.AddColumnRecorded | src/Updater.php:283-291 | `addColumn(c, p)` is recorded exactly when `c` is desired with properties `p` and missing from the folded structure |
| Diff.AlterColumnRecorded | src/Updater.php:292-311 | `alterColumn(c, p)` is recorded exactly when `c` is desired with `p`, present in the folded structure, and some property differs |
| Diff.DropColumnRecorded | src/Updater.php:313-321 | `dropColumn(c)` is recorded exactly when the folded structure has `c` and the desired one does not |
| Diff.AddForeignKeyRecorded | src/Updater.php:322-331 | `addForeignKey` is recorded exactly for a desired foreign key whose name the folded structure lacks |
| Diff.DropForeignKeyRecorded | src/Updater.php:332-340 | `dropForeignKey` is recorded exactly for a folded foreign key whose name is not desired |
| Diff.CreateIndexRecorded | src/Updater.php:341-350 | `createIndex` is recorded exactly for a desired unique index whose name the folded structure lacks |
| Diff.DropIndexRecorded | src/Updater.php:351-359 | `dropIndex` is recorded exactly for a folded unique index whose name is not desired |
| Diff.ComparedByName | src/Updater.php:322-359 | a foreign key or index present under the same name on both sides is never added or dropped, whatever its definition |
| Diff.PrimaryKeyIgnored | src/Updater.php:273-361 | the primary key of either structure does not affect the comparison |
| Diff.DiffUnique | src/Updater.php:283-359 | no (method, key) pair is recorded twice, so keyed and appended buckets hold the same entries |
| Diff.DiffOfItself | src/Updater.php:273-361 | a well-formed structure compared with itself records nothing |
| Diff.Diff | src/Updater.php:283-359 | the recorded entries come loop by loop: desired columns, surplus columns, desired foreign keys, surplus foreign keys, desired indexes, surplus indexes |
| Diff.CompareStructures | src/Updater.php:273-361 | with nothing collected the answer is "different" with nothing recorded; otherwise "different" holds exactly when something is emitted, and the recorded entries are a permutation of the differences found |
| Diff.CompareStructuresEmits | src/Updater.php:573-654 | the emitted list takes methods in the order they were first recorded, and under each method its entries in recording order |
| Diff.AlterCanPrecedeAdd | src/Updater.php:577-607 | methods are not emitted in a fixed order: an alteration of the first desired column is emitted before the addition of a later one |
| Modifications.RecordGet | src/Updater.php:288-356 | each method's bucket holds exactly that method's entries, in recording order |
| Modifications.Record | src/Updater.php:288-356 | recording keeps each method under one key of `_modifications` |
| Modifications.RecordKeys | src/Updater.php:577-652 | the methods are visited in the order of their first recording |
| Modifications.PrepareUpdatesGrouped | src/Updater.php:573-654 | the emitted (method, key) list is the recorded entries grouped by method in first-recorded order |
| Modifications.PrepareUpdates | src/Updater.php:573-654 | one (method, key) pair is emitted per recorded entry, and every recorded entry has its pair |
| Modifications.RecordPermutation | src/Updater.php:577-652 | grouping loses and invents nothing: the emitted entries are a permutation of the recorded ones |
| History.CanonicalVersion | src/Updater.php:109-113 | the canonical version is the twelve digits of the regex group at its leftmost match, without the `_`, or the version itself when nothing matches |
| History.OldStyleVersion | src/Updater.php:109-111 | `m<6 digits>_<6 digits><rest>` reduces to the twelve digits when the rest is empty or starts with a non-digit |
| History.NamespacedVersion | src/Updater.php:109-111 | `M<12 digits><rest>` reduces to the same twelve digits |
| History.SameCanonicalVersion | src/Updater.php:109-111 | a migration keeps its canonical version when it moves from the old naming to a namespaced class name |
| History.LongRunVersion | src/Updater.php:109-111 | a thirteen-digit run matches at its last twelve digits, since nothing anchors the group to the start |
| History.PlainNameVersion | src/Updater.php:109-113 | a version with no six digits in a row cannot match the pattern, so it is its own canonical version |
| History.CaseCmpFlip | src/Updater.php:120-123 | `strcasecmp` changes sign when its arguments swap |
| History.CaseCmp | src/Updater.php:120-123 | `strcasecmp` answers -1, 0 or 1, and 0 exactly when the two strings have the same length and agree character by character ignoring ASCII case |
| History.CaseCmpTransitive | src/Updater.php:120-123 | "not above" under `strcasecmp` is transitive |
| History.ComparatorsValid | src/Updater.php:119-126 | the callback as written and the newest-first callback are both valid comparators for `usort` |
| History.CompareAsWritten | src/Updater.php:119-126 | the callback as written puts the later apply time above; on different apply times it is the opposite of the newest-first callback, and on equal ones it is the same |
| History.Annotate | src/Updater.php:104-116 | the namespaced loop keeps every row but the base migration, each with its canonical version |
| History.MapVersionsDistinct | src/Updater.php:129 | with no repeated version, mapping the rows to version and apply time keeps every row in order |
| History.MapVersions | src/Updater.php:129 | mapping rows to version and apply time keeps each version once, exactly the versions of the rows, each with the apply time of its last row |
| History.SortedHistory | src/Updater.php:102-129 | the namespaced history is the non-base rows sorted by the callback |
| History.FetchHistoryNewestFirst | src/Updater.php:81-129 | with the intended callback the history is every non-base row, apply time descending, then canonical version descending, then version descending |
| History.FetchHistoryAsWrittenOldestFirst | src/Updater.php:119-129 | with the callback as written the same rows come out with apply times ascending |
| History.FetchHistoryPlain | src/Updater.php:95-99 | without namespaces the history is the rows in query order with the base migration removed |
| History.FetchHistoryWith | src/Updater.php:85-130 | with no migration table the history is empty; otherwise it holds each version once, never the base migration, and only versions of the table's rows |
| History.FetchHistoryAsWritten | src/Updater.php:85-130 | the same guarantees for the history with the callback as written |
| History.FetchHistory | src/Updater.php:85-130 | the same guarantees for the history with the newest-first callback |
| History.AsWrittenExample | src/Updater.php:119-129 | a table created at time 100 and altered at time 200 lists the creation first as written, last as intended |
| Sorting.SortBy | src/Updater.php:119 | `usort` returns a permutation of its input |
| Sorting.SortSorted | src/Updater.php:119 | under a valid comparator the result is sorted |
| PrimaryKey.ContainsCI | src/Updater.php:526 | `stripos` finds the needle exactly when some position starts it, ignoring ASCII case |
| PrimaryKey.ContainsUpper | src/Updater.php:526-527 | upper-casing the text first does not change what `stripos` finds |
| PrimaryKey.RemoveAll | src/Updater.php:527 | `str_replace` with an empty replacement never lengthens the text, introduces no character, and changes it exactly when the needle occurs |
| PrimaryKey.RemoveAllFirst | src/Updater.php:527 | `str_replace` keeps the text before the first occurrence as it is, cuts that occurrence and carries on after it; with the no-occurrence case of `RemoveAll` this fixes the result for every input |
| PrimaryKey.CollapseSpaces | src/Updater.php:553 | after the whitespace replacement the only whitespace is single spaces, and the text starts with whitespace exactly when the input did |
| PrimaryKey.CollapseRun | src/Updater.php:553 | a whole run of whitespace between two texts becomes exactly one space, each side being replaced on its own; with `CollapseFixpoint` this fixes the result for every input |
| PrimaryKey.CollapseVisible | src/Updater.php:553 | the whitespace replacement keeps every other character, in order |
| PrimaryKey.CollapseFixpoint | src/Updater.php:553 | the replacement leaves a text unchanged exactly when its only whitespace is single spaces |
| PrimaryKey.CollapseIdempotent | src/Updater.php:553 | replacing twice is replacing once |
| PrimaryKey.CheckPrimaryKeyString | src/Updater.php:520-557 | the result is `null` exactly when a dialect keyword (IDENTITY and PRIMARY KEY for MSSQL, PRIMARY KEY otherwise) is missing, ignoring case; otherwise it is `true` exactly when the cleaned fragment is falsy (`""` or `"0"`), and else it is that cleaned fragment |
| PrimaryKey.CheckIgnoresCase | src/Updater.php:520-557 | the check gives the same answer for a fragment and its upper-cased form |
| PrimaryKey.Cleaned | src/Updater.php:527-553 | the cleaned fragment has only single spaces as whitespace and no lower-case letter, and its visible characters are those of the upper-cased fragment with the dialect keywords cut, in order |
| Updater.UpdateRequired | src/Updater.php:368-382 | an empty history requires an update with nothing recorded; "not different" comes only with nothing recorded |
| Updater.IsUpdateRequiredAsWritten | src/Updater.php:367-382 | with no migration table an update is required and nothing is recorded; "not different" needs the table and comes with nothing recorded |
| Updater.IsUpdateRequired | src/Updater.php:367-382 | the same guarantees with the history newest first |
| Updater.OlderMigrationsIgnored | src/Updater.php:372-376 | once the newer migrations reach the table's creation or drop, older migrations do not affect the answer |
| Updater.NoUpdateWhenNewestFirst | src/Updater.php:368-382 | reading the history newest first, a table created and later given a column matches a desired structure with both columns: no update |
| Updater.SpuriousUpdateAsWritten | src/Updater.php:119-129 | reading the history in the source's order, the same table is reported to need `addColumn` of the column it already has |

## Left out

- Database access in `fetchHistory`: the table-existence check, the query and its `ORDER BY` (src/Updater.php:87-93) are I/O. Whether the table exists and the rows, in query order, are inputs.
- `extract` (src/Updater.php:166-175) loads migration files and runs their `up()` against a recording stub. It is the function parameter `extract`.
- `setDummyMigrationClass` and `restoreMigrationClass` (src/Updater.php:65-77) mutate the global class map. They have no effect on the model's results.
- The `showOnly` echo output and `displayValue` are console diagnostics.
- `renderColumnStructure`, `renderSizeStructure`, `generateMigration` and the argument strings of `prepareUpdates` generate PHP source text. They depend on the parent `Generator` class, which is not part of this model. `prepareUpdates` is modelled as its (method, key) list.
- The desired structure comes from the parent class and is an input record.
- PHP's loose `!=` on property values is the parameter `eq`. Its coercions between strings, numbers, booleans and null are not modelled.
- Reading a property the folded column does not have (src/Updater.php:301, reached when the desired value is null) reads null in the model. Under an error handler that turns warnings into exceptions, PHP would throw there instead.
- `(int)` on `apply_time` (src/Updater.php:115): apply times are integers in the model. A non-numeric value is not represented.
- PHP turns numeric-string array keys into integers. Versions, column names, foreign key names and index names are plain strings here.
- Diff.CompareStructures: the buckets `addColumn`, `addForeignKey` and `createIndex` are keyed by name in PHP, while the model appends to them. Diff.DiffUnique shows no (method, key) pair is recorded twice, so the two agree.
- History.CaseCmp: `strcasecmp` compares bytes, while the model compares characters with ASCII case folding. The two agree on ASCII text.
- Sorting.SortBy: stable insertion sort, matching `usort` since PHP 8.0. Older PHP versions may order equal elements differently. Only rows with the same apply time, canonical version and version (case-insensitively) compare equal.
- History.FetchHistoryNewestFirst: requires distinct versions, which the migration table's primary key guarantees. With repeated versions `ArrayHelper::map` would merge rows.
- PrimaryKey.CheckPrimaryKeyString: does not promise the keywords are absent from the result. Cutting one occurrence can join the text around it into a new one.
- Updater.UpdateRequired: its own contract states only the empty-history answer and the link between "different" and what was recorded. The walk, fold and comparison it composes are stated by the members above, and its behaviour end to end by Updater.NoUpdateWhenNewestFirst and Updater.SpuriousUpdateAsWritten.
- Non-termination of `analyseChanges` on a rename cycle within one migration is the result None, not a hang.

## Findings

| source | as written | input that shows it | evidently intended | confidence | as-written member | corrected member |
|---|---|---|---|---|---|---|
| src/Updater.php:126 | the `usort` callback returns 1 when `$a` has the later apply time, so the namespaced history comes out oldest first. Its tie-breaks (lines 120-123) are descending, the method's comment (line 82) promises newest first, and the other branch orders `apply_time` descending (line 93). | with migration namespaces configured, rows (`altered`, 200) and (`created`, 100), where `created` creates the table with column `id` and `altered` adds `name`. The history is [`created`, `altered`], the walk stops at the creation, and an `addColumn` of `name` is reported for a table that already has it. | `? -1 : 1`, newest first, as in `MigrateController::getMigrationHistory()`, which line 81 says this method adapts | not executed; high | History.FetchHistoryAsWrittenOldestFirst, Updater.SpuriousUpdateAsWritten | History.FetchHistoryNewestFirst, Updater.NoUpdateWhenNewestFirst |
