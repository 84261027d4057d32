# Flat-file document store, edit locks and process index — a Dafny model

The modelled system is the back end of a small PHP case-management site. It
keeps its data as flat files under a data directory:

- `.json` files hold a list of documents. A document is an ordered map of
  field name to string.
- `.xls` files are SpreadsheetML "XML spreadsheet 2003" tables. The first
  row holds the headers and every later row becomes a document keyed by
  header.

The `Database` class reads and rewrites whole files. Its operations:

- `find`/`findMany`/`findReverse`, `insert`, `update`, `deleteMany`,
  `addColumn`, `removeDuplicates`, `getUniqueValues` and `select`. `select`
  applies AND-ed filters, a sort whose blank values always go last, and
  pagination.
- Two merge-on-import paths:
  - `importProcessData` groups incoming process rows by (year, month). It
    merges each group into that period's shard `Processos/<year>/<month>.json`,
    keyed by `Numero_Portabilidade`, and never lets a blank incoming value
    overwrite a stored one.
  - `importExcelData` upserts into a `.json` file (case-insensitive merge)
    or a `.xls` file (case-sensitive `array_merge`).

Field names are matched case-insensitively through `get_value_ci`,
`getCaseInsensitiveKey` and `mergeCaseInsensitive`.

Beside the store sit:

- `LockManager`, the edit lock of a process in `locks.json`. It handles
  expiry after an hour, one lock per user, and online/away status.
- A second, weaker lock protocol in the dashboard's AJAX handlers, with the
  monitor that prunes and ranks the locks.
- `ProcessIndexer`, a lazily loaded, write-through map from process number
  to shard. It is rebuilt last-shard-wins.
- `ExcelParser::colToIndex` and the sparse-to-dense row fill of the `.xlsx`
  reader.
- `Config::reorderFields` and the field dedupe of `Config::getFields`.

How the model represents this:

- Files are values in two maps held by the `Database` class: path to
  documents for `.json`, and path to rows of cells for `.xls`. A read takes
  the whole value and a write replaces it.
- A PHP array is an ordered sequence of key/value pairs (`OrderedMaps`).
  `$a[$k] = $v` overwrites in place or appends, and `unset` removes.
- Objects whose fields the PHP code updates are Dafny classes with
  `modifies` clauses: `Database`, `LockManager` and `ProcessIndexer`.
- Loops that update variables are methods with loop invariants. Each one is
  proved against a function that states what the loop computes, and the
  source's promises are proved as lemmas about those functions.
- The clock, the date parser, the directory listing and the display
  formatting are parameters.

Modules, one per file:

| Module | Models |
|---|---|
| `Wrappers` | `Option` |
| `OrderedMaps` | PHP arrays |
| `Text` | `trim`, `mb_strtoupper`, `strtolower`, `strpos`/`stripos`, `strcmp` order, PHP truthiness |
| `Sorting` | a stable insertion sort standing for `usort`/`ksort` |
| `Documents` | case-insensitive lookups and merge |
| `ExcelCodec` | column references and the `.xlsx`/`.xls` row mapping |
| `Store` | per-file row logic of the `Database` operations |
| `Importer` | the keyed upsert of the three import branches |
| `ProcessImport` | grouping by period and the shard writes |
| `Query` | `select`'s filters, comparator and pagination |
| `DataFiles` | the `Database` class |
| `Locks` | `LockManager` |
| `Dashboard` | the AJAX lock handlers and the monitor |
| `Indexer` | `ProcessIndexer` |
| `FieldConfig` | `getFields` dedupe and `reorderFields` |

## Model

| member | source | states |
|---|---|---|
| Text.Trim | classes.php:306 | `trim` leaves no trim character at either end, and gives "" exactly when every character is one of " \t\n\r\0\x0B" |
| Text.TrimLeft | classes.php:306 | the result is a suffix of the input, and what it cut off is all trim characters |
| Text.TrimRight | classes.php:306 | the result is a prefix of the input, and what it cut off is all trim characters |
| Text.UpperIdempotent | classes.php:1929 | an `mb_strtoupper` result has no ASCII lower-case letter left, and upper-casing it again changes nothing |
| Text.Lower | classes.php:1502 | a `strtolower` result has no ASCII upper-case letter left, every other character is kept, and the length is kept |
| Text.LowerSameFieldName | classes.php:1502 | two keys that `strtolower` makes equal are the same field name up to case, so the lower-cased field map never joins different fields |
| Text.OccursAt | classes.php:98 | `strpos(...) !== false` holds exactly when the needle matches at some position |
| Text.LexLessIrreflexive | classes.php:477 | the `strcmp` order of `ksort` is irreflexive |
| Text.LexLessTotal | classes.php:477 | any two different strings are ordered one way or the other |
| Text.LexLessAsymmetric | classes.php:477 | two strings are never ordered both ways |
| Text.LexLessTransitive | classes.php:477 | the `strcmp` order is transitive |
| OrderedMaps.PutGet | classes.php:296 | after `$a[$k] = $v`, `$a[$k]` is `$v` |
| OrderedMaps.PutUnique | classes.php:296 | assigning into a PHP array keeps its keys distinct |
| OrderedMaps.PutKeysAppend | classes.php:282-283 | a new key is appended after the existing keys, in order of first assignment |
| OrderedMaps.AssignLastWins | classes.php:296 | a run of assignments leaves each key with the value assigned last |
| OrderedMaps.AssignKeys | classes.php:293-298 | a run of assignments has distinct keys, in order of first assignment |
| OrderedMaps.RemoveUnique | classes.php:1711 | `unset` keeps the keys distinct and removes exactly that key |
| Sorting.InsertBy | dashboard.php:148 | inserting keeps every element and adds exactly one |
| Sorting.SortBy | dashboard.php:148 | the sort's output is a permutation of its input |
| Sorting.SortBySorted | dashboard.php:148 | under a total preorder the sort's output is ordered by the comparator |
| Sorting.SortByDistinct | classes.php:477 | sorting entries with distinct keys keeps the keys distinct |
| Documents.CiIndex | classes.php:435-442 | the position of the first field equal to the name under upper-casing, with no earlier match; None exactly when no field matches |
| Documents.CiKey | classes.php:435-442 | `getCaseInsensitiveKey` returns a stored spelling that matches the name, and null exactly when no field matches |
| Documents.ValueOrEmpty | classes.php:474 | `$d[$name] ?? ''` is the stored value of the exact key, or "" when the key is absent |
| Documents.GetValueCISpec | classes.php:1925-1934 | `get_value_ci` returns the exact key's value when present; otherwise the value of the first field equal under upper-casing; otherwise "" |
| Documents.GetValueCIIgnoresCase | classes.php:1925-1934 | when no two fields collide under upper-casing, every spelling of a name reads the same value |
| Documents.MergeKeepsStored | classes.php:444-454 | `mergeCaseInsensitive` keeps the keys distinct; keeps every stored field in place under its stored spelling; leaves unchanged the fields the patch does not name; appends only patch fields that match no stored field |
| Documents.MergeOverwritesNamed | classes.php:444-454 | each stored field ends with the value of the last patch entry naming it up to case, or its own value if none does |
| Documents.MergeNamesEveryPatchField | classes.php:444-454 | after the merge every patch field name resolves case-insensitively |
| Documents.MergeAddsOnlyNew | classes.php:449-450 | an appended field comes from the patch and matches no stored field up to case |
| Documents.MergeAppendsLastValue | classes.php:444-454 | with no two stored fields equal up to case, a field the merge appends holds the value of the last patch entry naming it up to case |
| Documents.MergeSelf | classes.php:444-454 | merging a patch whose every entry is already stored (with stored names distinct up to case) leaves the document unchanged |
| Documents.NamedStaysNamed | classes.php:444-454 | a name that resolves before the merge still resolves after it |
| ExcelCodec.ColToIndex | classes.php:78-86 | the accumulator loop of `colToIndex` computes the bijective base-26 value of the reference minus one |
| ExcelCodec.ColumnNameRoundTrip | classes.php:78-86 | every zero-based index has a column reference that `colToIndex` reads back to it (A→0, Z→25, AA→26) |
| ExcelCodec.ColValueRoundTrip | classes.php:78-86 | every well-formed reference is the column name of its own index, so `colToIndex` is injective on references |
| ExcelCodec.StripCellRef | classes.php:35-37 | removing the digits of a cell reference such as "AB12" leaves its column letters |
| ExcelCodec.AssignCells | classes.php:34-58 | the cell loop assigns each cell's text to its column, the last cell of a column winning |
| ExcelCodec.DenseFill | classes.php:60-66 | the dense row runs from column 0 to the highest assigned column and holds each column's text or "" |
| ExcelCodec.ParseSheetRow | classes.php:31-69 | a parsed row is exactly as wide as its rightmost cell reaches and holds the last text placed in each column |
| ExcelCodec.MaxKey | classes.php:61 | `max(array_keys(...))` is a key of the array and no key exceeds it |
| ExcelCodec.PlaceCells | classes.php:182-196 | the running column index, reset by `ss:Index`, assigns each cell to a distinct column holding the last value written there |
| ExcelCodec.ReadHeaders | classes.php:198-199 | the header row maps each column to its trimmed cell text |
| ExcelCodec.MapRow | classes.php:200-208 | a data row maps each header to its column's text or "", and has data exactly when some header column is non-empty |
| ExcelCodec.ReadTable | classes.php:152-212 | `readExcelXML` on a parsed document: the first row gives the headers, later rows the documents, blank rows dropped |
| ExcelCodec.WriteGrid | classes.php:231-247 | `writeExcelXML` writes a header row and one row per document |
| ExcelCodec.TableRoundTrip | classes.php:152-266 | writing a table with distinct, trimmed headers and reading it back gives the headers by column and each non-blank document cut to the headers |
| ExcelCodec.TableRoundTripExact | classes.php:152-266 | documents keyed by exactly the headers, each with some value set, read back exactly as written |
| ExcelCodec.ProjectionReads | classes.php:241-242 | with distinct headers, a document cut to the headers reads every header as the document does (a missing field as ""), has no other key, and cutting it again changes nothing |
| ExcelCodec.WrittenDataRow | classes.php:239-247 | a written data row reads back as the document's projection on the headers |
| Store.GetPath | classes.php:96-102 | `getPath` is the data directory followed by the sanitised name |
| Store.SanitizedSpec | classes.php:98-100 | the sanitised name never contains "..", only dots were removed, and a name without ".." is unchanged |
| Store.RemoveDotDotSpec | classes.php:99 | one `str_replace` pass removes only dots and changes nothing when there is no ".." |
| Store.LookupsAgree | classes.php:855-861 | on a document with no field names colliding up to case, the key reads of `update`/`deleteMany` and of `find` (for a truthy column) agree with `get_value_ci` |
| Store.FindIsFirstMatch | classes.php:742-765 | `find` returns the first row whose key read equals the value, None when there is none |
| Store.FirstWhere | classes.php:742-744 | the first row satisfying the test, with no earlier row satisfying it; None exactly when no row does |
| Store.LastWhere | classes.php:529-538 | the last row satisfying the test, with no later row satisfying it; None exactly when no row does |
| Store.WhereMembers | classes.php:754-763 | a filter keeps exactly the rows that pass |
| Store.WherePartition | classes.php:969-980 | the rows that pass and the rows that fail make up the input, as a multiset |
| Store.FindReverseMissesCaseVariant | classes.php:532-534 | on a file with one row keyed "cpf", `findMany` by "CPF" finds it, the corrected `findReverse` finds it, and `findReverse` as written returns null |
| Store.InsertRowSpec | classes.php:817-827 | with distinct headers the inserted row (built by `InsertPairs`, one pair per header) has exactly the headers as keys, each holding the trimmed case-insensitive read of the data |
| Store.UpdateRows | classes.php:856-867 | the `foreach` by reference changes exactly the rows whose key read is the key value, keeps the others, and reports whether any matched |
| Store.UpdatedRows | classes.php:856-867 | the rows after `update` keep their number |
| Store.HeaderKey | classes.php:888-890 | the header `update` writes a patch field under: a header equal up to case; None exactly when no header matches |
| Store.PatchTableRowKeys | classes.php:887-891 | the `.xls` update never adds a field that is neither in the row nor a header |
| Store.DeleteRows | classes.php:969-981 | `deleteMany` keeps exactly the rows whose key read is not listed, counts the rest, and deletes something exactly when some key read is listed |
| Store.DeletedCount | classes.php:969-981 | dropped plus kept rows are all the rows, and some are dropped exactly when some key read is listed |
| Store.AddColumnRows | classes.php:1083-1087 | `addColumn` keeps the number of rows |
| Store.AddColumnRowsSpec | classes.php:1083-1087 | afterwards every row has the column up to case; a row that had it is unchanged; a row that lacked it gets the column appended with "" |
| Store.AddColumnHeaders | classes.php:1091-1100 | a `.xls` column is refused exactly when a header matches up to case, and is otherwise appended |
| Store.ValuedRows | classes.php:473-476 | the truthy exact values of the column, each paired with its row, and every truthy value of the file is among them |
| Store.KeyLeTotalPreorder | classes.php:477 | ordering entries by key under `strcmp` is a total preorder |
| Store.RemoveDuplicatesSpec | classes.php:470-478 | the kept rows' values strictly increase, so no two kept rows share one; each kept row is the last row holding its value; every truthy value of the file is kept |
| Store.NonBlankEntries | classes.php:1140 | each entry is a non-blank value of the file marked true |
| Store.DistinctNonBlankSpec | classes.php:1133-1142 | `getUniqueValues` returns distinct non-blank values of the trimmed key reads (`TrimmedReads`), each from the file, and every non-blank value of the file is among them |
| Store.MonthNameRoundTrip | classes.php:1196-1203 | months 1-12 are read back from their names; any other month gives "Janeiro" |
| Store.PeriodFileInjective | classes.php:1205-1208 | for years without '/', different periods get different shard files |
| Store.Segment | classes.php:1207 | the text before the first '/' is a prefix without '/' |
| Importer.IncomingKey | classes.php:301-302 | an incoming row is merged only under a truthy key; in the spreadsheet branch exactly when the exact key field is set and truthy |
| Importer.NonBlankFieldsSpec | classes.php:305-307 | the `array_filter` keeps exactly the fields whose value is not blank after `trim` |
| Importer.IncomingKeys | classes.php:300-316 | the keys of the incoming rows that have one, all truthy, at most one per row |
| Importer.BuildIndex | classes.php:292-298 | the loop builds the dictionary of stored rows by key |
| Importer.ImportRows | classes.php:300-318 | the merge loop yields the merged dictionary's rows; `inserted` is the number of new keys; `inserted + updated` is the number of keyed incoming rows |
| Importer.ImportStepSize | classes.php:302-314 | a keyed row adds an entry exactly when its key is new |
| Importer.ImportAllKeys | classes.php:300-316 | the dictionary keeps distinct keys: the stored keys, then each new incoming key in order of first appearance |
| Importer.ImportAllPerKey | classes.php:300-316 | keys do not interfere: the row under a key depends only on its stored row and the incoming rows with that key |
| Importer.Upsert | classes.php:303-314 | the stored row is unchanged when no incoming row has the key, and present when some does |
| Importer.ImportShard | classes.php:292-318 | the rewritten file has one row per distinct key: stored keys first (a duplicated stored key at its first place, with its last row), then new keys; each row is its key's upsert |
| Importer.ImportBatchTwice | classes.php:292-318 | for a batch whose rows have distinct truthy keys and field names distinct up to case: importing it into an empty file stores the batch, inserts every row and updates none; importing it again into that file inserts none, updates every row and leaves the stored rows unchanged (process and `.json` branches) |
| Importer.StoredPairsKeyed | classes.php:293-297 | every indexed stored row is a stored row that has a truthy key; keyless rows are not indexed |
| Importer.MergeKeepsOrPatches | classes.php:309 | the case-insensitive merge only ever writes patch values |
| Importer.BlankNeverOverwrites | classes.php:303-310 | in `importProcessData` a key hit never lets a blank incoming value replace a stored field or add a blank field |
| Importer.MergeIntoItself | classes.php:303-310 | a key hit of a row on itself changes nothing, in the process branch (whose filtered patch is part of the row) and in the `.json` branch |
| Importer.JsonImportOverwritesWithBlank | classes.php:353-355 | the JSON branch of `importExcelData` has no blank filter: a blank incoming STATUS replaces the stored "PAGO" (while the process branch's filter drops that STATUS, `SampleNonBlank`) |
| Importer.ProcessImportKeepsStoredValue | classes.php:303-310 | on the same stored record and incoming row, `importProcessData` keeps the stored record, since its blank filter drops the blank STATUS (`SampleNonBlank`) |
| Importer.TableMergeFields | classes.php:392 | `array_merge` keeps distinct keys; an incoming field overwrites, and other stored fields keep their values |
| Importer.TableMergeIsCaseSensitive | classes.php:392 | `array_merge` of "CPF" and "cpf" keeps both fields |
| Importer.TableFreshRow | classes.php:395-397 | an inserted spreadsheet row holds exactly the header fields, each with the row's value or "" |
| ProcessImport.InPeriod | classes.php:283 | the rows of one period, in input order |
| ProcessImport.GroupsKeys | classes.php:273-284 | the grouping has one group per period, in order of first appearance of the rows' periods (`Periods`) |
| ProcessImport.GroupsSpec | classes.php:273-284 | the group of a period holds exactly that period's rows, in input order, and a period without rows has no group |
| ProcessImport.GroupsKeepKeyedRows | classes.php:273-316 | grouping loses and duplicates no keyed row: the keyed rows of all groups are the keyed input rows |
| ProcessImport.ImportShardsSpec | classes.php:286-319 | when different periods go to different files, a file no group maps to is untouched, and the file of a group holds that group merged into the file's old rows |
| ProcessImport.ImportShardsUntouched | classes.php:286-319 | a file that no group maps to keeps its rows |
| ProcessImport.ImportShardsAt | classes.php:286-319 | the file of a group ends up as that group merged into its old rows |
| ProcessImport.ProcessImportShard | classes.php:268-322 | the shard of every period that has incoming rows ends up as its old rows merged with exactly those rows |
| DataFiles.AfterLastSpec | classes.php:105 | what follows the last occurrence of a character: None exactly when it does not occur; otherwise a suffix without it, right after it |
| DataFiles.ExtensionSuffix | classes.php:104-110 | a non-empty extension is the tail of the file name after a '.', and contains neither '.' nor '/' |
| DataFiles.TrimSlashes | classes.php:92-94 | `rtrim($dir, '/')` is a prefix ending in something other than '/', and removes only slashes |
| DataFiles.ConcatMembers | classes.php:583-650 | a row is collected exactly when some listed file contributes it |
| DataFiles.FileLinesMembers | classes.php:622-649 | a file contributes exactly its rows that pass every filter |
| DataFiles.CollectedSpec | classes.php:583-650 | `select` collects only rows that pass every filter, and every passing row of an existing listed file |
| DataFiles.ImportShardsStep | classes.php:286-319 | one turn of the period loop merges one group into its file and adds its keyed rows to the count |
| DataFiles.Database.constructor | classes.php:92-94 | the data directory is the given one with trailing slashes replaced by one '/' |
| DataFiles.Database.FindMany | classes.php:747-786 | no rows for a missing file or no values; for `.xls`, none unless some header matches the column up to case; otherwise the rows whose key read is listed |
| DataFiles.Database.Find | classes.php:742-745 | `find` is the first row of `findMany` for the one value |
| DataFiles.Database.FindReverse | classes.php:523-557 | `findReverse` with the fallback read it evidently intends: the last row whose key read equals the value |
| DataFiles.Database.GetUniqueValues | classes.php:1127-1164 | none for a missing file or an unmatched `.xls` column; otherwise the distinct non-blank trimmed key reads |
| DataFiles.Database.Select | classes.php:577-738 | `select` paginates the filtered rows of the listed files, sorted (or reversed) by the dispatch, against the first headers found; with `limit` 0 it returns no page, for the division by zero |
| DataFiles.Database.Insert | classes.php:806-828 | a `.json` file gets the document appended (the file is created if missing); a `.xls` file gets the header-cut, trimmed row appended; nothing else changes |
| DataFiles.Database.Update | classes.php:849-899 | succeeds exactly when the file exists and some row's key read is the key value; then the matching rows are merged (JSON) or patched onto the headers (XLS); otherwise nothing changes |
| DataFiles.Database.DeleteMany | classes.php:961-1011 | succeeds exactly when the file exists and some key read is listed; then exactly those rows are removed; otherwise nothing changes |
| DataFiles.Database.AddColumn | classes.php:1077-1101 | a `.json` file always gains the column in every row lacking it; a `.xls` file gains a header unless one matches up to case; a missing file fails |
| DataFiles.Database.RemoveDuplicates | classes.php:466-490 | an existing `.json` file is rewritten deduplicated; a `.xls` or missing file is refused and unchanged |
| DataFiles.Database.EnsurePeriodStructure | classes.php:1221-1234 | returns the period's shard name and creates it empty only if missing; stored rows are unchanged |
| DataFiles.Database.ImportPeriod | classes.php:286-319 | one period's rows are merged into its shard, and the counts add up to its keyed rows |
| DataFiles.Database.ImportProcessData | classes.php:268-322 | rows are grouped by period, a row's period being its parsed `DATA` date or the current period when that does not parse (`PeriodOf`); every group is merged into its period's shard, `inserted + updated` is the number of keyed incoming rows, and no spreadsheet changes |
| DataFiles.Database.ImportJsonFile | classes.php:337-365 | the `.json` upsert with the file's key column and the case-insensitive merge; the counts add up to the keyed rows |
| DataFiles.Database.ImportSheetFile | classes.php:367-404 | the `.xls` upsert on the stored headers, or the default header row for a file without any (`SheetBranch`, `ImportHeaders`), with `array_merge`; the counts add up to the keyed rows |
| DataFiles.Database.ImportExcelData | classes.php:324-405 | a missing process file goes to the period import; a `.json` or `.xls` file gets the keyed upsert on the column the file name picks (AG for "agenc", else CPF for "client", else PORTABILIDADE, `KeyColumnFor`); any other file is refused with nothing changed |
| Query.FieldFilterReadsValueCI | classes.php:638-642 | on a row without colliding field names, a field filter passes exactly when `get_value_ci` of the field equals the value |
| Query.GlobalFilterFindsValue | classes.php:627-635 | the global filter keeps a row exactly when one of its values contains the needle at some position, up to ASCII case |
| Query.Ordered | classes.php:707 | -1 exactly when the first sorts first in the chosen direction |
| Query.Compare | classes.php:656-727 | the comparator is in -1..1; a blank value (trimmed sort value empty, as `ViewOf` records it) sorts after a non-blank one in either direction; two blanks compare equal |
| Query.CompareAntisymmetric | classes.php:656-727 | swapping the arguments negates the comparison |
| Query.CompareTransitive | classes.php:656-727 | "sorts no later than" is transitive |
| Query.SortLeTotalPreorder | classes.php:656-727 | the comparator of the model, over an integer normalisation key, is a total preorder, so a stable sort by it is well defined; this holds in the source for columns whose values normalise to one kind (all numbers or all strings) |
| Query.BlanksLast | classes.php:662-668 | in rows sorted by the comparator, in either direction, every row after a blank one is blank |
| Query.ReversePermutes | classes.php:729-731 | `array_reverse` permutes the rows |
| Query.SortKey | classes.php:653-655 | a sort key exists only for a truthy `sortBy` and is then the first header equal to it up to case, as `getCaseInsensitiveKey` returns it, provided that header is truthy; when that first header is truthy the key exists, and when no matching header is truthy there is none |
| Query.Arrange | classes.php:652-731 | `select` returns a permutation of the filtered rows: sorted when the key is found, reversed when `sortBy` is falsy, untouched when `sortBy` matches no header |
| Query.Paginate | classes.php:733-737 | no page exactly when `limit` is 0, where `$total / $limit` throws `DivisionByZeroError`; otherwise the page reports the total and the requested page number |
| Query.ArraySlice | classes.php:735 | `array_slice` with a non-negative offset is the in-range window of at most the length, and empty past the end |
| Query.PaginateSpec | classes.php:733-737 | with page and limit at least 1: at most `limit` rows, the window from (page-1)*limit, empty past the end, and `ceil(total/limit)` pages (`Ceil`) cover the total tightly |
| Query.RowOnItsPage | classes.php:733-737 | every row is on the page its position says, at the place its position says |
| Locks.Purge | classes.php:1707-1726 | the clean-up keeps exactly the records that are not expired and not the user's |
| Locks.Saved | classes.php:1716-1721 | the entry time remembered comes from the user's live record on the process |
| Locks.Check | classes.php:1762-1806 | unlocked exactly when there is no record or it is older than 3600 s; otherwise it reports the holder, `locked` exactly when the holder is someone else, the idle time, and away exactly after 600 s |
| Locks.LockManager.AcquireLock | classes.php:1697-1757 | refused exactly when someone else's live record survives the clean-up, reporting that record with its `last_active ?? datetime` (`LastSeen`) and saving nothing; otherwise the cleaned file plus the user's fresh record, whose entry time is the saved one when truthy, else the current stamp (`EntryTime`) |
| Locks.LockManager.CheckLock | classes.php:1762-1806 | `checkLock` on the current file |
| Locks.LockManager.ReleaseLock | classes.php:1809-1815 | the record is removed only for its owner; otherwise nothing changes |
| Locks.AcquireLeavesOneLock | classes.php:1707-1754 | after a successful acquire the file has distinct keys, the process is the user's, the user holds no other record, and no expired record remains |
| Locks.OtherLiveLockBlocks | classes.php:1730-1740 | another user's live record on the process survives the clean-up, so the acquire is refused and reports it |
| Locks.RenewKeepsEntryTime | classes.php:1716-1721 | renewing one's own live lock is not refused and keeps its entry time |
| Locks.ExpiredOwnLockResets | classes.php:1710-1713 | one's own expired lock is purged before the user check, so its entry time is not kept |
| Locks.CheckAfterAcquire | classes.php:1746-1806 | right after an acquire, `checkLock` shows the holder online and unlocked for them, and locked for anyone else |
| Locks.ReleaseFrees | classes.php:1809-1815 | after a release the process reads unlocked, and every other record is still there |
| Locks.PurgeUnique | classes.php:1707-1726 | the clean-up keeps the keys distinct |
| Dashboard.DropOthers | dashboard.php:33-37 | the clean-up keeps exactly the records that are not the user's on another port |
| Dashboard.DropOthersKeepsPort | dashboard.php:33-37 | the clean-up never touches the requested port's record |
| Dashboard.AcquireHandler | dashboard.php:20-62 | no port fails; another user's heartbeat younger than 120 s fails, reporting that user, and writes nothing; otherwise the cleaned file with the user's record on the port is written |
| Dashboard.GrantedHoldsOnlyPort | dashboard.php:33-59 | after a granted acquire the file has distinct keys, the port is the user's, and the user holds no other port |
| Dashboard.SameUserKeepsEntry | dashboard.php:40-42 | the same user coming back is never refused and keeps the stored entry time (`EntryOf`) |
| Dashboard.StaleLockTakenOver | dashboard.php:45-59 | another user's heartbeat at least 120 s old is overwritten with a fresh entry time |
| Dashboard.ReleaseHandler | dashboard.php:66-78 | the file is rewritten exactly when the session user owns the port, and then loses only that record |
| Dashboard.StatusOf | dashboard.php:131-137 | Online at most 600 s idle, Ausente up to 3600 s, Offline beyond |
| Dashboard.Rank | dashboard.php:148 | the sort rank is 1 for Online and 3 for Offline |
| Dashboard.EditOf | dashboard.php:122-143 | a panel row has the port, the idle seconds, their status, the user or "Desconhecido", and as work time the seconds since the entry time: the stored `datetime` when present, else the current stamp, and the heartbeat when that entry time does not parse (the work time then equals the idle time) |
| Dashboard.EarlierEntryFirst | dashboard.php:122-148 | among records of the same status, the editor who entered earlier is listed first, and never the other way round |
| Dashboard.Pruned | dashboard.php:129-130 | a record is kept exactly when its idle time is under 7200 s |
| Dashboard.EditLeTotalPreorder | dashboard.php:148 | lower rank first, then longer work time first, is a total preorder |
| Dashboard.Monitor | dashboard.php:118-148 | the file is rewritten exactly when some record was pruned, and then holds the kept records; the panel rows are those of the kept records, sorted by the comparator, each under 7200 s idle |
| Dashboard.SortedEdits | dashboard.php:129-148 | the sorted panel rows are ordered by the comparator and all come from kept records |
| Indexer.ShardPairs | classes.php:1870-1875 | each assignment of a shard's rows is a truthy key of one of its rows, mapped to that shard |
| Indexer.LastHolder | classes.php:1866-1877 | the last listed shard holding the key; None exactly when no listed shard holds it |
| Indexer.RebuildLastShardWins | classes.php:1863-1881 | `rebuild` maps a truthy key to the last listed shard that holds it |
| Indexer.RebuildSkipsFalsy | classes.php:1872 | a falsy key is never indexed |
| Indexer.IndexAfterSet | classes.php:1849-1853 | after `set(id, f)`, `id` maps to `f` and every other key as before |
| Indexer.IndexAfterDelete | classes.php:1855-1861 | after `delete(id)`, `id` is absent and every other key as before |
| Indexer.ProcessIndexer.constructor | classes.php:1820-1827 | a new indexer is empty and not loaded |
| Indexer.ProcessIndexer.Load | classes.php:1829-1838 | lazy load: nothing changes once loaded; otherwise the stored index, or [] when there is none (`Loaded`), kept a proper PHP array |
| Indexer.ProcessIndexer.Get | classes.php:1844-1847 | `get` loads, then returns the shard of `id` or null |
| Indexer.ProcessIndexer.Set | classes.php:1849-1853 | `set` loads, records `id`, writes through, and `get(id)` then returns the shard |
| Indexer.ProcessIndexer.Delete | classes.php:1855-1861 | `delete` loads, removes `id` and writes through only if present; afterwards `get(id)` is null |
| Indexer.ProcessIndexer.IndexShard | classes.php:1870-1875 | the inner loop assigns the shard's truthy keys in order |
| Indexer.ProcessIndexer.Rebuild | classes.php:1863-1881 | `rebuild` leaves the last-shard-wins index, written through and loaded, and returns its size |
| Indexer.ProcessIndexer.EnsureIndex | classes.php:1883-1887 | rebuilds only when there is no index file |
| FieldConfig.ProcessFilesShareSchema | classes.php:1382-1386 | every process file gets the field list of `Processos`, which is the shared schema, else the legacy `Base_processosatual.txt` list, else none |
| FieldConfig.GetFieldsDedupe | classes.php:1388-1393 | `getFields` keeps one field per key up to case, in order of first appearance, holding the key's last definition |
| FieldConfig.FieldMapFiled | classes.php:1502 | every field map entry is filed under its own lower-cased key |
| FieldConfig.Mention | classes.php:1505-1506 | the first position of the requested order whose lower-cased key matches |
| FieldConfig.ChosenSpec | classes.php:1504-1513 | taking fields out never loses or invents one, and what is left is not requested |
| FieldConfig.ChosenOrder | classes.php:1505-1511 | the requested fields come out in the order of their first request |
| FieldConfig.ReorderFields | classes.php:1497-1518 | `reorderFields` gives the requested fields, then the rest in configured order, and is a permutation of the deduplicated field list |

## Left out

- File I/O and OS locking (`fopen`/`flock`/`file_put_contents`, `mkdir`): files are whole values in maps. Concurrent writers are not modelled.
- ZIP and DOM parsing, XML text building and `htmlspecialchars`: the `.xlsx`/`.xls` codecs work on already-parsed rows of cells. Shared-string lookup and inline strings are not modelled.
- The tab-separated text-file branches of every `Database` operation: `Database` methods require a `.json` or `.xls` file.
- `getHeaders` for `.json`/text files, `readJSON` decode failures, `truncate`, `delete` (a `deleteMany` with one value), `getAllProcessFiles` and `getProcessFiles` (the listing is a parameter), and `findFileForRecord`: outside the core.
- `DateTime::createFromFormat`, `time()`, `date()` and `normalizeDate`: the date parser, the clock and the display stamp are parameters.
- Query.Compare: the comparator's date, currency and digit normalisation (floating point) is an abstract ordering key `norm: string -> int`. Only its empties-last tier and the attendant tie-break structure are exact.
- Query.SortLeTotalPreorder: in the source, `$normalize` returns a timestamp, a float or a lower-cased string, and PHP 8 compares a number with a non-numeric string as strings. On a column mixing kinds (say "9", "100" and "5x": 9 < 100 < "5x" < 9) the comparator is not transitive and `usort`'s order depends on its algorithm; the model, with one integer key, picks one possible outcome. The attendant names are likewise compared by `strcmp` order, although PHP compares two numeric names as numbers.
- PHP loose comparison (`==`, `in_array`) is modelled as exact string equality. Integer coercion of numeric-string array keys is not modelled, although it changes the `ksort` order of `removeDuplicates` and the key matching of the dictionaries.
- Values are strings: `null`, numbers and nested arrays in documents are not modelled.
- `usort` and `ksort` are modelled as a stable insertion sort. PHP 8's sort is stable, but its exact algorithm is not modelled; the results agree whenever the comparator is a total preorder, which is proved for the model's comparator.
- Text.Upper: `mb_strtoupper` is modelled for ASCII and the Latin-1 letters with a one-character upper case; "ß" (which PHP expands to "SS") and other scripts are left unchanged.
- Dashboard.Monitor: the work-time and idle-time formatting (`sprintf`) and the HTML classes are not modelled; the entry-time parser is a parameter.
- `Config` persistence (`file_put_contents` of the whole configuration) and `reorderFields`' check that the file is configured: FieldConfig.ReorderFields works on one field list. The rest of `Config`, `Templates`, sessions and all HTML/JS rendering are outside the core.
- Indexer.ProcessIndexer.Load: a corrupt index file (`json_decode` failing to `[]`) is not distinguished from an empty one.
- The source's behaviour that the model keeps as written, although it may surprise:
  - the JSON branch of `importExcelData` merges blank incoming values (Importer.JsonImportOverwritesWithBlank);
  - the spreadsheet branch merges case-sensitively (Importer.TableMergeIsCaseSensitive);
  - a refused `acquireLock` does not save its clean-up (Locks.LockManager.AcquireLock);
  - one's own expired lock loses its entry time (Locks.ExpiredOwnLockResets);
  - the dashboard protocol takes over after 120 s and has no expiry clean-up (Dashboard.AcquireHandler);
  - reading back a written table drops documents whose header fields are all empty (ExcelCodec.TableRoundTrip).
- Importer.ImportBatchTwice: the spreadsheet branch of `importExcelData` is not idempotent in this sense and is not covered. A first import stores the row cut to the headers, and a second import `array_merge`s the full incoming row into it, which adds the row's fields outside the headers.

## Findings

| source | as written | input that shows it | evidently intended | confidence | as-written member | corrected member |
|---|---|---|---|---|---|---|
| classes.php:532-534 (and 550-552) | the fallback stores the case-insensitive key in `$k` but reads `$key`, which is never set, so it always yields '' | a file holding one row `{"cpf": "123"}`, searched with `findReverse(file, "CPF", "123")`: returns null, although `findMany(file, "CPF", ["123"])` finds the row | read the value under the matched key, as `findMany` does (classes.php:756-759), so the last row whose key read equals the value is returned | not executed | Store.FindReverseMissesCaseVariant | DataFiles.Database.FindReverse |
