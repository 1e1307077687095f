# SFS histogram CSV processing, modelled in Dafny

`SFSHistoDataProcessor` takes one or more CSV exports and runs the same table transformation on each file. A file is read from the input directory, edited, and written under the same name to `outputs/`. The edits happen in the order that `process` calls them:

1. **delete_rows** removes every grand-total row, i.e. every row whose `[IsGrandTotalRowTotal]` cell is true.
2. **drop_columns** removes the configured columns.
3. **rename_columns** renames columns through the configured map.
4. **insert_columns** inserts each configured placeholder as an all-null column at position 1.
5. **reorder_columns** reindexes the header to the configured target list.

The four lists come from `setup_columns`. The project models a table as a header (`seq<Name>`) and rows of cells (`Null | Bool | Int | Text`). Each step is a pure function. The four steps that can raise return `Result<Table>`, with one error constructor per exception that pandas raises on that path. Renaming cannot fail, so `RenameColumns` returns a plain `Table`. On top of the steps:

- `Pipeline.Process` composes the five steps.
- `Batch.Start` runs `Process` over the configured file names against a disk, modelled as a map from path to parsed table.

Modules:

- `Tables` (tables.dfy): cells, tables, column lookup, positional selection and reversal.
- `Outcomes` (outcomes.dfy): `Option`, `Result` and the error constructors.
- `Steps` (steps.dfy): the five edits and their lemmas.
- `Pipeline` (pipeline.dfy): the column configuration, `process` and its end-to-end lemmas.
- `Batch` (batch.dfy): file names, paths, and the sequential driver `start`.
- `Scenarios` (scenarios.dfy): the zone-export example worked through the whole pipeline, plus the reversed insert order on a concrete header.

Several behaviours of the code are easy to get wrong, and the model follows the code in each:

- **Missing indicator column.** One might expect the filter to be a no-op when the indicator column is missing. The code indexes `df["[IsGrandTotalRowTotal]"]` (sfs_processing.py:35), which raises a KeyError. `DeleteRows` returns `KeyNotFound([Indicator])`.
- **Missing configuration.** One might expect a missing configuration to fail before any file is touched. In the code, the file is read and filtered first (sfs_processing.py:121-122). The first access to `drop_columns_list` (sfs_processing.py:39) then raises. `Process` returns `NotConfigured` only after `DeleteRows` has succeeded.
- **Rename map keys.** One might expect every key of the rename map to have to be a column. pandas `rename` (sfs_processing.py:48) ignores absent keys, and so does `RenameColumns`.
- **Failure in a batch.** One might expect the batch to carry on after a failed file. `start` (sfs_processing.py:129-135) does not catch the exception, so the batch ends. `Start` reports the first failure, and exactly the files before it have been written.
- **Step order.** The docstring of `process` (sfs_processing.py:110-120) lists a different step order from the calls it makes (sfs_processing.py:121-127). The model follows the calls.

## Model

| member | source | states |
|---|---|---|
| Steps.DeleteRows | sfs_processing.py:34-35 | Fails with a KeyError for the indicator exactly when the indicator column is absent. Otherwise the header is unchanged and the table stays valid. A row is kept iff it is an input row whose indicator cell is not true. No true indicator remains. |
| Steps.UnflaggedSelect | sfs_processing.py:35 | The row filter equals the reference definition "select the positions whose indicator is not true, in ascending order". |
| Steps.DeleteRowsKeepsOrder | sfs_processing.py:34-35 | On a table with the indicator column, the kept rows are exactly the unflagged input rows in their original relative order. |
| Steps.UnflaggedAppend | sfs_processing.py:35 | Filtering a concatenation filters each part and concatenates the results, so the filter preserves order. |
| Steps.DeleteRowsIdempotent | sfs_processing.py:34-35 | Removing total rows from an already filtered table returns the same table. |
| Steps.DropColumns | sfs_processing.py:37-39 | Fails iff some listed name is not a column. The KeyError names exactly the listed names that are missing. On success: the table stays valid with the same row count; a column survives iff it is not listed; survivors keep their relative order and their cells. |
| Steps.DropNothing | sfs_processing.py:37-39 | Dropping an empty list returns the table unchanged. |
| Steps.RenameColumns | sfs_processing.py:41-48 | Rows untouched, column count and positions kept; each column is replaced by its image under the map, with non-keys unchanged; rectangularity is preserved. |
| Steps.RenameDistinct | sfs_processing.py:48 | Renaming keeps the names unique iff the map sends no two distinct columns to the same name. |
| Steps.RenameCarriesValues | sfs_processing.py:48 | Under an injective renaming, the renamed column holds exactly the cells of the original column. |
| Steps.RenameRoundTrip | sfs_processing.py:48 | Renaming with an inverse map restores the original table, provided no untouched column is a key of the inverse. |
| Steps.InsertColumns | sfs_processing.py:79-80 | Succeeds iff the names are pairwise distinct, none is already a column, and the header is non-empty (or there is nothing to insert). On an empty header it fails with IndexError at location 1. Otherwise a failure is a duplicate-name error naming a listed name. On success the header is the first column, then the names in reverse order, then the rest; every row gets one null per name at the same place. The row count is kept, and distinct headers stay distinct. |
| Steps.InsertKeepsCells | sfs_processing.py:79-80 | After insertion the header holds exactly the old columns and the new names. Every old column keeps its cells, and every new column is entirely null. |
| Steps.InsertHeaderOnly | sfs_processing.py:79-80 | Whether insertion fails, with which error, and the resulting header depend only on the input header. |
| Scenarios.InsertTwoReversed | sfs_processing.py:79-80 | Inserting [a, b] into header [h, t] with row [x, y] gives header [h, b, a, t] and row [x, null, null, y]. |
| Steps.ReorderColumns | sfs_processing.py:99 | Fails iff the header differs from the target and has repeated names; the error is the duplicate-axis ValueError. On success the header is exactly the target and the row count is kept. Every position of the target is filled, repeated target names included: it holds the cells of the first column of that name when one exists, and null otherwise. When the header already equals the target, the table is returned unchanged, repeats and all. |
| Steps.ReorderCompose | sfs_processing.py:99 | Reordering to a repeat-free list and then to a second list equals reordering straight to the second, when the first list keeps every existing column the second asks for. |
| Steps.ReorderIdempotent | sfs_processing.py:99 | Reordering the output of a reorder to the same target changes nothing. |
| Steps.ReorderRoundTrip | sfs_processing.py:99 | Reordering a valid table to a repeat-free permutation of its header and back restores the table. |
| Pipeline.Process | sfs_processing.py:121-126 | A missing indicator gives the KeyError. A missing configuration gives the configuration error, but only after filtering. On success: the header equals the reorder list, the table is rectangular, the row count equals the number of non-total rows, every dropped name was a column, and the placeholders are pairwise distinct. |
| Pipeline.ProcessSucceeds | sfs_processing.py:121-126 | Sufficient conditions for success: indicator and dropped columns present, renamed survivors non-colliding, placeholders distinct, new, and following at least one column. Under them the export schema is exactly the reorder list. |
| Pipeline.ProcessCarriesValues | sfs_processing.py:122-126 | An exported column that comes from a surviving source column, possibly renamed, holds that column's cells minus the total rows. |
| Pipeline.ProcessNullFill | sfs_processing.py:125-126 | An exported column that no surviving source column was renamed into is entirely null; this covers placeholders and listed-but-absent names. |
| Pipeline.NoTotalsExported | sfs_processing.py:122-126 | When the indicator column is exported, none of its cells is a true total flag. |
| Pipeline.ProcessDependsOnlyOnHeader | sfs_processing.py:121-126 | Whether a file fails, and with which error, depends only on its header, never on its cells. |
| Scenarios.ZoneFiltered | sfs_processing.py:34-35 | On a two-row zone export, only the row whose indicator is false survives the filter. |
| Scenarios.ZoneExport | sfs_processing.py:121-126 | A zone export with one total row, a renamed shop count, one placeholder and one listed-but-absent column exports one row. Its header is the reorder list, the renamed count carries its value, and the placeholder and absent column are null. |
| Batch.ProcessFile | sfs_processing.py:29-32 | Reading a path absent from the disk fails with a file-not-found error for `inputDir/name`, and only then. A successful file's header is the configured reorder list. |
| Batch.OutputPathInjective | sfs_processing.py:103-104 | Different file names are written to different paths under `outputs/`. |
| Batch.FirstFailure | sfs_processing.py:129-135 | The position returned is the first failing name: every earlier name succeeds, and the name at the position fails. |
| Batch.RunQueue | sfs_processing.py:129-135 | Reports no failure iff every name succeeds. Otherwise it reports the first failing name with its error. Exactly the output paths of the names before it are written, each holding that name's processed table. |
| Batch.Start | sfs_processing.py:129-135 | For one name or a list, the files are processed in order and the first failure stops the batch. Exactly the files before it are exported, and every exported table has the configured reorder list as its header. |

## Left out

- CSV parsing and writing (`read_csv`, `to_csv`, sfs_processing.py:29-32, 101-107) are pandas I/O. The disk is a map from path to an already parsed, valid table: rectangular, with unique column names. The output directory is the map of tables written.
- Creating the output directory (sfs_processing.py:105-106) has no counterpart. `outputs/` is assumed to be a different directory from the input directory, so a file written during a batch is never read back as input.
- The `tqdm` progress bar (sfs_processing.py:132) is display only.
- main.py is not part of this model: it lists the input directory and wires up the processor.
- pandas dtypes and NaN are not modelled. A missing value is the abstract `Null`, and cells are booleans, integers or text. Floats are left out, so `1.0 == True` does not count as a total flag; only `True` and the integer `1` do.
- Index labels are not modelled. `read_csv` gives a fresh RangeIndex, so dropping rows by the labels of the flagged rows is modelled as keeping the other rows by position.
- The mutable `self.df` and repeated calls to `setup_columns` are not modelled. The configuration is a value fixed for the whole batch, or absent.
- Steps.DropColumns: the error is stated to name exactly the missing listed names, but not their order in pandas' message.
- Steps.InsertColumns: when the header is not empty, the contract says the failure names one of the listed names. It does not say which one, namely the first name in list order that clashes with the header or with an earlier name.
