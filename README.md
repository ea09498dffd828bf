# DataManager table store — a verified model

This project models `DataManager` (src/data_manager.py), the table store of the
student-question browser. The store holds one in-memory table of records with
eight text fields (`COLUMN_NAMES`) and a semicolon-separated backing file. It
offers these operations:

- load the file, falling back to an empty table with the eight columns;
- rewrite the whole file;
- add, delete by positions and update by position, each followed by a save;
- an AND-combined, case-insensitive per-column search;
- an in-place sort that is not saved.

The model is an imperative Dafny class, `Store.DataManager`. Its fields are:

- `fileName`;
- `columns`;
- `data`, the rows in their current order, each row carrying its pandas index key;
- `disk`, what the backing file holds.

`Valid()` is the class invariant: the canonical columns, and no index key twice.
`Persisted()` says the file holds exactly the table's records, in order.

What the pandas calls do is written out as functions, and the lemmas about those
functions state what the source promises:

- `Rows.LocAssign` is `loc` assignment by key: it enlarges the table for an absent key and overwrites the rows carrying a present one;
- `Positions.DropKeys` is `drop` by index key;
- `Positions.Resolve` is numpy position wrap-around;
- `Filtering.KeepMatching` and `Filtering.Select` are the search masks;
- `Sorting.SortRows` is a reference sort.

Module layout:

- `text.dfy` (`Text`): ASCII case folding, substring occurrence, Python's code-point order on strings.
- `rows.dfy` (`Rows`): the column names, records, rows, the file, loading, and `loc` assignment by key.
- `positions.dfy` (`Positions`): numpy positions, the kept positions of a deletion, `drop` by key.
- `filtering.dfy` (`Filtering`): the search as a selection, and its narrowing one column at a time.
- `sorting.dfy` (`Sorting`): the order on a column and the reference sort.
- `data_manager.dfy` (`Store`): the class and a few client scenarios.

Behaviour of the code worth knowing:

- `sort_data` with a name that is not a column leaves the table unchanged and returns it; there is no separate error for it.
- `sort_values` uses pandas' default quicksort, which is not stable, so the model promises nothing about the order of ties.
- A search value beyond the eighth column fails with `IndexError` (from `COLUMN_NAMES[i]`) when it is non-empty, and is ignored when empty.
- `add_data` writes to the key `len(data)`. After a deletion that key can belong to a surviving row, which is then overwritten instead of a new row being appended (see Findings).

## Model

| member | source | states |
|---|---|---|
| Rows.ColumnIndex | src/data_manager.py:5 | a name has an index among the eight column names exactly when it is one of them, and the name at that index is the one looked up |
| Rows.Load | src/data_manager.py:24-38 | a missing or unreadable file gives the empty table with exactly the eight column names; a readable one gives its records in order, keyed 0..n-1, so keys are distinct and below the row count |
| Rows.Records | src/data_manager.py:46 | what `to_csv(index=False)` writes: one record per row, in row order, the row's fields without its key |
| Rows.SaveThenLoad | src/data_manager.py:32-46 | reading back a saved table gives the same records in the same order |
| Rows.LocAssign | src/data_manager.py:55 | `loc[key] = fields`: the length grows by one exactly when no row carries `key`; afterwards some row carries `key`, every row carrying it has the new fields, and every row with another key is unchanged |
| Rows.LocAssignEffect | src/data_manager.py:55 | with distinct keys, `loc[key] = fields` appends a row when no row carries `key`, overwrites exactly the row carrying it otherwise, and keeps keys distinct |
| Rows.NextKey | src/data_manager.py:55 | a key above every key present |
| Rows.AppendRow | src/data_manager.py:55 | the intended add: the old rows unchanged, then one new row with the given fields under a key no row carries |
| Rows.AppendRowKeepsKeysDistinct | src/data_manager.py:55 | the intended add keeps keys distinct |
| Positions.PositionSet | src/data_manager.py:65 | `index[indices]` as a set of positions: every named index resolves into it, it holds nothing else, and when every index is in range it names only rows of the table |
| Positions.Resolve | src/data_manager.py:65 | a numpy position resolves into `0..n-1` exactly when it lies in `-n..n-1` |
| Positions.Kept | src/data_manager.py:65 | the surviving positions of a deletion all lie below the row count |
| Positions.KeptMembers | src/data_manager.py:65 | exactly the positions below the row count and outside the deleted set survive |
| Positions.KeptIncreasing | src/data_manager.py:65 | survivors keep their relative order |
| Positions.KeptLength | src/data_manager.py:58-66 | deleting a set of in-range positions leaves the row count minus the number of distinct positions |
| Positions.KeptBelow | src/data_manager.py:65 | which positions survive depends only on the deleted positions in range |
| Positions.Pick | src/data_manager.py:65 | the rows at the given positions, in the order given |
| Positions.PickKeptLast | src/data_manager.py:65 | the surviving rows of a table extend those of its prefix by its last row exactly when that row's position is not deleted |
| Positions.DropKeys | src/data_manager.py:65 | `drop` by key keeps only rows of the table whose key is not named |
| Positions.DropKeysIsPick | src/data_manager.py:65 | when the named keys are exactly those at the deleted positions, dropping by key removes exactly the rows at those positions and keeps the rest in order |
| Positions.PickKeepsKeysDistinct | src/data_manager.py:65 | removing rows keeps keys distinct |
| Text.LowerAt | src/data_manager.py:94 | lower-casing keeps the length and maps each character by ASCII case folding |
| Text.LowerIdempotent | src/data_manager.py:94 | lower-casing twice is lower-casing once |
| Text.ContainsIffOccurs | src/data_manager.py:94 | the substring test holds exactly when the value occurs as a contiguous block at some position of the cell |
| Text.Contains | src/data_manager.py:94 | literal substring test: the empty value is contained in every cell, and a contained value is no longer than the cell |
| Text.ContainsIgnoreCase | src/data_manager.py:94 | `str.contains(value, case=False)` read literally with ASCII folding: the empty value matches every cell, and a matching value is no longer than the cell; `Text.CaseOfArgumentsIrrelevant` gives its case-insensitivity |
| Text.CaseOfArgumentsIrrelevant | src/data_manager.py:94 | `case=False`: lower-casing the cell or the value does not change the outcome |
| Filtering.RowMatches | src/data_manager.py:92-94 | the tests of the values applied in order, one column each, a value past the eighth column testing nothing; `Filtering.RowMatchesEvery` states what it means |
| Filtering.RowMatchesEvery | src/data_manager.py:92-94 | a row passes exactly when every non-empty value that names one of the eight columns occurs, ignoring case, in that column's cell |
| Filtering.Select | src/data_manager.py:79-95 | the selection is no longer than the table |
| Filtering.KeepMatching | src/data_manager.py:94 | the one-column mask `data[data[column].str.contains(value, case=False)]` is no longer than the table; `Filtering.KeepMatchingMembers` says which rows it keeps |
| Filtering.KeepMatchingMembers | src/data_manager.py:94 | a row is kept by the mask exactly when it is in the table and its cell in that column contains the value, ignoring case |
| Filtering.KeepMatchingSnoc | src/data_manager.py:94 | a one-column mask over a table with one row appended is the mask of the table, extended by that row exactly when it matches |
| Filtering.RowMatchesExtend | src/data_manager.py:92-94 | the tests of the first `i + 1` values are those of the first `i` plus the test of value `i`, which is void past the eighth column |
| Filtering.SelectNarrow | src/data_manager.py:93-94 | applying the mask of a non-empty value `i` to the selection on the first `i` values gives the selection on the first `i + 1` |
| Filtering.SelectSkip | src/data_manager.py:93 | an empty value, or one past the eighth column, does not change the selection |
| Filtering.SelectFirstColumns | src/data_manager.py:92-94 | only the first eight values decide the selection |
| Filtering.SelectMembers | src/data_manager.py:79-95 | a row is selected exactly when it is in the table and passes every test; every excluded row fails one |
| Filtering.SelectIsPick | src/data_manager.py:79-95 | the selection is the subsequence of the table, in its original order, at the positions of the passing rows |
| Filtering.SelectAllEmpty | src/data_manager.py:92-95 | all-empty values return the whole table |
| Filtering.SelectNoMatch | src/data_manager.py:79-95 | when no row passes, the result is the empty table, not an error |
| Text.StrLe | src/data_manager.py:105 | Python's `<=` on strings, lexicographic by code point: a prefix comes first |
| Text.StrLeReflexive | src/data_manager.py:105 | the string order is reflexive |
| Text.StrLeTotal | src/data_manager.py:105 | the string order is total |
| Text.StrLeTransitive | src/data_manager.py:105 | the string order is transitive |
| Text.StrLeAntisymmetric | src/data_manager.py:105 | the string order is antisymmetric |
| Sorting.KeyLeTotal | src/data_manager.py:105 | either of two cells may precede the other, ascending or descending |
| Sorting.KeyLeTransitive | src/data_manager.py:105 | the requested direction's order is transitive |
| Sorting.Insert | src/data_manager.py:105 | insertion adds exactly the one row |
| Sorting.SortRows | src/data_manager.py:105 | the reference sort is a permutation of the table |
| Sorting.OrderedCons | src/data_manager.py:105 | a row that may precede every row of an ordered table can head it |
| Sorting.BeforeHead | src/data_manager.py:105 | a row that may precede the head of an ordered table may precede all of it |
| Sorting.InsertOrdered | src/data_manager.py:105 | inserting into an ordered table keeps it ordered |
| Sorting.SortRowsOrdered | src/data_manager.py:104-105 | the reference sort orders every pair of rows by the column in the requested direction |
| Sorting.DistinctKeysCons | src/data_manager.py:105 | a row heads a table with distinct keys exactly when the rest has distinct keys and none equals its key |
| Sorting.InsertKeepsKeysDistinct | src/data_manager.py:105 | inserting a row with a fresh key keeps keys distinct |
| Sorting.SortRowsKeepsKeysDistinct | src/data_manager.py:105 | sorting keeps keys distinct |
| Store.DataManager.constructor | src/data_manager.py:14-22 | the store remembers the path (by default `./data/dataset.csv`) and holds exactly the loaded table, with the invariant established |
| Store.DataManager.Save | src/data_manager.py:40-46 | afterwards the file holds exactly the table's records, in order |
| Store.DataManager.Add | src/data_manager.py:48-56 | a record without eight values is a shape error that changes nothing; otherwise the table is saved, the record is appended when no row carries key `len(data)`, and it overwrites the row carrying that key otherwise; keys stay distinct, and stay below the row count when they were |
| Store.DataManager.Append | src/data_manager.py:48-56 | the corrected add: the record becomes the new last row under a fresh key, earlier rows unchanged, then saved; a shape error changes nothing |
| Store.DataManager.Delete | src/data_manager.py:58-66 | any position outside `-n..n-1` is an index error that changes nothing; otherwise exactly the rows at the named positions are removed, survivors keep their order, the length drops by the number of distinct positions, and the table is saved |
| Store.DataManager.Update | src/data_manager.py:68-77 | a position outside `-n..n-1` is an index error, then a record without eight values is a shape error, either changing nothing; otherwise only the row at the position gets the new fields, every key and every other row is unchanged, and the table is saved |
| Store.DataManager.Search | src/data_manager.py:79-95 | the table is unchanged; the result is the selection of the rows passing every non-empty value's case-insensitive test, or an index error exactly when a non-empty value sits past the eighth column |
| Store.DataManager.Sort | src/data_manager.py:97-106 | an unknown column leaves the table unchanged; a known one makes it a permutation of itself, ordered by that column in the requested direction, with keys distinct; the file is untouched and the table is returned |
| Store.AddThenReload | src/data_manager.py:55-56 | adding a record to a freshly loaded table and reading the file back gives the loaded records followed by the new one |
| Store.DeleteOuterRows | src/data_manager.py:65-66 | deleting positions 0 and 2 of three loaded rows leaves the middle one |
| Store.DeleteThenAdd | src/data_manager.py:55 | deleting the first of three loaded rows and then adding a record overwrites the last survivor |
| Store.DeleteThenAppend | src/data_manager.py:55 | with the corrected add, the same steps keep both survivors and put the record last |
| Store.SearchByCountry | src/data_manager.py:91-95 | on rows with countries VN and US, searching the country column for "US" returns the second row alone and for "DE" returns the empty table |
| Store.CountryOnly | src/data_manager.py:92-94 | searching by country alone tests the country cell alone |

## Left out

- The user interface (src/main.py, src/interface.py), the charts (src/chart_utils.py) and the duplicate programs app.py and final.py are not part of this model. They are Tk and matplotlib glue around the store.
- CSV parsing and writing are out: quoting, encodings and dtype inference. The file is an abstract copy of the records (`File`).
- A readable file with a header other than the eight column names is not modelled. The loaded table is taken to have the canonical columns.
- The warning and error message boxes of `load_data` are not modelled, since they only have display side effects.
- `WriteError` is not modelled: saving always succeeds. Real file-system failures are I/O outside the model.
- Rows.Load: `read_csv` may also fail on a file that exists. Any such failure is `Unreadable`, and the model does not say which files fail.
- Text.ContainsIgnoreCase: folds only ASCII letters, and reads the value as a literal rather than as the regular expression pandas uses by default. Unicode case folding and regex syntax are out of scope.
- Store.DataManager.Sort: orders by code point on the text of the cells. It does not model numeric columns that `read_csv` parses as numbers, or the errors pandas raises on mixed types. It promises nothing about ties, because pandas' default quicksort is not stable.
- Sorting.SortRows: it is an insertion sort standing for pandas' sort, and only its permutation and ordering properties are relied on. Pandas' own algorithm is not modelled.
- Store.DataManager.Update: a record without eight values is always a shape error here. On a table whose columns all have one dtype, pandas' `iloc` assignment of a one-element list spreads that value over all eight cells instead, and the model does not capture that case. The callers in the user interface always pass eight values.
- Store.DataManager.Add: a record without eight values is always a shape error here. When `len(data)` is a key some row already carries (after a deletion), `loc` assignment of a one-element list on a table with one dtype spreads that value over the row instead, and the model does not capture that case. The append branch does reject a wrong length, as modelled.
- Store.DataManager.Update: the order of its two checks (position before shape) follows how `iloc` validates a key before the value. Neither check mutates anything, so the order only decides which error is reported.
- Store.DataManager.Search: the source filters and raises in one pass. The model filters the first eight values and then checks the rest. Filtering has no effect when an error is raised, so the outcome is the same.
- Missing values (NaN cells, `na=False`) are not modelled; every cell is text.

## Findings

| source | as written | input that shows it | evidently intended | confidence | as-written member | corrected member |
|---|---|---|---|---|---|---|
| src/data_manager.py:55 | `add_data` assigns to the index key `len(data)`. `delete_data` (line 65) keeps the survivors' keys, so after a deletion that key can belong to a survivor, and `loc` overwrites that row. | Load three records a, b, c (keys 0, 1, 2), delete position 0, then add x. The table becomes [b, x] and c is lost. | The record is appended as a new last row, giving [b, c, x]. | not executed; high | Store.DeleteThenAdd | Store.DataManager.Append |
