# FinRecon reconciliation, modelled in Dafny

FinRecon compares two CSV files, A and B, on a primary-key column chosen by
the user. `find_differences` in `app.py` returns three results:

- the rows of A whose key B does not have;
- the rows of B whose key A does not have;
- for every key both files have whose rows differ as text in some column
  both files have, a mismatch record. A record lists each such column with
  A's cell and B's cell. A common key whose shared columns all match gets no
  record.

The page then flattens these records into a mismatch table with one row per
differing column: `Primary Key`, `Column`, `File A`, `File B`.

The model has three modules:

- `Tables` (tables.dfy) is the data model. A table is its column names in
  file order and its rows in file order. A row maps a column name to a cell.
  A cell is the text `str()` gives for the value (pandas upcasts are left
  out; see below). `WellFormed` states what
  the reconciliation assumes of each file:
  - the key is one of its columns;
  - the column names are unique;
  - every row has a cell for every column;
  - no two rows share a key value.
  `RowWithKey` is `df.loc[k]`.
- `Differences` (differences.dfy) is `find_differences`.
  - The extra rows are pure filters (`ExtraRows`).
  - The two loops are methods (`CompareRows` for the column loop,
    `FindDifferences` for the key loop). Each is proved equal to a
    specification function (`RowDiffs`, `MismatchRecords`).
  - Lemmas prove what the result means: partition, counts, order, "a record
    if and only if a shared column differs", what each record holds,
    self-comparison and symmetry.
- `MismatchRows` (mismatch_rows.dfy) is the loop that builds `mismatch_rows`.
  `FlattenMismatches` is proved equal to `Flatten`. Lemmas give the row count
  and say exactly which rows appear.

Common keys are visited in A's row order. Pandas defines the order of
`Index.intersection` itself. Every property about which keys have a record is
stated over the set of keys, so it does not depend on that order.

`app.py` has no header-row detection, no column-name sanitising, no
user-declared column pairs and no trimming. It compares same-named columns
only, with an untrimmed `str(val_a) != str(val_b)`. `.loc` on a duplicated
index returns a frame instead of a row, so the model requires unique keys.

## Model

| member | source | states |
|---|---|---|
| `Tables.RowWithKey` | app.py:20-21 | `df.loc[k]` for a key the index holds returns a row of the table that carries key `k`; under unique keys it is the only such row |
| `Differences.IndexColumns` | app.py:8-9 | after `set_index(key)` the columns are exactly the table's columns other than the key, still pairwise distinct |
| `Differences.IndexColumnsOrder` | app.py:8-9 | those columns keep the table's column order (a subsequence of it) |
| `Differences.ExtraRows` | app.py:12-13 | a row is extra if and only if it is a row of the table whose key is not in the other table's index |
| `Differences.ExtraRowsOrder` | app.py:12-13 | the extra rows keep the table's row order (a subsequence of its rows) |
| `Differences.RowDiffs` | app.py:23-29 | an entry names a column of A that B also has, holds A's cell then B's cell, and the two differ; every such differing column has its entry; no column appears twice |
| `Differences.RowDiffsOrder` | app.py:24-29 | the entries follow A's column order |
| `Differences.MismatchRecords` | app.py:16-32 | every record's key is a key of A and of B, and its `Differences` is non-empty |
| `Differences.MismatchRecordsRows` | app.py:19-32 | each record's `Differences` is the comparison of a row of A carrying its key with B's row for that key |
| `Differences.CompareRows` | app.py:23-29 | the column loop fills `diffs` with exactly `RowDiffs` of the two rows |
| `Differences.FindDifferences` | app.py:7-34 | returns A's extra rows, B's extra rows and the mismatch records the specification functions define, the key loop building the list in order |
| `Differences.PartitionCount` | app.py:12-16 | under unique keys, the number of extra rows plus the number of keys also in the other table equals the number of rows |
| `Differences.Partition` | app.py:12-16 | every row of a table is extra exactly when its key is not a common key, never both; extra rows plus common keys number the table's rows (applies to A and, swapped, to B) |
| `Differences.MismatchRecordsKeys` | app.py:19-32 | a key has a record if and only if some row of A with that key finds B's row for it and they differ in a compared column |
| `Differences.MismatchRecordsUnique` | app.py:16-32 | with unique keys in A, no key has two records |
| `Differences.MismatchIff` | app.py:16-32 | a key has a record if and only if it is common to both tables and the two rows differ in some column both tables have other than the key |
| `Differences.MismatchContents` | app.py:8-32 | each record's key is common, its `Differences` holds only columns of both tables other than the key, once each, in A's column order, each entry is (A's cell, B's cell) and the two differ; keys are not repeated |
| `Differences.SelfComparison` | app.py:12-28 | comparing a table with itself yields no extra rows and no mismatch records |
| `Differences.MismatchSymmetry` | app.py:12-32 | swapping A and B leaves the set of mismatching keys unchanged (the extra lists swap by definition) |
| `MismatchRows.FlattenMismatches` | app.py:76-86 | the nested loop builds exactly `Flatten` of the records, record by record in the order of each `Differences` |
| `MismatchRows.FlattenCount` | app.py:77-86 | the number of flattened rows equals the total number of `Differences` entries |
| `MismatchRows.FlattenMembers` | app.py:78-86 | a row is emitted if and only if some record has its key and holds its (column, A value, B value) among its `Differences` |
| `MismatchRows.MismatchRowsDiffer` | app.py:76-86 | every mismatch-table row names a column of both files other than the key, holds A's and B's cells for that key and column, and the two cells differ |

## Left out

- The Streamlit page: uploaders, previews, subheaders, `st.dataframe`, `st.write` and `st.success` (app.py:40-55, 64-74, 99, 110). These are presentation only.
- `pd.read_csv` (app.py:48-49) is I/O and a library parser. The model starts from tables whose cells already hold text.
- Choosing the primary key with a set intersection and a select box (app.py:58-59) is UI wiring. It appears only as the requirement that the key is a column of both tables.
- `highlight_mismatches` (app.py:91-97) is display styling. `MismatchRows.MismatchRowsDiffer` is about the text of the cells only. The source stores the raw typed values (app.py:29) and the highlight compares those with `!=` (app.py:93). So a recorded mismatch whose raw values are equal, such as an int `100` against a float `100.0`, is shown without a highlight.
- Converting to CSV, `st.cache_data` and the download button (app.py:102-107) are serialisation and I/O.
- Pandas value semantics are not modelled. Cells are taken as the text `str()` gives, so these details are lost:
  - the rendering of numbers, NaN and dtypes;
  - `isin` comparing typed key values while the cell comparison uses `str`;
  - `Differences` holding the raw typed values, where the model holds their text;
  - the row upcast of `df.loc[k]` (app.py:20-21): pandas builds the row as one Series of the frame's common dtype, so in an all-numeric frame with one float column an int cell `100` becomes `100.0` before `str`. The model compares each cell's own text.
- Duplicate key values are excluded by `Tables.WellFormed`. `.loc` on a duplicated index returns a frame, which is not modelled.
- The order of `Index.intersection` (app.py:16) is defined by the library. `Differences.MismatchRecords` visits the common keys in A's row order.
- The extra rows are modelled as whole rows, with the key cell kept in the row. Pandas moves the key into the index and `reset_index` puts it back as the first column; that column order is not modelled.
