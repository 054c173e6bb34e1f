/** `find_differences(df1, df2, key)` of app.py: the rows whose key only one
    of the two tables has, and, for every key both tables have, the columns
    present in both whose values differ.

    The specification functions recurse on the last element, mirroring the
    loops of the source, which append to the end of their results. */
module Differences {
  import opened Tables

  /** One entry of the `Differences` dict: column -> (A's value, B's value). */
  datatype Diff = Diff(column: ColName, valA: Cell, valB: Cell)

  /** A record `{"Primary Key": k, "Differences": diffs}`. */
  datatype Mismatch = Mismatch(primaryKey: Cell, differences: seq<Diff>)

  /** The column names of `Differences` entries, in entry order. */
  function ColumnsOf(ds: seq<Diff>): seq<ColName> {
    seq(|ds|, i requires 0 <= i < |ds| => ds[i].column)
  }

  /** No key has two records. */
  predicate UniqueRecordKeys(ms: seq<Mismatch>) {
    forall i, j :: 0 <= i < j < |ms| ==> ms[i].primaryKey != ms[j].primaryKey
  }

  function MismatchKeys(ms: seq<Mismatch>): set<Cell> {
    set m | m in ms :: m.primaryKey
  }

  /** The columns left after `set_index(key)`: every column but the key, in
      the frame's order. */
  function IndexColumns(cols: seq<ColName>, key: ColName): (r: seq<ColName>)
    ensures forall c :: c in r <==> c in cols && c != key
    ensures Distinct(cols) ==> Distinct(r)
    decreases |cols|
  {
    if cols == [] then []
    else
      var init := IndexColumns(cols[..|cols| - 1], key);
      var c := cols[|cols| - 1];
      if c == key then init
      else
        assert Distinct(cols) ==> c !in cols[..|cols| - 1];
        init + [c]
  }

  /** `df.loc[~df.index.isin(keys)]`: the rows whose key is not among
      `others`, in their original order. */
  function ExtraRows(rows: seq<Row>, key: ColName, others: set<Cell>): (r: seq<Row>)
    requires HasKey(rows, key)
    ensures forall x :: x in r <==> x in rows && x[key] !in others
    decreases |rows|
  {
    if rows == [] then []
    else
      var init := ExtraRows(rows[..|rows| - 1], key, others);
      var x := rows[|rows| - 1];
      if x[key] in others then init else init + [x]
  }

  /** The inner column loop: for each column of A, in A's order, that B also
      has, an entry when the two cells differ. */
  function RowDiffs(colsA: seq<ColName>, colsB: seq<ColName>, rowA: Row, rowB: Row): (r: seq<Diff>)
    requires forall c :: c in colsA ==> c in rowA
    requires forall c :: c in colsA && c in colsB ==> c in rowB
    ensures forall d :: d in r ==>
              && d.column in colsA && d.column in colsB
              && d.valA == rowA[d.column] && d.valB == rowB[d.column]
              && d.valA != d.valB
    ensures forall c :: c in colsA && c in colsB && rowA[c] != rowB[c] ==> Diff(c, rowA[c], rowB[c]) in r
    ensures Distinct(colsA) ==> Distinct(ColumnsOf(r))
    decreases |colsA|
  {
    if colsA == [] then []
    else
      var init := RowDiffs(colsA[..|colsA| - 1], colsB, rowA, rowB);
      var c := colsA[|colsA| - 1];
      if c in colsB && rowA[c] != rowB[c] then
        var r := init + [Diff(c, rowA[c], rowB[c])];
        assert ColumnsOf(r) == ColumnsOf(init) + [c];
        r
      else init
  }

  /** The outer loop over the common keys, taken in A's row order: a record
      for a key exactly when its two rows differ in some shared column. */
  function MismatchRecords(rowsA: seq<Row>, rowsB: seq<Row>, key: ColName,
                           colsA: seq<ColName>, colsB: seq<ColName>): (r: seq<Mismatch>)
    requires HasKey(rowsA, key) && HasCells(rowsA, colsA)
    requires HasKey(rowsB, key) && HasCells(rowsB, colsB)
    ensures forall m :: m in r ==> m.primaryKey in KeysOf(rowsA, key) && m.primaryKey in KeysOf(rowsB, key)
    ensures forall m :: m in r ==> m.differences != []
    decreases |rowsA|
  {
    if rowsA == [] then []
    else
      var init := MismatchRecords(rowsA[..|rowsA| - 1], rowsB, key, colsA, colsB);
      var x := rowsA[|rowsA| - 1];
      var k := x[key];
      if k in KeysOf(rowsB, key) then
        var ds := RowDiffs(colsA, colsB, x, RowWithKey(rowsB, key, k));
        if ds != [] then init + [Mismatch(k, ds)] else init
      else init
  }

  /** The columns after `set_index` keep the frame's order. */
  lemma {:induction false} IndexColumnsOrder(cols: seq<ColName>, key: ColName)
    ensures IsSubsequence(IndexColumns(cols, key), cols)
    decreases |cols|
  {
    if cols != [] {
      IndexColumnsOrder(cols[..|cols| - 1], key);
    }
  }

  /** The extra rows keep the order of the table they come from. */
  lemma {:induction false} ExtraRowsOrder(rows: seq<Row>, key: ColName, others: set<Cell>)
    requires HasKey(rows, key)
    ensures IsSubsequence(ExtraRows(rows, key, others), rows)
    decreases |rows|
  {
    if rows != [] {
      ExtraRowsOrder(rows[..|rows| - 1], key, others);
    }
  }

  /** The entries of `Differences` follow A's column order. */
  lemma {:induction false} RowDiffsOrder(colsA: seq<ColName>, colsB: seq<ColName>, rowA: Row, rowB: Row)
    requires forall c :: c in colsA ==> c in rowA
    requires forall c :: c in colsA && c in colsB ==> c in rowB
    ensures IsSubsequence(ColumnsOf(RowDiffs(colsA, colsB, rowA, rowB)), colsA)
    decreases |colsA|
  {
    if colsA != [] {
      var init := RowDiffs(colsA[..|colsA| - 1], colsB, rowA, rowB);
      RowDiffsOrder(colsA[..|colsA| - 1], colsB, rowA, rowB);
      var r := RowDiffs(colsA, colsB, rowA, rowB);
      if r != init {
        assert ColumnsOf(r) == ColumnsOf(init) + [colsA[|colsA| - 1]];
      }
    }
  }

  /** The keys both frames' indexes hold (`df1.index.intersection(df2.index)`). */
  function CommonKeys(a: Table, b: Table, key: ColName): set<Cell>
    requires WellFormed(a, key) && WellFormed(b, key)
  {
    KeysOf(a.rows, key) * KeysOf(b.rows, key)
  }

  /** `extra_in_df1` for `t == df1`, `extra_in_df2` for `t == df2`. */
  function Extra(t: Table, other: Table, key: ColName): seq<Row>
    requires WellFormed(t, key) && WellFormed(other, key)
  {
    ExtraRows(t.rows, key, KeysOf(other.rows, key))
  }

  /** The `mismatches` list `find_differences` returns. */
  function Mismatches(a: Table, b: Table, key: ColName): seq<Mismatch>
    requires WellFormed(a, key) && WellFormed(b, key)
  {
    MismatchRecords(a.rows, b.rows, key, IndexColumns(a.columns, key), IndexColumns(b.columns, key))
  }

  /** The inner loop of `find_differences`: fills a fresh `diffs` with the
      columns of A that B also has and whose cells differ. The source compares
      `str(val_a) != str(val_b)`; cells already are that text. */
  method CompareRows(colsA: seq<ColName>, colsB: seq<ColName>, rowA: Row, rowB: Row)
    returns (diffs: seq<Diff>)
    requires forall c :: c in colsA ==> c in rowA
    requires forall c :: c in colsA && c in colsB ==> c in rowB
    ensures diffs == RowDiffs(colsA, colsB, rowA, rowB)
  {
    diffs := [];
    var i := 0;
    while i < |colsA|
      invariant 0 <= i <= |colsA|
      invariant diffs == RowDiffs(colsA[..i], colsB, rowA, rowB)
    {
      var col := colsA[i];
      if col in colsB {
        if rowA[col] != rowB[col] {
          diffs := diffs + [Diff(col, rowA[col], rowB[col])];
        }
      }
      assert colsA[..i + 1][..i] == colsA[..i];
      i := i + 1;
    }
    assert colsA[..i] == colsA;
  }

  /** `find_differences(df1, df2, key)`: the rows extra in each table and the
      mismatch records of the common keys, visited in A's row order. */
  method FindDifferences(a: Table, b: Table, key: ColName)
    returns (extraA: seq<Row>, extraB: seq<Row>, mismatches: seq<Mismatch>)
    requires WellFormed(a, key) && WellFormed(b, key)
    ensures extraA == Extra(a, b, key)
    ensures extraB == Extra(b, a, key)
    ensures mismatches == Mismatches(a, b, key)
  {
    var colsA := IndexColumns(a.columns, key);
    var colsB := IndexColumns(b.columns, key);
    var keysA := KeysOf(a.rows, key);
    var keysB := KeysOf(b.rows, key);
    extraA := ExtraRows(a.rows, key, keysB);
    extraB := ExtraRows(b.rows, key, keysA);

    mismatches := [];
    var i := 0;
    while i < |a.rows|
      invariant 0 <= i <= |a.rows|
      invariant mismatches == MismatchRecords(a.rows[..i], b.rows, key, colsA, colsB)
    {
      var rowA := a.rows[i];
      var k := rowA[key];
      if k in keysB {
        var rowB := RowWithKey(b.rows, key, k);
        var diffs := CompareRows(colsA, colsB, rowA, rowB);
        if diffs != [] {
          mismatches := mismatches + [Mismatch(k, diffs)];
        }
      }
      assert a.rows[..i + 1][..i] == a.rows[..i];
      i := i + 1;
    }
    assert a.rows[..i] == a.rows;
  }

  /** Adding a row to a frame adds its key to the index. */
  lemma KeysOfSnoc(rows: seq<Row>, key: ColName)
    requires HasKey(rows, key) && rows != []
    ensures KeysOf(rows, key) == KeysOf(rows[..|rows| - 1], key) + {rows[|rows| - 1][key]}
  {
  }

  /** Under unique keys, the extra rows and the common keys together account
      for every row once. */
  lemma {:induction false} PartitionCount(rows: seq<Row>, key: ColName, others: set<Cell>)
    requires HasKey(rows, key) && UniqueKeys(rows, key)
    ensures |ExtraRows(rows, key, others)| + |KeysOf(rows, key) * others| == |rows|
    decreases |rows|
  {
    if rows == [] {
      assert KeysOf(rows, key) == {};
    } else {
      var init := rows[..|rows| - 1];
      var k := rows[|rows| - 1][key];
      PartitionCount(init, key, others);
      KeysOfSnoc(rows, key);
      assert k !in KeysOf(init, key);
      if k in others {
        assert KeysOf(rows, key) * others == KeysOf(init, key) * others + {k};
      } else {
        assert KeysOf(rows, key) * others == KeysOf(init, key) * others;
      }
    }
  }

  /** Every row of `t` is either extra or has its key among the common keys,
      never both; so the extra rows and the common keys number `|t.rows|`. */
  lemma Partition(t: Table, other: Table, key: ColName)
    requires WellFormed(t, key) && WellFormed(other, key)
    ensures forall r :: r in t.rows ==> (r in Extra(t, other, key) <==> r[key] !in CommonKeys(t, other, key))
    ensures |Extra(t, other, key)| + |CommonKeys(t, other, key)| == |t.rows|
  {
    PartitionCount(t.rows, key, KeysOf(other.rows, key));
  }

  /** Some row of A with key `k` meets a row of B with that key whose cells
      differ in a compared column. */
  ghost predicate DiffersAt(rowsA: seq<Row>, rowsB: seq<Row>, key: ColName,
                            colsA: seq<ColName>, colsB: seq<ColName>, k: Cell)
    requires HasKey(rowsA, key) && HasCells(rowsA, colsA)
    requires HasKey(rowsB, key) && HasCells(rowsB, colsB)
  {
    && k in KeysOf(rowsB, key)
    && exists x :: x in rowsA && x[key] == k && RowDiffs(colsA, colsB, x, RowWithKey(rowsB, key, k)) != []
  }

  /** Appending a record adds its key. */
  lemma MismatchKeysSnoc(ms: seq<Mismatch>, m: Mismatch)
    ensures MismatchKeys(ms + [m]) == MismatchKeys(ms) + {m.primaryKey}
  {
  }


  /** `DiffersAt` over rows plus one more row: the old rows or the new one. */
  lemma DiffersAtSnoc(rowsA: seq<Row>, rowsB: seq<Row>, key: ColName,
                      colsA: seq<ColName>, colsB: seq<ColName>, k: Cell)
    requires rowsA != []
    requires HasKey(rowsA, key) && HasCells(rowsA, colsA)
    requires HasKey(rowsB, key) && HasCells(rowsB, colsB)
    ensures var last := rowsA[|rowsA| - 1];
            DiffersAt(rowsA, rowsB, key, colsA, colsB, k) <==>
              || DiffersAt(rowsA[..|rowsA| - 1], rowsB, key, colsA, colsB, k)
              || (last[key] == k && k in KeysOf(rowsB, key) &&
                  RowDiffs(colsA, colsB, last, RowWithKey(rowsB, key, k)) != [])
  {
  }

  /** A key has a record exactly when some row of A with that key finds a
      row of B whose cells differ in a compared column. */
  lemma {:induction false} MismatchRecordsKeys(rowsA: seq<Row>, rowsB: seq<Row>, key: ColName,
                                               colsA: seq<ColName>, colsB: seq<ColName>, k: Cell)
    requires HasKey(rowsA, key) && HasCells(rowsA, colsA)
    requires HasKey(rowsB, key) && HasCells(rowsB, colsB)
    ensures k in MismatchKeys(MismatchRecords(rowsA, rowsB, key, colsA, colsB)) <==>
              DiffersAt(rowsA, rowsB, key, colsA, colsB, k)
    decreases |rowsA|
  {
    if rowsA == [] {
      assert MismatchKeys([]) == {};
    } else {
      var init := rowsA[..|rowsA| - 1];
      var last := rowsA[|rowsA| - 1];
      var kl := last[key];
      MismatchRecordsKeys(init, rowsB, key, colsA, colsB, k);
      var ms0 := MismatchRecords(init, rowsB, key, colsA, colsB);
      var ms := MismatchRecords(rowsA, rowsB, key, colsA, colsB);
      var lastDiffers := kl in KeysOf(rowsB, key) && RowDiffs(colsA, colsB, last, RowWithKey(rowsB, key, kl)) != [];
      if lastDiffers {
        MismatchKeysSnoc(ms0, ms[|ms| - 1]);
        assert ms == ms0 + [ms[|ms| - 1]];
        assert MismatchKeys(ms) == MismatchKeys(ms0) + {kl};
      } else {
        assert ms == ms0;
      }
      DiffersAtSnoc(rowsA, rowsB, key, colsA, colsB, k);
    }
  }

  /** Appending a record with a fresh key keeps the keys unique. */
  lemma UniqueRecordKeysSnoc(ms: seq<Mismatch>, m: Mismatch)
    requires UniqueRecordKeys(ms)
    requires forall i :: 0 <= i < |ms| ==> ms[i].primaryKey != m.primaryKey
    ensures UniqueRecordKeys(ms + [m])
  {
  }

  /** Each record's `Differences` compares a row of A carrying its key with
      B's row for that key. */
  lemma {:induction false} MismatchRecordsRows(rowsA: seq<Row>, rowsB: seq<Row>, key: ColName,
                                               colsA: seq<ColName>, colsB: seq<ColName>)
    requires HasKey(rowsA, key) && HasCells(rowsA, colsA)
    requires HasKey(rowsB, key) && HasCells(rowsB, colsB)
    ensures forall m :: m in MismatchRecords(rowsA, rowsB, key, colsA, colsB) ==>
              (exists x :: x in rowsA && x[key] == m.primaryKey &&
                 m.differences == RowDiffs(colsA, colsB, x, RowWithKey(rowsB, key, m.primaryKey)))
    decreases |rowsA|
  {
    if rowsA != [] {
      var init := rowsA[..|rowsA| - 1];
      var last := rowsA[|rowsA| - 1];
      MismatchRecordsRows(init, rowsB, key, colsA, colsB);
      var ms0 := MismatchRecords(init, rowsB, key, colsA, colsB);
      var ms := MismatchRecords(rowsA, rowsB, key, colsA, colsB);
      forall m | m in ms
        ensures exists x :: x in rowsA && x[key] == m.primaryKey &&
                  m.differences == RowDiffs(colsA, colsB, x, RowWithKey(rowsB, key, m.primaryKey))
      {
        if m in ms0 {
          var x :| x in init && x[key] == m.primaryKey &&
                   m.differences == RowDiffs(colsA, colsB, x, RowWithKey(rowsB, key, m.primaryKey));
          assert x in rowsA;
        } else {
          assert m == ms[|ms| - 1] && last in rowsA;
        }
      }
    }
  }

  /** Under unique keys in A, no key has two records. */
  lemma {:induction false} MismatchRecordsUnique(rowsA: seq<Row>, rowsB: seq<Row>, key: ColName,
                                                 colsA: seq<ColName>, colsB: seq<ColName>)
    requires HasKey(rowsA, key) && HasCells(rowsA, colsA) && UniqueKeys(rowsA, key)
    requires HasKey(rowsB, key) && HasCells(rowsB, colsB)
    ensures UniqueRecordKeys(MismatchRecords(rowsA, rowsB, key, colsA, colsB))
    decreases |rowsA|
  {
    if rowsA != [] {
      var init := rowsA[..|rowsA| - 1];
      var kl := rowsA[|rowsA| - 1][key];
      MismatchRecordsUnique(init, rowsB, key, colsA, colsB);
      var ms0 := MismatchRecords(init, rowsB, key, colsA, colsB);
      var ms := MismatchRecords(rowsA, rowsB, key, colsA, colsB);
      if ms != ms0 {
        var m := ms[|ms| - 1];
        assert ms == ms0 + [m] && m.primaryKey == kl;
        assert kl !in KeysOf(init, key);
        forall i | 0 <= i < |ms0| ensures ms0[i].primaryKey != kl {
          assert ms0[i] in ms0;
        }
        UniqueRecordKeysSnoc(ms0, m);
      }
    }
  }

  /** A common key has a record if and only if its two rows differ in a
      column present in both tables other than the key. */
  lemma MismatchIff(a: Table, b: Table, key: ColName, k: Cell)
    requires WellFormed(a, key) && WellFormed(b, key)
    ensures k in MismatchKeys(Mismatches(a, b, key)) <==>
              && k in CommonKeys(a, b, key)
              && exists c :: c in a.columns && c in b.columns && c != key &&
                   RowWithKey(a.rows, key, k)[c] != RowWithKey(b.rows, key, k)[c]
  {
    var colsA := IndexColumns(a.columns, key);
    var colsB := IndexColumns(b.columns, key);
    MismatchRecordsKeys(a.rows, b.rows, key, colsA, colsB, k);
    if k in CommonKeys(a, b, key) {
      var rowA := RowWithKey(a.rows, key, k);
      var rowB := RowWithKey(b.rows, key, k);
      var ds := RowDiffs(colsA, colsB, rowA, rowB);
      if DiffersAt(a.rows, b.rows, key, colsA, colsB, k) {
        var x :| x in a.rows && x[key] == k && RowDiffs(colsA, colsB, x, rowB) != [];
        assert x == rowA;
        assert ds[0] in ds;
      }
      if exists c :: c in a.columns && c in b.columns && c != key && rowA[c] != rowB[c] {
        var c :| c in a.columns && c in b.columns && c != key && rowA[c] != rowB[c];
        assert Diff(c, rowA[c], rowB[c]) in ds;
      }
    }
  }

  /** What each record holds: its key is common to both tables, its
      `Differences` is the comparison of that key's two rows, each entry
      names a column both tables have other than the key, once and in A's
      column order, with A's cell then B's cell, and the two differ. No key
      has two records. */
  lemma MismatchContents(a: Table, b: Table, key: ColName)
    requires WellFormed(a, key) && WellFormed(b, key)
    ensures var ms := Mismatches(a, b, key);
            forall m :: m in ms ==>
              && m.primaryKey in CommonKeys(a, b, key)
              && m.differences == RowDiffs(IndexColumns(a.columns, key), IndexColumns(b.columns, key),
                                           RowWithKey(a.rows, key, m.primaryKey),
                                           RowWithKey(b.rows, key, m.primaryKey))
    ensures var ms := Mismatches(a, b, key);
            forall m, d :: m in ms && d in m.differences ==>
              && d.column in a.columns && d.column in b.columns && d.column != key
              && d.valA == RowWithKey(a.rows, key, m.primaryKey)[d.column]
              && d.valB == RowWithKey(b.rows, key, m.primaryKey)[d.column]
              && d.valA != d.valB
    ensures var ms := Mismatches(a, b, key);
            forall m :: m in ms ==>
              && m.differences != []
              && Distinct(ColumnsOf(m.differences))
              && IsSubsequence(ColumnsOf(m.differences), IndexColumns(a.columns, key))
    ensures UniqueRecordKeys(Mismatches(a, b, key))
  {
    var colsA := IndexColumns(a.columns, key);
    var colsB := IndexColumns(b.columns, key);
    var ms := Mismatches(a, b, key);
    MismatchRecordsRows(a.rows, b.rows, key, colsA, colsB);
    forall m | m in ms
      ensures m.differences == RowDiffs(colsA, colsB, RowWithKey(a.rows, key, m.primaryKey),
                                        RowWithKey(b.rows, key, m.primaryKey))
    {
      var x :| x in a.rows && x[key] == m.primaryKey &&
               m.differences == RowDiffs(colsA, colsB, x, RowWithKey(b.rows, key, m.primaryKey));
      assert x == RowWithKey(a.rows, key, m.primaryKey);
    }
    forall m | m in ms
      ensures IsSubsequence(ColumnsOf(m.differences), colsA)
    {
      RowDiffsOrder(colsA, colsB, RowWithKey(a.rows, key, m.primaryKey), RowWithKey(b.rows, key, m.primaryKey));
    }
    MismatchRecordsUnique(a.rows, b.rows, key, colsA, colsB);
  }


  /** Comparing a table with itself finds no extra rows and no mismatches. */
  lemma SelfComparison(t: Table, key: ColName)
    requires WellFormed(t, key)
    ensures Extra(t, t, key) == []
    ensures Mismatches(t, t, key) == []
  {
    var extra := Extra(t, t, key);
    forall x | x in t.rows ensures x[key] in KeysOf(t.rows, key) {
    }
    NoMembers(extra);
    var ms := Mismatches(t, t, key);
    forall k ensures k !in MismatchKeys(ms) {
      MismatchIff(t, t, key, k);
    }
    assert forall m :: m in ms ==> m.primaryKey in MismatchKeys(ms);
    NoMembers(ms);
  }

  /** Swapping the tables swaps the two extra lists (by definition of
      `Extra`) and leaves the set of mismatching keys unchanged. */
  lemma MismatchSymmetry(a: Table, b: Table, key: ColName)
    requires WellFormed(a, key) && WellFormed(b, key)
    ensures MismatchKeys(Mismatches(a, b, key)) == MismatchKeys(Mismatches(b, a, key))
  {
    forall k ensures k in MismatchKeys(Mismatches(a, b, key)) <==> k in MismatchKeys(Mismatches(b, a, key)) {
      MismatchIff(a, b, key, k);
      MismatchIff(b, a, key, k);
    }
  }
}
