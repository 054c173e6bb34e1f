/** The flattening of app.py that turns the `mismatches` list into the rows
    of the mismatch table: one row per entry of each record's `Differences`,
    carrying the record's key, the column and the two cells. */
module MismatchRows {
  import opened Tables
  import opened Differences

  /** `{"Primary Key": k, "Column": col, "File A": val_a, "File B": val_b}` */
  datatype MismatchRow = MismatchRow(primaryKey: Cell, column: ColName, fileA: Cell, fileB: Cell)

  /** The rows one record expands to, in the order of its `Differences`. */
  function RowsOf(m: Mismatch): seq<MismatchRow> {
    seq(|m.differences|, i requires 0 <= i < |m.differences| =>
      MismatchRow(m.primaryKey, m.differences[i].column, m.differences[i].valA, m.differences[i].valB))
  }

  /** All records expanded one after the other. */
  function Flatten(ms: seq<Mismatch>): seq<MismatchRow>
    decreases |ms|
  {
    if ms == [] then [] else Flatten(ms[..|ms| - 1]) + RowsOf(ms[|ms| - 1])
  }

  /** The number of entries over all `Differences` maps. */
  function TotalDifferences(ms: seq<Mismatch>): nat
    decreases |ms|
  {
    if ms == [] then 0 else TotalDifferences(ms[..|ms| - 1]) + |ms[|ms| - 1].differences|
  }

  /** The nested loop that builds `mismatch_rows`. */
  method FlattenMismatches(ms: seq<Mismatch>) returns (rows: seq<MismatchRow>)
    ensures rows == Flatten(ms)
  {
    rows := [];
    var i := 0;
    while i < |ms|
      invariant 0 <= i <= |ms|
      invariant rows == Flatten(ms[..i])
    {
      var m := ms[i];
      var keyVal := m.primaryKey;
      var j := 0;
      while j < |m.differences|
        invariant 0 <= j <= |m.differences|
        invariant rows == Flatten(ms[..i]) + RowsOf(m)[..j]
      {
        var d := m.differences[j];
        rows := rows + [MismatchRow(keyVal, d.column, d.valA, d.valB)];
        assert RowsOf(m)[..j + 1] == RowsOf(m)[..j] + [RowsOf(m)[j]];
        j := j + 1;
      }
      assert ms[..i + 1][..i] == ms[..i];
      assert RowsOf(m)[..j] == RowsOf(m);
      i := i + 1;
    }
    assert ms[..i] == ms;
  }

  /** As many rows as there are entries over all `Differences` maps. */
  lemma {:induction false} FlattenCount(ms: seq<Mismatch>)
    ensures |Flatten(ms)| == TotalDifferences(ms)
    decreases |ms|
  {
    if ms != [] {
      FlattenCount(ms[..|ms| - 1]);
    }
  }

  /** A row is emitted exactly when some record carries its key and holds its
      column with its two cells among its `Differences`. */
  lemma {:induction false} FlattenMembers(ms: seq<Mismatch>, row: MismatchRow)
    ensures row in Flatten(ms) <==>
              exists m :: m in ms && m.primaryKey == row.primaryKey &&
                Diff(row.column, row.fileA, row.fileB) in m.differences
    decreases |ms|
  {
    if ms != [] {
      var init := ms[..|ms| - 1];
      var last := ms[|ms| - 1];
      FlattenMembers(init, row);
      var d := Diff(row.column, row.fileA, row.fileB);
      assert row in RowsOf(last) <==> last.primaryKey == row.primaryKey && d in last.differences by {
        if row in RowsOf(last) {
          var i :| 0 <= i < |RowsOf(last)| && RowsOf(last)[i] == row;
          assert last.differences[i] == d;
        }
        if last.primaryKey == row.primaryKey && d in last.differences {
          var i :| 0 <= i < |last.differences| && last.differences[i] == d;
          assert RowsOf(last)[i] == row;
        }
      }
      if exists m :: m in ms && m.primaryKey == row.primaryKey && d in m.differences {
        var m :| m in ms && m.primaryKey == row.primaryKey && d in m.differences;
        if m != last {
          PrefixMember(ms, m);
        }
      }
    }
  }

  /** Every row of the mismatch table names a column both files have other
      than the key, holds A's and B's cells for that key and column, and the
      two differ. */
  lemma MismatchRowsDiffer(a: Table, b: Table, key: ColName)
    requires WellFormed(a, key) && WellFormed(b, key)
    ensures forall row :: row in Flatten(Mismatches(a, b, key)) ==>
              && row.primaryKey in CommonKeys(a, b, key)
              && row.column in a.columns && row.column in b.columns && row.column != key
              && row.fileA == RowWithKey(a.rows, key, row.primaryKey)[row.column]
              && row.fileB == RowWithKey(b.rows, key, row.primaryKey)[row.column]
              && row.fileA != row.fileB
  {
    var ms := Mismatches(a, b, key);
    MismatchContents(a, b, key);
    forall row | row in Flatten(ms)
      ensures row.primaryKey in CommonKeys(a, b, key)
      ensures row.column in a.columns && row.column in b.columns && row.column != key
      ensures row.fileA == RowWithKey(a.rows, key, row.primaryKey)[row.column]
      ensures row.fileB == RowWithKey(b.rows, key, row.primaryKey)[row.column]
      ensures row.fileA != row.fileB
    {
      FlattenMembers(ms, row);
      var m :| m in ms && m.primaryKey == row.primaryKey &&
               Diff(row.column, row.fileA, row.fileB) in m.differences;
    }
  }
}
