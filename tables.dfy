/** The data model shared by the reconciliation: a table read from a CSV
    file, its rows, and the key column the two tables are joined on.

    A cell is the text pandas would produce with `str(...)` for the value, so
    comparing two cells as strings is the comparison `find_differences` makes.
    The cell is taken as it stands in its own column: the upcast `df.loc[k]`
    applies to a row of an all-numeric frame (an int `100` read as `100.0`
    next to a float column) is not modelled. */
module Tables {

  type Cell = string
  type ColName = string

  /** One row of a data frame: the cell held under each column name. */
  type Row = map<ColName, Cell>

  /** A data frame: its column names in file order and its rows in file order. */
  datatype Table = Table(columns: seq<ColName>, rows: seq<Row>)

  predicate Distinct(s: seq<ColName>) {
    forall i, j :: 0 <= i < j < |s| ==> s[i] != s[j]
  }

  /** Every row holds a cell under the key column. */
  predicate HasKey(rows: seq<Row>, key: ColName) {
    forall r :: r in rows ==> key in r
  }

  /** Every row holds a cell under each of the given columns. */
  predicate HasCells(rows: seq<Row>, cols: seq<ColName>) {
    forall r, c :: r in rows && c in cols ==> c in r
  }

  /** No two rows share a key value, so `set_index(key)` gives a unique index. */
  predicate UniqueKeys(rows: seq<Row>, key: ColName)
    requires HasKey(rows, key)
  {
    forall i, j :: 0 <= i < j < |rows| ==> rows[i][key] != rows[j][key]
  }

  /** What the reconciliation needs of each input table: the key is one of its
      columns, the column names are unique (pandas renames repeated headers),
      every row has a cell for every column, and key values are unique. */
  predicate WellFormed(t: Table, key: ColName) {
    && key in t.columns
    && Distinct(t.columns)
    && HasCells(t.rows, t.columns)
    && HasKey(t.rows, key)
    && UniqueKeys(t.rows, key)
  }

  /** The index of a frame after `set_index(key)`: the set of its key values. */
  function KeysOf(rows: seq<Row>, key: ColName): set<Cell>
    requires HasKey(rows, key)
  {
    set r | r in rows :: r[key]
  }

  /** `df.loc[k]` on a key the frame's index holds: the first row carrying
      that key, and under unique keys the only one. */
  function RowWithKey(rows: seq<Row>, key: ColName, k: Cell): (r: Row)
    requires HasKey(rows, key)
    requires k in KeysOf(rows, key)
    ensures r in rows && key in r && r[key] == k
    ensures UniqueKeys(rows, key) ==> forall x :: x in rows && x[key] == k ==> x == r
  {
    if rows[0][key] == k then rows[0]
    else
      assert k in KeysOf(rows[1..], key) by {
        var x :| x in rows && x[key] == k;
        assert x in rows[1..];
      }
      RowWithKey(rows[1..], key, k)
  }

  /** `r` keeps some of the elements of `s`, in the order `s` has them. */
  ghost predicate IsSubsequence<T>(r: seq<T>, s: seq<T>)
    decreases |s|
  {
    if r == [] then true
    else if s == [] then false
    else
      || (r[|r| - 1] == s[|s| - 1] && IsSubsequence(r[..|r| - 1], s[..|s| - 1]))
      || IsSubsequence(r, s[..|s| - 1])
  }

  /** An element other than the last lies in the prefix. */
  lemma PrefixMember<T>(s: seq<T>, x: T)
    requires x in s && x != s[|s| - 1]
    ensures x in s[..|s| - 1]
  {
  }

  /** A sequence with no element is empty. */
  lemma NoMembers<T>(s: seq<T>)
    ensures (forall x :: x !in s) ==> s == []
  {
    if s != [] {
      assert s[0] in s;
    }
  }
}
