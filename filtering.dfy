/** The search of the table store: an AND of case-insensitive substring
    tests, one per column, where an empty search value tests nothing. */
module Filtering {
  import opened Text
  import opened Rows
  import opened Positions

  /** The test one search value puts on one cell. */
  predicate CellMatches(cell: string, value: string)
  {
    value == "" || ContainsIgnoreCase(cell, value)
  }

  /** A row passes the tests of `values`, taken in order; a value past the
      eighth column tests nothing. */
  predicate RowMatches(row: Row, values: seq<string>)
    decreases |values|
  {
    values == [] ||
      var i := |values| - 1;
      RowMatches(row, values[..i]) && (i >= ColumnCount || CellMatches(row.fields[i], values[i]))
  }

  /** A row passes exactly when every value that names one of the eight
      columns matches that column's cell. */
  lemma {:induction false} RowMatchesEvery(row: Row, values: seq<string>)
    ensures RowMatches(row, values) <==>
      forall i :: 0 <= i < |values| && i < ColumnCount ==> CellMatches(row.fields[i], values[i])
    decreases |values|
  {
    if values != [] {
      var i := |values| - 1;
      RowMatchesEvery(row, values[..i]);
      assert forall k :: 0 <= k < i ==> values[..i][k] == values[k];
    }
  }

  /** The rows of `rows` that pass, in their original order. */
  function Select(rows: seq<Row>, values: seq<string>): (r: seq<Row>)
    ensures |r| <= |rows|
  {
    if rows == [] then []
    else
      var last := rows[|rows| - 1];
      Select(rows[..|rows| - 1], values) + (if RowMatches(last, values) then [last] else [])
  }

  /** The one-column mask `data[data[column].str.contains(value, case=False)]`. */
  function KeepMatching(rows: seq<Row>, col: nat, value: string): (r: seq<Row>)
    requires col < ColumnCount
    ensures |r| <= |rows|
  {
    if rows == [] then []
    else
      var last := rows[|rows| - 1];
      KeepMatching(rows[..|rows| - 1], col, value)
        + (if ContainsIgnoreCase(last.fields[col], value) then [last] else [])
  }

  /** The mask keeps exactly the rows whose cell in column `col` contains
      the value, ignoring case. */
  lemma {:induction false} KeepMatchingMembers(rows: seq<Row>, col: nat, value: string)
    requires col < ColumnCount
    ensures forall x :: x in KeepMatching(rows, col, value) <==>
      x in rows && ContainsIgnoreCase(x.fields[col], value)
    decreases |rows|
  {
    if rows != [] {
      var front := rows[..|rows| - 1];
      KeepMatchingMembers(front, col, value);
      assert rows == front + [rows[|rows| - 1]];
    }
  }

  lemma KeepMatchingSnoc(rows: seq<Row>, x: Row, col: nat, value: string)
    requires col < ColumnCount
    ensures KeepMatching(rows + [x], col, value) ==
      KeepMatching(rows, col, value) + (if ContainsIgnoreCase(x.fields[col], value) then [x] else [])
  {
    assert (rows + [x])[..|rows + [x]| - 1] == rows;
  }

  /** The tests of the first `i + 1` values are those of the first `i` and
      the test of value `i`. */
  lemma RowMatchesExtend(row: Row, values: seq<string>, i: nat)
    requires i < |values|
    ensures RowMatches(row, values[..i + 1]) <==>
      RowMatches(row, values[..i]) && (i >= ColumnCount || CellMatches(row.fields[i], values[i]))
  {
    assert values[..i + 1][..i] == values[..i];
    assert values[..i + 1][i] == values[i];
  }

  /** Narrowing by column `i` turns the search on the first `i` values into
      the search on the first `i + 1`. */
  lemma {:induction false} SelectNarrow(rows: seq<Row>, values: seq<string>, i: nat)
    requires i < |values| && i < ColumnCount && values[i] != ""
    ensures KeepMatching(Select(rows, values[..i]), i, values[i]) == Select(rows, values[..i + 1])
    decreases |rows|
  {
    if rows != [] {
      var front := rows[..|rows| - 1];
      var last := rows[|rows| - 1];
      var before, after := values[..i], values[..i + 1];
      SelectNarrow(front, values, i);
      RowMatchesExtend(last, values, i);
      var a := Select(front, before);
      if RowMatches(last, before) {
        assert Select(rows, before) == a + [last];
        KeepMatchingSnoc(a, last, i, values[i]);
      } else {
        assert Select(rows, before) == a;
        assert !RowMatches(last, after);
      }
    }
  }

  /** An empty value, or one past the eighth column, adds no test. */
  lemma {:induction false} SelectSkip(rows: seq<Row>, values: seq<string>, i: nat)
    requires i < |values| && (values[i] == "" || i >= ColumnCount)
    ensures Select(rows, values[..i + 1]) == Select(rows, values[..i])
    decreases |rows|
  {
    if rows != [] {
      SelectSkip(rows[..|rows| - 1], values, i);
      RowMatchesExtend(rows[|rows| - 1], values, i);
    }
  }

  /** Values past the eighth column add no test: only the first
      `min(|values|, 8)` values decide the selection. */
  lemma {:induction false} SelectFirstColumns(rows: seq<Row>, values: seq<string>, m: nat)
    requires m == if |values| < ColumnCount then |values| else ColumnCount
    ensures Select(rows, values) == Select(rows, values[..m])
    decreases |rows|
  {
    if rows != [] {
      SelectFirstColumns(rows[..|rows| - 1], values, m);
      var last := rows[|rows| - 1];
      RowMatchesEvery(last, values);
      RowMatchesEvery(last, values[..m]);
      assert forall k :: 0 <= k < m ==> values[..m][k] == values[k];
    }
  }

  /** Exactly the rows that pass every test are selected. */
  lemma {:induction false} SelectMembers(rows: seq<Row>, values: seq<string>)
    ensures forall x :: x in Select(rows, values) <==> x in rows && RowMatches(x, values)
    decreases |rows|
  {
    if rows != [] {
      var front := rows[..|rows| - 1];
      SelectMembers(front, values);
      assert rows == front + [rows[|rows| - 1]];
    }
  }

  /** The selection is the subsequence of `rows` at the ascending positions
      of the passing rows: the failing positions are exactly the ones left out. */
  lemma {:induction false} SelectIsPick(rows: seq<Row>, values: seq<string>, failing: set<int>)
    requires forall p :: 0 <= p < |rows| ==> (p in failing <==> !RowMatches(rows[p], values))
    ensures Select(rows, values) == Pick(rows, Kept(|rows|, failing))
    decreases |rows|
  {
    if rows != [] {
      SelectIsPick(rows[..|rows| - 1], values, failing);
      PickKeptLast(rows, failing);
    }
  }

  /** With every value empty the whole table is returned. */
  lemma {:induction false} SelectAllEmpty(rows: seq<Row>, values: seq<string>)
    requires forall i :: 0 <= i < |values| ==> values[i] == ""
    ensures Select(rows, values) == rows
    decreases |rows|
  {
    if rows != [] {
      SelectAllEmpty(rows[..|rows| - 1], values);
      RowMatchesEvery(rows[|rows| - 1], values);
      assert rows == rows[..|rows| - 1] + [rows[|rows| - 1]];
    }
  }

  /** When no row passes, the result is empty rather than an error. */
  lemma {:induction false} SelectNoMatch(rows: seq<Row>, values: seq<string>)
    requires forall x :: x in rows ==> !RowMatches(x, values)
    ensures Select(rows, values) == []
    decreases |rows|
  {
    if rows != [] {
      var front := rows[..|rows| - 1];
      assert forall x :: x in front ==> x in rows;
      SelectNoMatch(front, values);
      assert rows[|rows| - 1] in rows;
    }
  }
}
