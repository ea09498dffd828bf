/** The data model of the table store: the eight canonical columns, a row as
    its pandas index label (the `key` field) plus its eight text fields, the
    backing file, and the key bookkeeping that `DataFrame.loc` enlargement relies on. */
module Rows {

  const ColumnCount: nat := 8

  const ColumnNames: seq<string> :=
    ["Student ID", "Student Country", "Question ID", "Type of Answer",
     "Question Level", "Topic", "Subtopic", "Keywords"]

  /** The path `DataManager.__init__` uses when none is given. */
  const DefaultFileName: string := "./data/dataset.csv"

  /** One record: a value for each of the eight columns, in column order. */
  type Record = s: seq<string> | |s| == ColumnCount
    witness ["", "", "", "", "", "", "", ""]

  /** A row of the in-memory table: its index key and its fields. */
  datatype Row = Row(key: nat, fields: Record)

  /** A table as `load_data` returns it: column names and rows. */
  datatype Table = Table(columns: seq<string>, rows: seq<Row>)

  /** What the backing file holds: nothing, something `read_csv` rejects,
      or a semicolon-separated file with the canonical header and records. */
  datatype File = Missing | Unreadable | Csv(records: seq<Record>)

  /** The exceptions the store lets through to its caller. */
  datatype Error = ShapeError | IndexError

  datatype Outcome = Done | Failed(error: Error)

  datatype Result<T> = Success(value: T) | Failure(error: Error)

  datatype Option<T> = None | Some(value: T)

  /** The rows' fields without their keys: what `to_csv(index=False)` writes. */
  function Records(rows: seq<Row>): (recs: seq<Record>)
    ensures |recs| == |rows|
    ensures forall i :: 0 <= i < |rows| ==> recs[i] == rows[i].fields
  {
    if rows == [] then [] else [rows[0].fields] + Records(rows[1..])
  }

  /** No two rows carry the same index key. */
  ghost predicate DistinctKeys(rows: seq<Row>)
  {
    forall i, j :: 0 <= i < j < |rows| ==> rows[i].key != rows[j].key
  }

  /** Every key is below the row count, as right after a load. */
  ghost predicate KeysBelowLength(rows: seq<Row>)
  {
    forall r :: r in rows ==> r.key < |rows|
  }

  predicate HasKey(rows: seq<Row>, key: nat)
  {
    exists p :: 0 <= p < |rows| && rows[p].key == key
  }

  /** `load_data`: the parsed file with keys 0..n-1, and the empty table
      with the canonical columns when the file is missing or unreadable. */
  function Load(file: File): (t: Table)
    ensures t.columns == ColumnNames
    ensures !file.Csv? ==> t.rows == []
    ensures file.Csv? ==> Records(t.rows) == file.records
    ensures forall p :: 0 <= p < |t.rows| ==> t.rows[p].key == p
    ensures DistinctKeys(t.rows) && KeysBelowLength(t.rows)
  {
    match file
    case Csv(recs) => Table(ColumnNames, seq(|recs|, p requires 0 <= p < |recs| => Row(p, recs[p])))
    case _ => Table(ColumnNames, [])
  }

  /** Saving a table and loading it back gives the same records in the
      same order, with the keys renumbered 0..n-1. */
  lemma SaveThenLoad(rows: seq<Row>)
    ensures Records(Load(Csv(Records(rows))).rows) == Records(rows)
    ensures |Load(Csv(Records(rows))).rows| == |rows|
  {
  }

  /** `DataFrame.loc[key] = fields`: every row carrying `key` is
      overwritten, and when none does a row is appended under `key`. */
  function LocAssign(rows: seq<Row>, key: nat, fields: Record): (r: seq<Row>)
    ensures |r| == if HasKey(rows, key) then |rows| else |rows| + 1
    ensures HasKey(r, key)
    ensures forall p :: 0 <= p < |r| && r[p].key == key ==> r[p].fields == fields
    ensures forall p :: 0 <= p < |rows| && rows[p].key != key ==> r[p] == rows[p]
  {
    if HasKey(rows, key) then
      var r := seq(|rows|, p requires 0 <= p < |rows| =>
        if rows[p].key == key then Row(key, fields) else rows[p]);
      assert forall p :: 0 <= p < |rows| && rows[p].key == key ==> r[p].key == key;
      r
    else
      assert (rows + [Row(key, fields)])[|rows|].key == key;
      rows + [Row(key, fields)]
  }

  /** With distinct keys, assigning to a present key overwrites exactly
      the one row that carries it; to an absent one appends. */
  lemma LocAssignEffect(rows: seq<Row>, key: nat, fields: Record)
    requires DistinctKeys(rows)
    ensures !HasKey(rows, key) ==> LocAssign(rows, key, fields) == rows + [Row(key, fields)]
    ensures forall p :: 0 <= p < |rows| && rows[p].key == key ==>
      LocAssign(rows, key, fields) == rows[p := Row(key, fields)]
    ensures DistinctKeys(LocAssign(rows, key, fields))
  {
    var r := LocAssign(rows, key, fields);
    forall p | 0 <= p < |rows| && rows[p].key == key
      ensures r == rows[p := Row(key, fields)]
    {
      assert HasKey(rows, key);
      forall q | 0 <= q < |rows|
        ensures r[q] == rows[p := Row(key, fields)][q]
      {
        if q != p {
          assert rows[q].key != key;
        }
      }
    }
    if !HasKey(rows, key) {
      forall i, j | 0 <= i < j < |r|
        ensures r[i].key != r[j].key
      {
        if j == |rows| {
          assert r[i] == rows[i];
        }
      }
    } else {
      var p :| 0 <= p < |rows| && rows[p].key == key;
      assert r == rows[p := Row(key, fields)];
    }
  }

  /** The key one past the largest present, or 0 for an empty table. */
  function NextKey(rows: seq<Row>): (l: nat)
    ensures forall r :: r in rows ==> r.key < l
  {
    if rows == [] then 0
    else
      var rest := NextKey(rows[1..]);
      assert forall r :: r in rows ==> r == rows[0] || r in rows[1..];
      if rows[0].key < rest then rest else rows[0].key + 1
  }

  /** Appending under a key that no row carries: the intended effect of
      adding a record, whatever deletions came before. */
  function AppendRow(rows: seq<Row>, fields: Record): (r: seq<Row>)
    ensures |r| == |rows| + 1 && r[..|rows|] == rows && r[|rows|].fields == fields
    ensures !HasKey(rows, r[|rows|].key)
  {
    rows + [Row(NextKey(rows), fields)]
  }

  lemma AppendRowKeepsKeysDistinct(rows: seq<Row>, fields: Record)
    requires DistinctKeys(rows)
    ensures DistinctKeys(AppendRow(rows, fields))
  {
    var r := AppendRow(rows, fields);
    forall i, j | 0 <= i < j < |r|
      ensures r[i].key != r[j].key
    {
      if j == |rows| {
        assert r[i] == rows[i];
      }
    }
  }

  /** Looking up a column by name, as `sort_by in data.columns` does. */
  function ColumnIndex(name: string): (c: Option<nat>)
    ensures c.Some? ==> c.value < ColumnCount && ColumnNames[c.value] == name
    ensures c.None? <==> name !in ColumnNames
  {
    IndexOf(ColumnNames, name)
  }

  function IndexOf<T(==)>(s: seq<T>, x: T): (c: Option<nat>)
    ensures c.Some? ==> c.value < |s| && s[c.value] == x
    ensures c.None? <==> x !in s
  {
    if s == [] then None
    else if s[0] == x then Some(0)
    else
      match IndexOf(s[1..], x)
      case None => None
      case Some(k) => Some(k + 1)
  }
}
