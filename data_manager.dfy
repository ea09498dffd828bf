/** The table store `DataManager`: an in-memory table of eight-column text
    records with its backing file, and the operations the user interface
    calls on it. Every change to the table except sorting ends by rewriting
    the whole file. */
module Store {
  import opened Text
  import opened Rows
  import opened Positions
  import opened Filtering
  import opened Sorting

  class DataManager {
    /** The path of the backing file. */
    const fileName: string
    /** The column names of the loaded table. */
    const columns: seq<string>
    /** The table in its current, possibly sorted, order. */
    var data: seq<Row>
    /** What the backing file holds. */
    var disk: File

    /** The store's invariant: the canonical columns, and no index key twice. */
    ghost predicate Valid()
      reads this
    {
      columns == ColumnNames && DistinctKeys(data)
    }

    /** The file holds the table's records, in the table's order. */
    ghost predicate Persisted()
      reads this
    {
      disk == Csv(Records(data))
    }

    /** `__init__`: remember the path and load the table from the file. */
    constructor (file: File, fileName: string := DefaultFileName)
      ensures Valid()
      ensures this.fileName == fileName && disk == file
      ensures Table(columns, data) == Load(file)
    {
      this.fileName := fileName;
      var t := Load(file);
      columns := t.columns;
      data := t.rows;
      disk := file;
    }

    /** `save_data`: rewrite the whole file from the table. */
    method Save()
      modifies this`disk
      ensures Persisted()
    {
      disk := Csv(Records(data));
    }

    /** `add_data`: `data.loc[len(data)] = new_data`, then save. */
    method Add(newData: seq<string>) returns (outcome: Outcome)
      requires Valid()
      modifies this
      ensures Valid()
      ensures outcome == (if |newData| == ColumnCount then Done else Failed(ShapeError))
      ensures outcome.Failed? ==> data == old(data) && disk == old(disk)
      ensures outcome.Done? ==> Persisted()
      ensures |newData| == ColumnCount && !HasKey(old(data), |old(data)|) ==>
        data == old(data) + [Row(|old(data)|, newData)]
      ensures |newData| == ColumnCount ==>
        forall p :: 0 <= p < |old(data)| && old(data)[p].key == |old(data)| ==>
          data == old(data)[p := Row(|old(data)|, newData)]
      ensures KeysBelowLength(old(data)) ==> KeysBelowLength(data)
    {
      if |newData| != ColumnCount {
        return Failed(ShapeError);
      }
      var n := |data|;
      var record: Record := newData;
      LocAssignEffect(data, n, record);
      if KeysBelowLength(data) {
        assert !HasKey(data, n);
      }
      data := LocAssign(data, n, record);
      Save();
      outcome := Done;
    }

    /** The evidently intended `add_data`: the record becomes a new last
        row under a key that no row carries, whatever was deleted before. */
    method Append(newData: seq<string>) returns (outcome: Outcome)
      requires Valid()
      modifies this
      ensures Valid()
      ensures outcome == (if |newData| == ColumnCount then Done else Failed(ShapeError))
      ensures outcome.Failed? ==> data == old(data) && disk == old(disk)
      ensures outcome.Done? ==> Persisted()
      ensures outcome.Done? ==>
        |data| == |old(data)| + 1 && data[..|old(data)|] == old(data) && data[|old(data)|].fields == newData
      ensures outcome.Done? ==> !HasKey(old(data), data[|old(data)|].key)
    {
      if |newData| != ColumnCount {
        return Failed(ShapeError);
      }
      var record: Record := newData;
      AppendRowKeepsKeysDistinct(data, record);
      data := AppendRow(data, record);
      Save();
      outcome := Done;
    }

    /** `delete_data`: drop the rows at the given positions, then save. */
    method Delete(indices: seq<int>) returns (outcome: Outcome)
      requires Valid()
      modifies this
      ensures Valid()
      ensures outcome == (if forall i :: i in indices ==> InRange(i, |old(data)|) then Done else Failed(IndexError))
      ensures outcome.Failed? ==> data == old(data) && disk == old(disk)
      ensures outcome.Done? ==> Persisted()
      ensures outcome.Done? ==>
        data == Pick(old(data), Kept(|old(data)|, PositionSet(indices, |old(data)|)))
      ensures outcome.Done? ==> |data| == |old(data)| - |PositionSet(indices, |old(data)|)|
    {
      var n := |data|;
      if exists i :: i in indices && !InRange(i, n) {
        return Failed(IndexError);
      }
      var gone := PositionSet(indices, n);
      var keys := set i | i in indices :: data[Resolve(i, n)].key;
      ghost var before := data;
      forall p | 0 <= p < n
        ensures before[p].key in keys <==> p in gone
      {
        if before[p].key in keys {
          var i :| i in indices && before[Resolve(i, n)].key == before[p].key;
          assert Resolve(i, n) == p;
        }
      }
      DropKeysIsPick(data, keys, gone);
      KeptLength(n, gone);
      KeptIncreasing(n, gone);
      PickKeepsKeysDistinct(data, Kept(n, gone));
      data := DropKeys(data, keys);
      Save();
      outcome := Done;
    }

    /** `update_data`: `data.iloc[index] = updated_data`, then save. */
    method Update(index: int, newData: seq<string>) returns (outcome: Outcome)
      requires Valid()
      modifies this
      ensures Valid()
      ensures outcome ==
        if !InRange(index, |old(data)|) then Failed(IndexError)
        else if |newData| != ColumnCount then Failed(ShapeError)
        else Done
      ensures outcome.Failed? ==> data == old(data) && disk == old(disk)
      ensures outcome.Done? ==> Persisted() && |data| == |old(data)|
      ensures outcome.Done? ==> data[Resolve(index, |data|)].fields == newData
      ensures outcome.Done? ==> forall p :: 0 <= p < |data| ==>
        data[p].key == old(data)[p].key && (p != Resolve(index, |data|) ==> data[p] == old(data)[p])
      ensures KeysBelowLength(old(data)) ==> KeysBelowLength(data)
    {
      var n := |data|;
      if !InRange(index, n) {
        return Failed(IndexError);
      }
      if |newData| != ColumnCount {
        return Failed(ShapeError);
      }
      var p := Resolve(index, n);
      var record: Record := newData;
      ghost var before := data;
      data := data[p := Row(data[p].key, record)];
      if KeysBelowLength(before) {
        forall r | r in data
          ensures r.key < |data|
        {
          var q :| 0 <= q < |data| && data[q] == r;
          assert before[q] in before;
        }
      }
      Save();
      outcome := Done;
    }

    /** `search_data`: narrow a copy of the table column by column. The
        source's single loop is split at the eighth column: past it a
        value either adds nothing or, being non-empty, has no column name. */
    method Search(values: seq<string>) returns (result: Result<seq<Row>>)
      ensures result.Failure? <==> exists i :: ColumnCount <= i < |values| && |values[i]| > 0
      ensures result.Failure? ==> result.error == IndexError
      ensures result.Success? ==> result.value == Select(data, values)
    {
      var rows := data;
      var filtered := rows;
      var named := if |values| < ColumnCount then |values| else ColumnCount;
      SelectAllEmpty(rows, values[..0]);
      for i := 0 to named
        invariant filtered == Select(rows, values[..i])
      {
        if |values[i]| > 0 {
          SelectNarrow(rows, values, i);
          filtered := KeepMatching(filtered, i, values[i]);
        } else {
          SelectSkip(rows, values, i);
        }
      }
      for i := named to |values|
        invariant forall k :: ColumnCount <= k < i ==> |values[k]| == 0
      {
        if |values[i]| > 0 {
          return Failure(IndexError);
        }
      }
      SelectFirstColumns(rows, values, named);
      return Success(filtered);
    }

    /** `sort_data`: reorder the table by a known column; not saved. */
    method Sort(sortBy: string, ascending: bool) returns (view: seq<Row>)
      requires Valid()
      modifies this`data
      ensures Valid() && view == data && disk == old(disk)
      ensures sortBy !in columns ==> data == old(data)
      ensures multiset(data) == multiset(old(data))
      ensures sortBy in columns ==>
        ColumnIndex(sortBy).Some? && Ordered(data, ColumnIndex(sortBy).value, ascending)
      ensures KeysBelowLength(old(data)) ==> KeysBelowLength(data)
    {
      match ColumnIndex(sortBy) {
        case None =>
        case Some(c) =>
          SortRowsOrdered(data, c, ascending);
          SortRowsKeepsKeysDistinct(data, c, ascending);
          ghost var before := data;
          data := SortRows(data, c, ascending);
          assert forall r :: r in data ==> r in multiset(before);
      }
      view := data;
    }
  }

  /** Adding a record to a freshly loaded table and reading the file back:
      the record comes last, after the records that were loaded. */
  method AddThenReload(file: File, record: Record) returns (reloaded: Table)
    ensures reloaded.columns == ColumnNames
    ensures Records(reloaded.rows) == Records(Load(file).rows) + [record]
  {
    var store := new DataManager(file);
    ghost var loaded := store.data;
    assert !HasKey(loaded, |loaded|);
    var outcome := store.Add(record);
    reloaded := Load(store.disk);
    assert Records(store.data) == Records(loaded) + [record];
  }

  /** Loading three records keys them 0, 1 and 2. */
  lemma LoadThree(a: Record, b: Record, c: Record)
    ensures Load(Csv([a, b, c])).rows == [Row(0, a), Row(1, b), Row(2, c)]
  {
    var rows := Load(Csv([a, b, c])).rows;
    assert Records(rows) == [a, b, c];
  }

  /** Positions 0 and 2 of three rows name those two rows. */
  lemma OuterPositions()
    ensures PositionSet([0, 2], 3) == {0, 2}
  {
    var indices := [0, 2];
    forall p | p in PositionSet(indices, 3)
      ensures p == 0 || p == 2
    {
      var i :| i in indices && Resolve(i, 3) == p;
    }
    assert Resolve(indices[0], 3) in PositionSet(indices, 3);
    assert Resolve(indices[1], 3) in PositionSet(indices, 3);
  }

  /** Deleting positions 0 and 2 of three rows keeps the middle one. */
  lemma PickMiddle(rows: seq<Row>)
    requires |rows| == 3
    ensures Pick(rows, Kept(3, PositionSet([0, 2], 3))) == [rows[1]]
  {
    OuterPositions();
    KeptWithoutOuter();
    assert Pick(rows, [1]) == [rows[1]];
  }

  /** Without positions 0 and 2, position 1 of three is kept. */
  lemma KeptWithoutOuter()
    ensures Kept(3, {0, 2}) == [1]
  {
    assert Kept(1, {0, 2}) == [];
    assert Kept(2, {0, 2}) == [1];
  }

  /** Deleting positions 0 and 2 of a three-row table leaves the middle row. */
  method DeleteOuterRows(a: Record, b: Record, c: Record) returns (left: seq<Row>)
    ensures left == [Row(1, b)]
  {
    var store := new DataManager(Csv([a, b, c]));
    LoadThree(a, b, c);
    PickMiddle(store.data);
    var outcome := store.Delete([0, 2]);
    left := store.data;
  }

  /** Position 0 of three rows names that row alone. */
  lemma FirstPosition()
    ensures PositionSet([0], 3) == {0}
  {
    var indices := [0];
    forall p | p in PositionSet(indices, 3)
      ensures p == 0
    {
      var i :| i in indices && Resolve(i, 3) == p;
    }
    assert Resolve(indices[0], 3) in PositionSet(indices, 3);
  }

  /** Without position 0, positions 1 and 2 of three are kept. */
  lemma KeptWithoutFirst()
    ensures Kept(3, {0}) == [1, 2]
  {
    assert Kept(1, {0}) == [];
    assert Kept(2, {0}) == [1];
  }

  /** Deleting position 0 of three rows keeps the other two, in order. */
  lemma PickTail(rows: seq<Row>)
    requires |rows| == 3
    ensures Pick(rows, Kept(3, PositionSet([0], 3))) == [rows[1], rows[2]]
  {
    FirstPosition();
    KeptWithoutFirst();
    assert Pick(rows, [1, 2]) == [rows[1], rows[2]];
  }

  /** Deleting the first of three loaded rows and then adding a record
      overwrites the last row: `len(data)` is 2, the key the last row kept. */
  method DeleteThenAdd(a: Record, b: Record, c: Record, x: Record)
    returns (afterDelete: seq<Row>, afterAdd: seq<Row>)
    ensures afterDelete == [Row(1, b), Row(2, c)]
    ensures afterAdd == [Row(1, b), Row(2, x)]
  {
    var store := new DataManager(Csv([a, b, c]));
    LoadThree(a, b, c);
    PickTail(store.data);
    var outcome := store.Delete([0]);
    afterDelete := store.data;
    assert afterDelete[1].key == |afterDelete|;
    outcome := store.Add(x);
    afterAdd := store.data;
  }

  /** Searching two loaded rows by country: "US" finds the second row
      alone, "DE" finds nothing and is not an error. */
  method SearchByCountry(vn: Record, us: Record) returns (foundUs: Result<seq<Row>>, foundDe: Result<seq<Row>>)
    requires vn[1] == "VN" && us[1] == "US"
    ensures foundUs == Success([Row(1, us)])
    ensures foundDe == Success([])
  {
    var store := new DataManager(Csv([vn, us]));
    var rows := store.data;
    assert rows == [Row(0, vn), Row(1, us)] by {
      assert Records(rows) == [vn, us];
    }
    var byUs, byDe := ByCountry("US"), ByCountry("DE");
    CountryTests();
    CountryOnly(rows[0], "US");
    CountryOnly(rows[1], "US");
    CountryOnly(rows[0], "DE");
    CountryOnly(rows[1], "DE");
    SelectTwo(rows, byUs);
    SelectTwo(rows, byDe);
    assert Select(rows, byUs) == [Row(1, us)];
    assert Select(rows, byDe) == [];
    foundUs := store.Search(byUs);
    foundDe := store.Search(byDe);
  }

  /** The search values that test the country column alone. */
  function ByCountry(country: string): (values: seq<string>)
    ensures |values| == ColumnCount && values[1] == country
    ensures forall i :: 0 <= i < |values| && i != 1 ==> values[i] == ""
  {
    ["", country, "", "", "", "", "", ""]
  }

  /** Searching by country alone tests the country cell alone. */
  lemma CountryOnly(row: Row, country: string)
    ensures RowMatches(row, ByCountry(country)) <==> CellMatches(row.fields[1], country)
  {
    RowMatchesEvery(row, ByCountry(country));
  }

  /** The selection from two rows, spelled out. */
  lemma SelectTwo(rows: seq<Row>, values: seq<string>)
    requires |rows| == 2
    ensures Select(rows, values) ==
      (if RowMatches(rows[0], values) then [rows[0]] else []) +
      (if RowMatches(rows[1], values) then [rows[1]] else [])
  {
    assert rows[..1][..0] == [];
  }

  /** The case-insensitive tests of the country scenario. */
  lemma CountryTests()
    ensures ContainsIgnoreCase("US", "US") && !ContainsIgnoreCase("VN", "US")
    ensures !ContainsIgnoreCase("US", "DE") && !ContainsIgnoreCase("VN", "DE")
  {
    assert Lower("US") == "us" && Lower("VN") == "vn" && Lower("DE") == "de";
    assert IsPrefix("us", "us");
    TwoLettersApart("vn", "us");
    TwoLettersApart("us", "de");
    TwoLettersApart("vn", "de");
  }

  /** A two-letter string occurs in another only as its whole. */
  lemma TwoLettersApart(hay: string, needle: string)
    requires |hay| == 2 && |needle| == 2 && hay[0] != needle[0]
    ensures !Contains(hay, needle)
  {
    assert hay[..2] != needle by {
      assert hay[..2][0] != needle[0];
    }
    assert !Contains(hay[1..], needle) by {
      assert !Contains(hay[1..][1..], needle);
    }
  }

  /** With the intended add, deleting the first of three loaded rows and
      then adding a record keeps both survivors and puts the record last. */
  method DeleteThenAppend(a: Record, b: Record, c: Record, x: Record) returns (afterAppend: seq<Record>)
    ensures afterAppend == [b, c, x]
  {
    var store := new DataManager(Csv([a, b, c]));
    LoadThree(a, b, c);
    PickTail(store.data);
    var outcome := store.Delete([0]);
    ghost var survivors := store.data;
    outcome := store.Append(x);
    afterAppend := Records(store.data);
    assert store.data[..2] == survivors;
  }
}
