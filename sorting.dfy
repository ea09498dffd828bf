/** Sorting the table by one column, ascending or descending, under the
    code-point order of strings. Ties may come out in any order. */
module Sorting {
  import opened Text
  import opened Rows

  /** `a` may precede `b` in the requested direction. */
  predicate KeyLe(a: string, b: string, ascending: bool)
  {
    if ascending then StrLe(a, b) else StrLe(b, a)
  }

  /** Every pair of rows is in the requested order on column `col`. */
  predicate Ordered(rows: seq<Row>, col: nat, ascending: bool)
    requires col < ColumnCount
  {
    forall i, j :: 0 <= i < j < |rows| ==> KeyLe(rows[i].fields[col], rows[j].fields[col], ascending)
  }

  lemma KeyLeTotal(a: string, b: string, ascending: bool)
    ensures KeyLe(a, b, ascending) || KeyLe(b, a, ascending)
  {
    StrLeTotal(a, b);
  }

  lemma KeyLeTransitive(a: string, b: string, c: string, ascending: bool)
    requires KeyLe(a, b, ascending) && KeyLe(b, c, ascending)
    ensures KeyLe(a, c, ascending)
  {
    if ascending {
      StrLeTransitive(a, b, c);
    } else {
      StrLeTransitive(c, b, a);
    }
  }

  /** `x` placed before the first row it may precede. */
  function Insert(x: Row, s: seq<Row>, col: nat, ascending: bool): (r: seq<Row>)
    requires col < ColumnCount
    ensures multiset(r) == multiset(s) + multiset{x}
  {
    if s == [] then [x]
    else if KeyLe(x.fields[col], s[0].fields[col], ascending) then [x] + s
    else
      assert s == [s[0]] + s[1..];
      [s[0]] + Insert(x, s[1..], col, ascending)
  }

  /** A reference sort (insertion sort) standing for `sort_values`. */
  function SortRows(s: seq<Row>, col: nat, ascending: bool): (r: seq<Row>)
    requires col < ColumnCount
    ensures multiset(r) == multiset(s)
  {
    if s == [] then []
    else
      assert s == [s[0]] + s[1..];
      Insert(s[0], SortRows(s[1..], col, ascending), col, ascending)
  }

  /** A row that may precede every row of an ordered sequence can head it. */
  lemma OrderedCons(h: Row, t: seq<Row>, col: nat, ascending: bool)
    requires col < ColumnCount
    requires Ordered(t, col, ascending)
    requires forall y :: y in t ==> KeyLe(h.fields[col], y.fields[col], ascending)
    ensures Ordered([h] + t, col, ascending)
  {
    var r := [h] + t;
    forall i, j | 0 <= i < j < |r|
      ensures KeyLe(r[i].fields[col], r[j].fields[col], ascending)
    {
      assert r[j] == t[j - 1];
      if i > 0 {
        assert r[i] == t[i - 1];
      }
    }
  }

  /** A row that may precede the head of an ordered sequence may precede
      all of it. */
  lemma BeforeHead(x: Row, s: seq<Row>, col: nat, ascending: bool)
    requires col < ColumnCount && s != []
    requires Ordered(s, col, ascending)
    requires KeyLe(x.fields[col], s[0].fields[col], ascending)
    ensures forall y :: y in s ==> KeyLe(x.fields[col], y.fields[col], ascending)
  {
    forall y | y in s
      ensures KeyLe(x.fields[col], y.fields[col], ascending)
    {
      var k :| 0 <= k < |s| && s[k] == y;
      if k > 0 {
        KeyLeTransitive(x.fields[col], s[0].fields[col], y.fields[col], ascending);
      }
    }
  }

  lemma {:induction false} InsertOrdered(x: Row, s: seq<Row>, col: nat, ascending: bool)
    requires col < ColumnCount
    requires Ordered(s, col, ascending)
    ensures Ordered(Insert(x, s, col, ascending), col, ascending)
    decreases |s|
  {
    if s == [] {
    } else if KeyLe(x.fields[col], s[0].fields[col], ascending) {
      BeforeHead(x, s, col, ascending);
      OrderedCons(x, s, col, ascending);
    } else {
      var h, t := s[0], s[1..];
      assert s == [h] + t;
      var tail := Insert(x, t, col, ascending);
      assert Ordered(t, col, ascending) by {
        forall i, j | 0 <= i < j < |t|
          ensures KeyLe(t[i].fields[col], t[j].fields[col], ascending)
        {
          assert t[i] == s[i + 1] && t[j] == s[j + 1];
        }
      }
      InsertOrdered(x, t, col, ascending);
      KeyLeTotal(x.fields[col], h.fields[col], ascending);
      forall y | y in tail
        ensures KeyLe(h.fields[col], y.fields[col], ascending)
      {
        assert y in multiset(tail);
        if y != x {
          var k :| 0 <= k < |t| && t[k] == y;
          assert s[k + 1] == y;
        }
      }
      OrderedCons(h, tail, col, ascending);
    }
  }

  /** The reference sort orders the rows as requested. */
  lemma {:induction false} SortRowsOrdered(s: seq<Row>, col: nat, ascending: bool)
    requires col < ColumnCount
    ensures Ordered(SortRows(s, col, ascending), col, ascending)
    decreases |s|
  {
    if s != [] {
      SortRowsOrdered(s[1..], col, ascending);
      InsertOrdered(s[0], SortRows(s[1..], col, ascending), col, ascending);
    }
  }

  lemma DistinctKeysCons(h: Row, t: seq<Row>)
    ensures DistinctKeys([h] + t) <==> DistinctKeys(t) && forall y :: y in t ==> y.key != h.key
  {
    var r := [h] + t;
    if DistinctKeys(t) && forall y :: y in t ==> y.key != h.key {
      forall i, j | 0 <= i < j < |r|
        ensures r[i].key != r[j].key
      {
        assert r[j] == t[j - 1];
        if i > 0 {
          assert r[i] == t[i - 1];
        }
      }
    }
    if DistinctKeys(r) {
      forall y | y in t
        ensures y.key != h.key
      {
        var k :| 0 <= k < |t| && t[k] == y;
        assert r[0] == h && r[k + 1] == y;
        assert r[0].key != r[k + 1].key;
      }
      forall i, j | 0 <= i < j < |t|
        ensures t[i].key != t[j].key
      {
        assert r[i + 1] == t[i] && r[j + 1] == t[j];
      }
    }
  }

  lemma {:induction false} InsertKeepsKeysDistinct(x: Row, s: seq<Row>, col: nat, ascending: bool)
    requires col < ColumnCount
    requires DistinctKeys(s)
    requires forall y :: y in s ==> y.key != x.key
    ensures DistinctKeys(Insert(x, s, col, ascending))
    decreases |s|
  {
    if s == [] {
    } else if KeyLe(x.fields[col], s[0].fields[col], ascending) {
      DistinctKeysCons(x, s);
    } else {
      var h, t := s[0], s[1..];
      assert s == [h] + t;
      DistinctKeysCons(h, t);
      InsertKeepsKeysDistinct(x, t, col, ascending);
      var tail := Insert(x, t, col, ascending);
      forall y | y in tail
        ensures y.key != h.key
      {
        assert y in multiset(tail);
      }
      DistinctKeysCons(h, tail);
    }
  }

  /** The reference sort keeps the rows' keys distinct. */
  lemma {:induction false} SortRowsKeepsKeysDistinct(s: seq<Row>, col: nat, ascending: bool)
    requires col < ColumnCount
    requires DistinctKeys(s)
    ensures DistinctKeys(SortRows(s, col, ascending))
    decreases |s|
  {
    if s != [] {
      var h, t := s[0], s[1..];
      assert s == [h] + t;
      DistinctKeysCons(h, t);
      var rest := SortRows(t, col, ascending);
      SortRowsKeepsKeysDistinct(t, col, ascending);
      forall y | y in rest
        ensures y.key != h.key
      {
        assert y in multiset(rest);
      }
      InsertKeepsKeysDistinct(h, rest, col, ascending);
    }
  }
}
