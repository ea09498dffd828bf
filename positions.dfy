/** Positional selection of rows: numpy-style positions, the ascending
    positions that survive a deletion, and `DataFrame.drop` by key. */
module Positions {
  import opened Rows

  /** A position as numpy reads it: a negative one counts from the end. */
  function Resolve(i: int, n: nat): (p: int)
    ensures InRange(i, n) <==> 0 <= p < n
  {
    if i < 0 then i + n else i
  }

  /** The positions numpy accepts for a sequence of length `n`. */
  predicate InRange(i: int, n: nat)
  {
    -(n as int) <= i < n
  }

  /** The positions the caller names, resolved against length `n`. */
  function PositionSet(indices: seq<int>, n: nat): (gone: set<int>)
    ensures forall i :: i in indices ==> Resolve(i, n) in gone
    ensures forall p :: p in gone ==> exists i :: i in indices && Resolve(i, n) == p
    ensures (forall i :: i in indices ==> InRange(i, n)) ==> forall p :: p in gone ==> 0 <= p < n
  {
    set i | i in indices :: Resolve(i, n)
  }

  /** The positions below `n` that are not in `gone`, in ascending order. */
  function Kept(n: nat, gone: set<int>): (ks: seq<nat>)
    ensures forall j :: 0 <= j < |ks| ==> ks[j] < n
  {
    if n == 0 then []
    else Kept(n - 1, gone) + (if n - 1 in gone then [] else [n - 1])
  }

  /** Exactly the positions below `n` outside `gone` are kept. */
  lemma {:induction false} KeptMembers(n: nat, gone: set<int>)
    ensures forall p :: p in Kept(n, gone) <==> 0 <= p < n && p !in gone
  {
    if n > 0 {
      KeptMembers(n - 1, gone);
    }
  }

  /** The kept positions come in ascending order. */
  lemma {:induction false} KeptIncreasing(n: nat, gone: set<int>)
    ensures forall i, j :: 0 <= i < j < |Kept(n, gone)| ==> Kept(n, gone)[i] < Kept(n, gone)[j]
  {
    if n > 0 {
      KeptIncreasing(n - 1, gone);
    }
  }

  /** The elements of `s` at the positions `ks`, in that order. */
  function Pick<T>(s: seq<T>, ks: seq<nat>): (r: seq<T>)
    requires forall j :: 0 <= j < |ks| ==> ks[j] < |s|
    ensures |r| == |ks|
    ensures forall j :: 0 <= j < |ks| ==> r[j] == s[ks[j]]
  {
    if ks == [] then [] else [s[ks[0]]] + Pick(s, ks[1..])
  }

  /** Kept consults `gone` only below `n`. */
  lemma {:induction false} KeptBelow(n: nat, gone: set<int>, other: set<int>)
    requires forall p :: 0 <= p < n ==> (p in gone <==> p in other)
    ensures Kept(n, gone) == Kept(n, other)
  {
    if n > 0 {
      KeptBelow(n - 1, gone, other);
    }
  }

  /** Removing the distinct positions `gone` leaves `n - |gone|` of them. */
  lemma {:induction false} KeptLength(n: nat, gone: set<int>)
    requires forall p :: p in gone ==> 0 <= p < n
    ensures |Kept(n, gone)| == n - |gone|
  {
    if n == 0 {
      assert gone == {} by {
        forall p | p in gone ensures false { }
      }
    } else {
      var rest := gone - {n - 1};
      KeptBelow(n - 1, gone, rest);
      KeptLength(n - 1, rest);
      if n - 1 in gone {
        assert |rest| == |gone| - 1;
      } else {
        assert rest == gone;
      }
    }
  }

  /** Picking the kept positions of `s` extends by its last element exactly
      when that element's position is kept. */
  lemma PickKeptLast<T>(s: seq<T>, gone: set<int>)
    requires |s| > 0
    ensures Pick(s, Kept(|s|, gone)) ==
      Pick(s[..|s| - 1], Kept(|s| - 1, gone)) + (if |s| - 1 in gone then [] else [s[|s| - 1]])
  {
    var n := |s|;
    var front := Kept(n - 1, gone);
    var a := Pick(s, Kept(n, gone));
    var b := Pick(s[..n - 1], front) + (if n - 1 in gone then [] else [s[n - 1]]);
    assert Kept(n, gone) == front + (if n - 1 in gone then [] else [n - 1]);
    assert |a| == |b|;
    forall j | 0 <= j < |a|
      ensures a[j] == b[j]
    {
      if j < |front| {
        assert Kept(n, gone)[j] == front[j];
      }
    }
  }

  /** `DataFrame.drop(keys)`: every row whose key is in `keys` goes, the
      others stay in order. */
  function DropKeys(rows: seq<Row>, keys: set<nat>): (r: seq<Row>)
    ensures forall x :: x in r ==> x in rows && x.key !in keys
  {
    if rows == [] then []
    else
      var last := rows[|rows| - 1];
      assert forall x :: x in rows[..|rows| - 1] ==> x in rows;
      DropKeys(rows[..|rows| - 1], keys) + (if last.key in keys then [] else [last])
  }

  /** Dropping by key removes exactly the positions whose keys are named. */
  lemma {:induction false} DropKeysIsPick(rows: seq<Row>, keys: set<nat>, gone: set<int>)
    requires forall p :: 0 <= p < |rows| ==> (rows[p].key in keys <==> p in gone)
    ensures DropKeys(rows, keys) == Pick(rows, Kept(|rows|, gone))
    decreases |rows|
  {
    if rows != [] {
      var front := rows[..|rows| - 1];
      DropKeysIsPick(front, keys, gone);
      PickKeptLast(rows, gone);
    }
  }

  /** Picking at ascending positions keeps keys distinct. */
  lemma PickKeepsKeysDistinct(rows: seq<Row>, ks: seq<nat>)
    requires DistinctKeys(rows)
    requires forall j :: 0 <= j < |ks| ==> ks[j] < |rows|
    requires forall i, j :: 0 <= i < j < |ks| ==> ks[i] < ks[j]
    ensures DistinctKeys(Pick(rows, ks))
  {
  }
}
