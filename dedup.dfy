/** Turning the per-column value lists into rows and removing rows whose key prefix
    repeats: zip(*attvalues), then a set of whole rows when every column is a key, or
    a dict from key prefix to the rest of the row, where a later row overwrites an
    earlier one with the same key. */
module Dedup {
  import opened Common

  /** All rows have the same width. */
  predicate Uniform<T>(rows: seq<seq<T>>, width: nat) {
    forall i :: 0 <= i < |rows| ==> |rows[i]| == width
  }

  /** zip(*cols) for columns of the same length n: row i holds entry i of every column.
      zip() of no columns is empty, whatever n is. */
  function Zip<T>(cols: seq<seq<T>>, n: nat): (rows: seq<seq<T>>)
    requires forall c :: 0 <= c < |cols| ==> |cols[c]| == n
    ensures |cols| == 0 ==> rows == []
    ensures |cols| > 0 ==> |rows| == n
    ensures Uniform(rows, |cols|)
    ensures forall i, c :: 0 <= i < |rows| && 0 <= c < |cols| ==> rows[i][c] == cols[c][i]
  {
    if |cols| == 0 then []
    else seq(n, i requires 0 <= i < n => seq(|cols|, c requires 0 <= c < |cols| => cols[c][i]))
  }

  /** dict(zip(keys, rest)): each key prefix mapped to the rest of the last row that
      has it. */
  function KeyIndex<T(==)>(rows: seq<seq<T>>, nk: nat): (m: map<seq<T>, seq<T>>)
    requires forall i :: 0 <= i < |rows| ==> nk <= |rows[i]|
    ensures forall k :: k in m ==> |k| == nk
    decreases |rows|
  {
    if rows == [] then map[]
    else
      var last := rows[|rows| - 1];
      KeyIndex(rows[..|rows| - 1], nk)[last[..nk] := last[nk..]]
  }

  /** Row i is the last row with its key prefix. */
  predicate LastOfKey<T(==)>(rows: seq<seq<T>>, nk: nat, i: nat)
    requires i < |rows| && forall j :: 0 <= j < |rows| ==> nk <= |rows[j]|
  {
    forall j :: i < j < |rows| ==> rows[j][..nk] != rows[i][..nk]
  }

  /** The keys of the dict are exactly the key prefixes of the rows, and each maps to
      the rest of a row with that prefix. */
  lemma {:induction false} KeyIndexKeys<T>(rows: seq<seq<T>>, nk: nat)
    requires forall i :: 0 <= i < |rows| ==> nk <= |rows[i]|
    ensures forall k :: k in KeyIndex(rows, nk) <==> exists i :: 0 <= i < |rows| && rows[i][..nk] == k
    ensures forall k :: k in KeyIndex(rows, nk) ==>
      exists i :: 0 <= i < |rows| && rows[i][..nk] == k && rows[i][nk..] == KeyIndex(rows, nk)[k]
    decreases |rows|
  {
    if rows != [] {
      var init := rows[..|rows| - 1];
      KeyIndexKeys(init, nk);
      forall i | 0 <= i < |init| ensures init[i] == rows[i] { }
    }
  }

  /** Last write wins: the last row with a given key prefix supplies its rest. */
  lemma {:induction false} KeyIndexLastWins<T>(rows: seq<seq<T>>, nk: nat, i: nat)
    requires forall j :: 0 <= j < |rows| ==> nk <= |rows[j]|
    requires i < |rows| && LastOfKey(rows, nk, i)
    ensures rows[i][..nk] in KeyIndex(rows, nk)
    ensures KeyIndex(rows, nk)[rows[i][..nk]] == rows[i][nk..]
    decreases |rows|
  {
    var init := rows[..|rows| - 1];
    if i < |rows| - 1 {
      assert forall j :: 0 <= j < |init| ==> init[j] == rows[j];
      KeyIndexLastWins(init, nk, i);
    }
  }

  /** set([k + v for k, v in dico.items()]). */
  function Reassemble<T(==)>(m: map<seq<T>, seq<T>>): set<seq<T>> {
    set k | k in m :: k + m[k]
  }

  /** The deduplicated rows of a table of ncols columns whose first nk are the key.
      With nk == 0 < ncols the keys are zip() of no columns, which is empty, so the
      dict and the result are empty too. */
  function Deduplicated<T(==)>(rows: seq<seq<T>>, ncols: nat, nk: nat): (r: Result<set<seq<T>>>)
    requires Uniform(rows, ncols)
    ensures r.Err? ==> r.error == TooManyKeys
    ensures nk == ncols ==> r == Ok(Elements(rows))
  {
    if nk == ncols then Ok(Elements(rows))
    else if nk < ncols then Ok(if nk == 0 then {} else Reassemble(KeyIndex(rows, nk)))
    else Err(TooManyKeys)
  }

  /** Deduplication fails only when there are more key columns than columns; it keeps
      only input rows, at most as many as there were, no two with the same key prefix. */
  lemma DeduplicatedUnique<T>(rows: seq<seq<T>>, ncols: nat, nk: nat)
    requires Uniform(rows, ncols)
    ensures Deduplicated(rows, ncols, nk).Err? <==> nk > ncols
    ensures Deduplicated(rows, ncols, nk).Ok? ==>
      var s := Deduplicated(rows, ncols, nk).value;
      && (forall r :: r in s ==> r in rows)
      && |s| <= |rows|
      && forall a, b :: a in s && b in s && a[..nk] == b[..nk] ==> a == b
  {
    if nk < ncols && nk > 0 {
      var m := KeyIndex(rows, nk);
      KeyIndexKeys(rows, nk);
      var s := Reassemble(m);
      forall r | r in s ensures r in rows && r[..nk] in m && r == r[..nk] + m[r[..nk]] {
        var k :| k in m && r == k + m[k];
        var i :| 0 <= i < |rows| && rows[i][..nk] == k && rows[i][nk..] == m[k];
        assert rows[i] == k + m[k];
        assert r[..nk] == k;
      }
      SubsetSize(s, Elements(rows));
      ElementsAtMost(rows);
    } else if nk == ncols {
      ElementsAtMost(rows);
      forall a, b | a in Elements(rows) && b in Elements(rows) && a[..nk] == b[..nk] ensures a == b {
        assert a == a[..nk] && b == b[..nk];
      }
    }
  }

  /** Every input key prefix survives, and the row kept for it is the last input row with
      that prefix. The one exception is nk == 0 < ncols, where nothing survives. */
  lemma DeduplicatedLastWins<T>(rows: seq<seq<T>>, ncols: nat, nk: nat, i: nat)
    requires Uniform(rows, ncols)
    requires nk <= ncols && (nk == 0 ==> ncols == 0)
    requires i < |rows| && LastOfKey(rows, nk, i)
    ensures rows[i] in Deduplicated(rows, ncols, nk).value
  {
    if nk < ncols {
      KeyIndexLastWins(rows, nk, i);
      var m := KeyIndex(rows, nk);
      var k := rows[i][..nk];
      assert rows[i] == k + m[k];
    }
  }

  /** With no key columns but some data columns, the table is empty. */
  lemma NoKeysNoRows<T>(rows: seq<seq<T>>, ncols: nat)
    requires Uniform(rows, ncols) && ncols > 0
    ensures Deduplicated(rows, ncols, 0) == Ok({})
  {
  }

  /** list(s): the elements of a set, each once, in an order the set's iteration decides. */
  method ListOf<T(==)>(s: set<T>) returns (r: seq<T>)
    ensures |r| == |s| && Distinct(r)
    ensures forall x :: x in r <==> x in s
    ensures Elements(r) == s
  {
    r := [];
    var rest := s;
    while rest != {}
      invariant forall x :: x in s <==> x in r || x in rest
      invariant forall x :: x in r ==> x !in rest
      invariant Distinct(r)
      invariant |r| + |rest| == |s|
      decreases |rest|
    {
      var x :| x in rest;
      r := r + [x];
      rest := rest - {x};
    }
    assert Elements(r) == s;
  }
}
