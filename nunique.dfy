/** `nunique_per_cat`: for each column of dtype `object`, in column order, the
    label and the number of distinct present values. */
module Nunique {
  import opened Frames

  /** The distinct present values among the first `n` cells of column `c`. */
  function ValuesUpTo(t: Table, c: string, n: nat): set<Cell>
    requires WF(t) && c in t.names && n <= |t.rows|
  {
    set i | 0 <= i < n && Get(t, i, c) != Null :: Get(t, i, c)
  }

  /** `df[c].nunique()`: missing values are not counted. */
  function Count(t: Table, c: string): nat
    requires WF(t) && c in t.names
  {
    |ValuesUpTo(t, c, |t.rows|)|
  }

  /** The first `n` cells hold at most `n` distinct present values. */
  lemma {:induction false} ValuesUpToBound(t: Table, c: string, n: nat)
    requires WF(t) && c in t.names && n <= |t.rows|
    ensures |ValuesUpTo(t, c, n)| <= n
  {
    if n > 0 {
      ValuesUpToBound(t, c, n - 1);
      assert ValuesUpTo(t, c, n) <= ValuesUpTo(t, c, n - 1) + {Get(t, n - 1, c)};
      SubsetCard(ValuesUpTo(t, c, n), ValuesUpTo(t, c, n - 1) + {Get(t, n - 1, c)});
    } else {
      assert ValuesUpTo(t, c, n) == {};
    }
  }

  lemma SubsetCard<T>(a: set<T>, b: set<T>)
    requires a <= b
    ensures |a| <= |b|
  {
    assert b == a + (b - a);
  }

  /** Each count is a number of distinct present values, so it is at most the number
      of rows; it is zero exactly when the column has no present value. */
  lemma CountSpec(t: Table, c: string)
    requires WF(t) && c in t.names
    ensures Count(t, c) <= |t.rows|
    ensures Count(t, c) == 0 <==> forall i :: 0 <= i < |t.rows| ==> Get(t, i, c) == Null
  {
    ValuesUpToBound(t, c, |t.rows|);
    if i :| 0 <= i < |t.rows| && Get(t, i, c) != Null {
      assert Get(t, i, c) in ValuesUpTo(t, c, |t.rows|);
    } else {
      assert ValuesUpTo(t, c, |t.rows|) == {};
    }
  }

  /** The positions of the object columns, in column order. */
  function ObjectPositions(t: Table): (ks: seq<nat>)
    requires WF(t)
  {
    TrueIndices(seq(|t.names|, j requires 0 <= j < |t.names| => t.dtypes[j] == Object))
  }

  /** `nunique_per_cat(df)`: the comprehension's filter keeps the object columns, its
      element pairs each with its count. */
  function NuniquePerCat(t: Table): (r: seq<(string, nat)>)
    requires WF(t)
  {
    var ks := ObjectPositions(t);
    seq(|ks|, p requires 0 <= p < |ks| => (t.names[ks[p]], Count(t, t.names[ks[p]])))
  }

  /** Line 3 of `src/utils.py`: the result has one pair for each object column and
      none for any other, in column order, each holding that column's count, which is
      at most the number of rows; so it has at most as many pairs as the frame has
      columns. */
  lemma NuniquePerCatSpec(t: Table)
    requires WF(t)
    ensures |NuniquePerCat(t)| <= |t.names|
    ensures forall c :: c in t.names ==>
              (DTypeOf(t, c) == Object <==> exists p :: 0 <= p < |NuniquePerCat(t)| && NuniquePerCat(t)[p].0 == c)
    ensures forall p :: 0 <= p < |NuniquePerCat(t)| ==>
              && NuniquePerCat(t)[p].0 in t.names
              && DTypeOf(t, NuniquePerCat(t)[p].0) == Object
              && NuniquePerCat(t)[p].1 == Count(t, NuniquePerCat(t)[p].0) <= |t.rows|
    ensures forall p, q :: 0 <= p < q < |NuniquePerCat(t)| ==>
              IndexOf(t.names, NuniquePerCat(t)[p].0) < IndexOf(t.names, NuniquePerCat(t)[q].0)
  {
    var ks := ObjectPositions(t);
    var r := NuniquePerCat(t);
    forall p | 0 <= p < |r|
      ensures r[p].0 in t.names && IndexOf(t.names, r[p].0) == ks[p] && DTypeOf(t, r[p].0) == Object
      ensures Count(t, r[p].0) <= |t.rows|
    {
      IndexOfDistinct(t.names, ks[p]);
      CountSpec(t, r[p].0);
    }
    forall p, q | 0 <= p < q < |r|
      ensures IndexOf(t.names, r[p].0) < IndexOf(t.names, r[q].0)
    {
      TrueIndicesIncreasing(seq(|t.names|, j requires 0 <= j < |t.names| => t.dtypes[j] == Object), p, q);
    }
    forall c | c in t.names
      ensures DTypeOf(t, c) == Object <==> exists p :: 0 <= p < |r| && r[p].0 == c
    {
      var j := IndexOf(t.names, c);
      if DTypeOf(t, c) == Object {
        var mask := seq(|t.names|, j requires 0 <= j < |t.names| => t.dtypes[j] == Object);
        IndexOfDistinct(t.names, j);
        assert mask[j];
        assert j in ks;
        var p :| 0 <= p < |ks| && ks[p] == j;
        assert r[p].0 == c;
      }
    }
  }
}
