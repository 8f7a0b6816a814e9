/** Data frames as the pandas pipeline sees them: a sequence of labelled columns,
    each with a dtype, and rows of cells aligned with the labels. Every pandas
    operation the preprocessing code uses is modelled here once. */
module Frames {

  datatype Option<T> = None | Some(value: T)

  /** One cell. `Null` is pandas' missing value (NaN, NaT or None); `Time`
      holds a timestamp as whole seconds since the epoch. */
  datatype Cell = Null | Num(x: real) | Str(s: string) | Time(t: int) | Bool(b: bool)

  datatype DType = Int64 | Float64 | Object | Datetime | BoolType

  /** The exceptions the modelled code can raise. */
  datatype Error =
    | KeyError(column: string)
    | TypeError(column: string)
    | ValueError(message: string)
    | ParseError(column: string)
    | AssertionError
    | MergeError
    | DuplicateLabel(column: string)
    | OutOfModel(branch: string)

  datatype Result<T> = Ok(value: T) | Err(error: Error) {
    predicate IsFailure() { Err? }
    function PropagateFailure<U>(): Result<U> requires Err? { Err(error) }
    function Extract(): T requires Ok? { value }
  }

  /** A frame updated in place by a loop, and the exception that stopped the loop, if any. */
  datatype Outcome = Outcome(frame: Table, error: Option<Error>)

  /** The value of the first entry of a dict literal whose key is `key`, if any. */
  function Lookup<V>(table: seq<(string, V)>, key: string): (r: Option<V>)
    ensures r.None? <==> forall i :: 0 <= i < |table| ==> table[i].0 != key
    ensures r.Some? ==> exists i :: 0 <= i < |table| && table[i] == (key, r.value)
  {
    if table == [] then None
    else if table[0].0 == key then Some(table[0].1)
    else
      var r := Lookup(table[1..], key);
      assert forall i :: 1 <= i < |table| ==> table[i] == table[1..][i - 1];
      r
  }

  /** The number a cell compares as: a bool is 0 or 1, as in Python. */
  function NumericValue(c: Cell): Option<real> {
    match c
    case Num(x) => Some(x)
    case Bool(b) => Some(if b then 1.0 else 0.0)
    case _ => None
  }

  /** `lo <= x <= hi` holds; false for a missing value, as for NaN. */
  predicate InRange(c: Cell, lo: real, hi: real) {
    NumericValue(c).Some? && lo <= NumericValue(c).value <= hi
  }

  /** A value that compares with a number without raising: strings and timestamps
      compared with a float raise TypeError. */
  predicate Comparable(c: Cell) {
    !c.Str? && !c.Time?
  }

  datatype Table = Table(names: seq<string>, dtypes: seq<DType>, rows: seq<seq<Cell>>)

  /** No element occurs twice: each element's first occurrence is its own position. */
  predicate Distinct<T(==)>(s: seq<T>) {
    forall i :: 0 <= i < |s| ==> IndexOf(s, s[i]) == i
  }

  /** In a distinct sequence, different positions hold different elements. */
  lemma DistinctAt<T>(s: seq<T>, i: nat, j: nat)
    requires Distinct(s) && i < j < |s|
    ensures s[i] != s[j]
  {
    assert IndexOf(s, s[i]) == i && IndexOf(s, s[j]) == j;
  }

  /** A sequence whose positions all hold different elements is distinct. */
  lemma DistinctByPairs<T>(s: seq<T>)
    requires forall i, j :: 0 <= i < j < |s| ==> s[i] != s[j]
    ensures Distinct(s)
  {
    forall k | 0 <= k < |s| ensures IndexOf(s, s[k]) == k {
      var m := IndexOf(s, s[k]);
      if m < k { assert s[m] == s[k]; }
    }
  }

  /** Column labels are unique, every column has a dtype, every row a cell per column. */
  predicate WF(t: Table) {
    && Distinct(t.names)
    && |t.dtypes| == |t.names|
    && forall i :: 0 <= i < |t.rows| ==> |t.rows[i]| == |t.names|
  }

  function IndexOf<T(==)>(s: seq<T>, x: T): (k: nat)
    requires x in s
    ensures k < |s| && s[k] == x
    ensures forall j :: 0 <= j < k ==> s[j] != x
  {
    if s[0] == x then 0 else 1 + IndexOf(s[1..], x)
  }

  lemma IndexOfDistinct<T>(s: seq<T>, k: nat)
    requires Distinct(s) && k < |s|
    ensures IndexOf(s, s[k]) == k
  {
  }

  /** Distinct elements picked at distinct positions are distinct. */
  lemma DistinctPick<T>(xs: seq<T>, ks: seq<nat>)
    requires Distinct(xs) && Distinct(ks) && forall j :: 0 <= j < |ks| ==> ks[j] < |xs|
    ensures Distinct(Pick(xs, ks))
  {
    var ys := Pick(xs, ks);
    forall i, j | 0 <= i < j < |ys| ensures ys[i] != ys[j] {
      DistinctAt(ks, i, j);
      if ks[i] < ks[j] { DistinctAt(xs, ks[i], ks[j]); } else { DistinctAt(xs, ks[j], ks[i]); }
    }
    DistinctByPairs(ys);
  }

  /** The positions of distinct labels are distinct. */
  lemma PositionsDistinct(names: seq<string>, cols: seq<string>, ks: seq<nat>)
    requires Distinct(cols) && |ks| == |cols|
    requires forall j :: 0 <= j < |ks| ==> ks[j] < |names| && names[ks[j]] == cols[j]
    ensures Distinct(ks)
  {
    forall i, j | 0 <= i < j < |ks| ensures ks[i] != ks[j] {
      DistinctAt(cols, i, j);
    }
    DistinctByPairs(ks);
  }

  /** Replacing one element of a distinct sequence by a new one keeps it distinct. */
  lemma DistinctUpdate<T>(s: seq<T>, k: nat, x: T)
    requires Distinct(s) && k < |s| && x !in s
    ensures Distinct(s[k := x])
  {
    var r := s[k := x];
    forall i, j | 0 <= i < j < |r| ensures r[i] != r[j] {
      if i != k && j != k { DistinctAt(s, i, j); }
      else if i == k { assert r[j] == s[j]; } else { assert r[i] == s[i]; }
    }
    DistinctByPairs(r);
  }

  /** `df.loc[i, c]` */
  function Get(t: Table, i: nat, c: string): Cell
    requires WF(t) && i < |t.rows| && c in t.names
  {
    t.rows[i][IndexOf(t.names, c)]
  }

  /** `df[c]` */
  function Column(t: Table, c: string): (col: seq<Cell>)
    requires WF(t) && c in t.names
    ensures |col| == |t.rows|
    ensures forall i :: 0 <= i < |col| ==> col[i] == Get(t, i, c)
  {
    var k := IndexOf(t.names, c);
    seq(|t.rows|, i requires 0 <= i < |t.rows| => t.rows[i][k])
  }

  /** `df[c].dtype` */
  function DTypeOf(t: Table, c: string): DType
    requires WF(t) && c in t.names
  {
    t.dtypes[IndexOf(t.names, c)]
  }

  /** The positions where `mask` holds, in increasing order. */
  function TrueIndices(mask: seq<bool>): (ks: seq<nat>)
    ensures |ks| <= |mask|
    ensures forall j :: 0 <= j < |ks| ==> ks[j] < |mask| && mask[ks[j]]
    ensures forall k :: 0 <= k < |mask| && mask[k] ==> k in ks
    ensures Distinct(ks)
  {
    if mask == [] then []
    else
      var ks := TrueIndices(mask[..|mask| - 1]);
      if mask[|mask| - 1] then
        assert (ks + [|mask| - 1])[..|ks|] == ks;
        ks + [|mask| - 1]
      else ks
  }

  /** The positions come out in increasing order. */
  lemma {:induction false} TrueIndicesIncreasing(mask: seq<bool>, j: nat, j': nat)
    requires j < j' < |TrueIndices(mask)|
    ensures TrueIndices(mask)[j] < TrueIndices(mask)[j']
  {
    hide TrueIndices;
    var n := |mask| - 1;
    var ks := TrueIndices(mask[..n]);
    TrueIndicesUnfold(mask);
    if mask[n] {
      if j' < |ks| {
        TrueIndicesIncreasing(mask[..n], j, j');
      } else {
        assert ks[j] < |mask[..n]|;
      }
    } else {
      TrueIndicesIncreasing(mask[..n], j, j');
    }
  }

  /** One step of the definition: the last position joins when it holds. */
  lemma TrueIndicesUnfold(mask: seq<bool>)
    requires |mask| > 0
    ensures var n := |mask| - 1;
      TrueIndices(mask) == if mask[n] then TrueIndices(mask[..n]) + [n] else TrueIndices(mask[..n])
  {
  }


  /** `df[mask]`: the rows where the boolean mask holds, in their order. */
  function FilterRows(t: Table, mask: seq<bool>): (r: Table)
    requires |mask| == |t.rows|
    ensures r.names == t.names && r.dtypes == t.dtypes
    ensures WF(t) ==> WF(r)
    ensures |r.rows| == |TrueIndices(mask)|
    ensures forall j :: 0 <= j < |r.rows| ==> r.rows[j] == t.rows[TrueIndices(mask)[j]]
  {
    var ks := TrueIndices(mask);
    Table(t.names, t.dtypes, seq(|ks|, j requires 0 <= j < |ks| => t.rows[ks[j]]))
  }

  /** The columns at positions `ks`, in that order. */
  function Project(t: Table, ks: seq<nat>): (r: Table)
    requires WF(t)
    requires forall j :: 0 <= j < |ks| ==> ks[j] < |t.names|
    requires Distinct(ks)
    ensures WF(r) && |r.rows| == |t.rows| && |r.names| == |ks|
    ensures forall j :: 0 <= j < |ks| ==> r.names[j] == t.names[ks[j]] && r.dtypes[j] == t.dtypes[ks[j]]
    ensures forall i, j :: 0 <= i < |t.rows| && 0 <= j < |ks| ==> r.rows[i][j] == t.rows[i][ks[j]]
  {
    DistinctPick(t.names, ks);
    Table(Pick(t.names, ks), Pick(t.dtypes, ks),
          seq(|t.rows|, i requires 0 <= i < |t.rows| =>
            seq(|ks|, j requires 0 <= j < |ks| => t.rows[i][ks[j]])))
  }

  /** Reading a projected column reads the original column. */
  lemma ProjectGet(t: Table, ks: seq<nat>, i: nat, c: string)
    requires WF(t)
    requires forall j :: 0 <= j < |ks| ==> ks[j] < |t.names|
    requires Distinct(ks)
    requires i < |t.rows| && c in Project(t, ks).names
    ensures c in t.names && Get(Project(t, ks), i, c) == Get(t, i, c)
  {
    var r := Project(t, ks);
    var j := IndexOf(r.names, c);
    IndexOfDistinct(t.names, ks[j]);
  }

  /** `df[c] = vals`: overwrites column `c` in place, or appends it as the last column. */
  function Assign(t: Table, c: string, dt: DType, vals: seq<Cell>): (r: Table)
    requires WF(t) && |vals| == |t.rows|
    ensures WF(r) && |r.rows| == |t.rows|
    ensures r.names == if c in t.names then t.names else t.names + [c]
    ensures DTypeOf(r, c) == dt
    ensures forall i :: 0 <= i < |r.rows| ==> Get(r, i, c) == vals[i]
    ensures forall d :: d in t.names && d != c ==> DTypeOf(r, d) == DTypeOf(t, d)
    ensures forall i, d :: 0 <= i < |r.rows| && d in t.names && d != c ==> Get(r, i, d) == Get(t, i, d)
  {
    if c in t.names then
      var k := IndexOf(t.names, c);
      Table(t.names, t.dtypes[k := dt],
            seq(|t.rows|, i requires 0 <= i < |t.rows| => t.rows[i][k := vals[i]]))
    else
      var r := Table(t.names + [c], t.dtypes + [dt],
                     seq(|t.rows|, i requires 0 <= i < |t.rows| => t.rows[i] + [vals[i]]));
      assert forall d :: d in t.names ==> IndexOf(r.names, d) == IndexOf(t.names, d) by {
        forall d | d in t.names ensures IndexOf(r.names, d) == IndexOf(t.names, d) {
          IndexOfDistinct(r.names, IndexOf(t.names, d));
        }
      }
      assert IndexOf(r.names, c) == |t.names| by { IndexOfDistinct(r.names, |t.names|); }
      r
  }

  /** Some label of `cols` that is not a column, the first one in `cols`. */
  function FirstMissing(cols: seq<string>, names: seq<string>): (c: string)
    requires exists c :: c in cols && c !in names
    ensures c in cols && c !in names
  {
    if cols[0] !in names then cols[0] else FirstMissing(cols[1..], names)
  }

  /** `df[c].notna()`: true exactly where the cell is present. */
  function NotNA(t: Table, c: string): (r: seq<Cell>)
    requires WF(t) && c in t.names
    ensures |r| == |t.rows|
    ensures forall i :: 0 <= i < |r| ==> r[i] == Bool(Get(t, i, c) != Null)
  {
    seq(|t.rows|, i requires 0 <= i < |t.rows| => Bool(Get(t, i, c) != Null))
  }

  /** The positions of the columns `df.drop(columns=cols)` keeps, in order. */
  function KeptPositions(t: Table, cols: seq<string>): (ks: seq<nat>)
    requires WF(t)
    ensures forall j :: 0 <= j < |ks| ==> ks[j] < |t.names|
    ensures Distinct(ks)
  {
    TrueIndices(seq(|t.names|, k requires 0 <= k < |t.names| => t.names[k] !in cols))
  }

  /** After assigning columns `a` and then `b`, a label is present exactly when
      it was there before or is one of the two. */
  lemma AssignedTwiceName(n0: seq<string>, n1: seq<string>, n2: seq<string>, a: string, b: string, c: string)
    requires n1 == if a in n0 then n0 else n0 + [a]
    requires n2 == if b in n1 then n1 else n1 + [b]
    ensures c in n2 <==> c in n0 || c == a || c == b
  {
    if c in n0 || c == a {
      assert c in n1;
    }
  }

  /** The kept columns are exactly those not listed. */
  lemma KeptNames(t: Table, cols: seq<string>)
    requires WF(t)
    ensures forall c :: c in Project(t, KeptPositions(t, cols)).names <==> c in t.names && c !in cols
  {
    forall c ensures c in Project(t, KeptPositions(t, cols)).names <==> c in t.names && c !in cols {
      KeptName(t, cols, c);
    }
  }

  /** One label: kept exactly when it is a column and not listed. */
  lemma KeptName(t: Table, cols: seq<string>, c: string)
    requires WF(t)
    ensures c in Project(t, KeptPositions(t, cols)).names <==> c in t.names && c !in cols
  {
    if c in Project(t, KeptPositions(t, cols)).names {
      KeptNameListed(t, cols, c);
    }
    if c in t.names && c !in cols {
      KeptNameUnlisted(t, cols, c);
    }
  }

  /** A kept label is a column of the table and is not listed. */
  lemma KeptNameListed(t: Table, cols: seq<string>, c: string)
    requires WF(t) && c in Project(t, KeptPositions(t, cols)).names
    ensures c in t.names && c !in cols
  {
    var mask := seq(|t.names|, k requires 0 <= k < |t.names| => t.names[k] !in cols);
    var ks := KeptPositions(t, cols);
    assert ks == TrueIndices(mask);
    hide KeptPositions; hide Project; hide TrueIndices;
    var p := Project(t, ks);
    var j := IndexOf(p.names, c);
    assert p.names[j] == t.names[ks[j]] && mask[ks[j]];
  }

  /** A column that is not listed is kept. */
  lemma KeptNameUnlisted(t: Table, cols: seq<string>, c: string)
    requires WF(t) && c in t.names && c !in cols
    ensures c in Project(t, KeptPositions(t, cols)).names
  {
    var mask := seq(|t.names|, k requires 0 <= k < |t.names| => t.names[k] !in cols);
    var ks := KeptPositions(t, cols);
    assert ks == TrueIndices(mask);
    hide KeptPositions; hide Project; hide TrueIndices;
    var p := Project(t, ks);
    var k := IndexOf(t.names, c);
    assert mask[k];
    var j :| 0 <= j < |ks| && ks[j] == k;
    assert p.names[j] == c;
  }

  /** A kept column keeps its cells and its dtype. */
  lemma KeptGet(t: Table, cols: seq<string>)
    requires WF(t)
    ensures forall c :: c in Project(t, KeptPositions(t, cols)).names ==>
              c in t.names && DTypeOf(Project(t, KeptPositions(t, cols)), c) == DTypeOf(t, c)
    ensures forall i, c :: 0 <= i < |t.rows| && c in Project(t, KeptPositions(t, cols)).names ==>
              c in t.names && Get(Project(t, KeptPositions(t, cols)), i, c) == Get(t, i, c)
  {
    var ks := KeptPositions(t, cols);
    var p := Project(t, ks);
    forall c | c in p.names ensures c in t.names && DTypeOf(p, c) == DTypeOf(t, c) {
      var j := IndexOf(p.names, c);
      IndexOfDistinct(t.names, ks[j]);
    }
    forall i, c | 0 <= i < |t.rows| && c in p.names ensures c in t.names && Get(p, i, c) == Get(t, i, c) {
      ProjectGet(t, ks, i, c);
    }
  }

  /** `df.drop(columns=cols)`: a KeyError when a label is absent. */
  function Drop(t: Table, cols: seq<string>): (r: Result<Table>)
    requires WF(t)
    ensures r.Err? <==> exists c :: c in cols && c !in t.names
    ensures r.Err? ==> r.error.KeyError? && r.error.column in cols && r.error.column !in t.names
    ensures r.Ok? ==> WF(r.value) && |r.value.rows| == |t.rows|
    ensures r.Ok? ==> forall c :: c in r.value.names <==> c in t.names && c !in cols
    ensures r.Ok? ==> forall c :: c in r.value.names ==> DTypeOf(r.value, c) == DTypeOf(t, c)
    ensures r.Ok? ==> forall i, c :: 0 <= i < |t.rows| && c in r.value.names ==> Get(r.value, i, c) == Get(t, i, c)
  {
    if exists c :: c in cols && c !in t.names then Err(KeyError(FirstMissing(cols, t.names)))
    else
      var p := Project(t, KeptPositions(t, cols));
      KeptNames(t, cols);
      KeptGet(t, cols);
      assert forall c :: c in p.names <==> c in t.names && c !in cols;
      Ok(p)
  }

  /** `df[cols]`: the listed columns, in the listed order; a KeyError when a label is absent. */
  function Select(t: Table, cols: seq<string>): (r: Result<Table>)
    requires WF(t) && Distinct(cols)
    ensures r.Err? <==> exists c :: c in cols && c !in t.names
    ensures r.Ok? ==> WF(r.value) && r.value.names == cols && |r.value.rows| == |t.rows|
    ensures r.Ok? ==> forall i, c :: 0 <= i < |t.rows| && c in cols ==> Get(r.value, i, c) == Get(t, i, c)
  {
    if exists c :: c in cols && c !in t.names then Err(KeyError(FirstMissing(cols, t.names)))
    else
      var ks := seq(|cols|, j requires 0 <= j < |cols| => IndexOf(t.names, cols[j]));
      PositionsDistinct(t.names, cols, ks);
      var p := Project(t, ks);
      assert p.names == cols;
      forall i, c | 0 <= i < |t.rows| && c in cols ensures Get(p, i, c) == Get(t, i, c) {
        ProjectGet(t, ks, i, c);
      }
      Ok(p)
  }

  /** Dropping one label succeeds exactly when it is a column. */
  lemma DropOne(t: Table, c: string)
    requires WF(t)
    ensures Drop(t, [c]).Ok? <==> c in t.names
  {
    if c !in t.names { assert c in [c]; }
  }

  /** A drop that succeeded found every label it was given. */
  lemma DropFound(t: Table, cols: seq<string>, c: string)
    requires WF(t) && Drop(t, cols).Ok? && c in cols
    ensures c in t.names
  {
  }

  /** `df.rename(columns={src: dst})`. An absent `src` is ignored, as in pandas;
      renaming onto a label that is already taken would give two columns one
      label, which this model reports as DuplicateLabel. */
  function Rename(t: Table, src: string, dst: string): (r: Result<Table>)
    requires WF(t)
    ensures src !in t.names || src == dst ==> r == Ok(t)
    ensures src in t.names && src != dst ==> (r.Err? <==> dst in t.names)
    ensures r.Ok? ==> WF(r.value) && r.value.rows == t.rows
    ensures r.Ok? && src in t.names ==> dst in r.value.names
    ensures r.Ok? && src != dst ==> src !in r.value.names
    ensures r.Ok? ==> forall c :: c != src && c in t.names ==> c in r.value.names
    ensures r.Ok? ==> forall c :: c in r.value.names ==> c in t.names || c == dst
    ensures r.Ok? && src in t.names ==>
              forall i :: 0 <= i < |t.rows| ==> Get(r.value, i, dst) == Get(t, i, src)
    ensures r.Ok? ==> forall i, c :: 0 <= i < |t.rows| && c != src && c in t.names ==>
                        Get(r.value, i, c) == Get(t, i, c)
  {
    if src !in t.names || src == dst then Ok(t)
    else if dst in t.names then Err(DuplicateLabel(dst))
    else
      var k := IndexOf(t.names, src);
      DistinctUpdate(t.names, k, dst);
      var r := Table(t.names[k := dst], t.dtypes, t.rows);
      assert IndexOf(r.names, dst) == k by { IndexOfDistinct(r.names, k); }
      forall m | 0 <= m < |r.names| ensures r.names[m] != src {
        if m < k { DistinctAt(t.names, m, k); } else if m > k { DistinctAt(t.names, k, m); }
      }
      forall c | c != src && c in t.names ensures c in r.names && IndexOf(r.names, c) == IndexOf(t.names, c) {
        var m := IndexOf(t.names, c);
        assert r.names[m] == c;
        IndexOfDistinct(r.names, m);
      }
      Ok(r)
  }

  /** The labels of `b` that `a` lacks, in the order of `b`. */
  function ExtraNames(a: seq<string>, b: seq<string>): (e: seq<string>)
    requires Distinct(b)
    ensures Distinct(e) && |e| <= |b|
    ensures forall c :: c in e <==> c in b && c !in a
  {
    if b == [] then []
    else
      var e := ExtraNames(a, b[..|b| - 1]);
      assert forall c :: c in b <==> c in b[..|b| - 1] || c == b[|b| - 1];
      if b[|b| - 1] in a then e
      else
        assert (e + [b[|b| - 1]])[..|e|] == e;
        e + [b[|b| - 1]]
  }

  lemma DistinctAppend(a: seq<string>, e: seq<string>)
    requires Distinct(a) && Distinct(e) && forall c :: c in e ==> c !in a
    ensures Distinct(a + e)
  {
    var s := a + e;
    forall i, j | 0 <= i < j < |s| ensures s[i] != s[j] {
      if j < |a| { DistinctAt(a, i, j); }
      else if i >= |a| { DistinctAt(e, i - |a|, j - |a|); }
      else { assert s[i] == a[i] && s[j] == e[j - |a|] && e[j - |a|] in e; }
    }
    DistinctByPairs(s);
  }

  /** `pd.concat([a, b], ignore_index=True)`: the rows of `a`, then those of `b`,
      over the columns of `a` followed by the columns that only `b` has; a column
      a frame lacks reads as missing in its rows. */
  function Concat(a: Table, b: Table): (r: Table)
    requires WF(a) && WF(b)
    ensures WF(r) && |r.rows| == |a.rows| + |b.rows|
    ensures r.names == a.names + ExtraNames(a.names, b.names)
    ensures forall c :: c in r.names <==> c in a.names || c in b.names
  {
    var extra := ExtraNames(a.names, b.names);
    DistinctAppend(a.names, extra);
    var names := a.names + extra;
    var dtypes := a.dtypes + seq(|extra|, j requires 0 <= j < |extra| => b.dtypes[IndexOf(b.names, extra[j])]);
    var rowsA := seq(|a.rows|, i requires 0 <= i < |a.rows| =>
                   a.rows[i] + seq(|extra|, j requires 0 <= j < |extra| => Null));
    var rowsB := seq(|b.rows|, i requires 0 <= i < |b.rows| =>
                   seq(|names|, k requires 0 <= k < |names| =>
                     if names[k] in b.names then b.rows[i][IndexOf(b.names, names[k])] else Null));
    Table(names, dtypes, rowsA + rowsB)
  }

  /** A row of `a` keeps its cells in the concatenation; the columns only `b` has read as missing. */
  lemma ConcatGetFirst(a: Table, b: Table, i: nat, c: string)
    requires WF(a) && WF(b) && i < |a.rows| && c in Concat(a, b).names
    ensures Get(Concat(a, b), i, c) == if c in a.names then Get(a, i, c) else Null
  {
    var r := Concat(a, b);
    if c in a.names { IndexOfDistinct(r.names, IndexOf(a.names, c)); }
    else { assert IndexOf(r.names, c) >= |a.names|; }
  }

  /** A row of `b` keeps its cells in the concatenation; the columns only `a` has read as missing. */
  lemma ConcatGetSecond(a: Table, b: Table, i: nat, c: string)
    requires WF(a) && WF(b) && |a.rows| <= i < |a.rows| + |b.rows| && c in Concat(a, b).names
    ensures Get(Concat(a, b), i, c) == if c in b.names then Get(b, i - |a.rows|, c) else Null
  {
  }

  /** A column both tables have reads, in the concatenation, from `a` on its rows and from `b` below. */
  lemma ConcatColumnAt(a: Table, b: Table, i: nat, c: string)
    requires WF(a) && WF(b) && i < |a.rows| + |b.rows| && c in a.names && c in b.names
    ensures c in Concat(a, b).names
    ensures Get(Concat(a, b), i, c) == if i < |a.rows| then Get(a, i, c) else Get(b, i - |a.rows|, c)
  {
    if i < |a.rows| { ConcatGetFirst(a, b, i, c); } else { ConcatGetSecond(a, b, i, c); }
  }

  lemma ConcatFacts(a: Table, b: Table)
    requires WF(a) && WF(b)
    ensures var r := Concat(a, b);
      && (forall i, c :: 0 <= i < |a.rows| && c in r.names ==>
            Get(r, i, c) == if c in a.names then Get(a, i, c) else Null)
      && (forall i, c :: |a.rows| <= i < |r.rows| && c in r.names ==>
            Get(r, i, c) == if c in b.names then Get(b, i - |a.rows|, c) else Null)
  {
    var r := Concat(a, b);
    forall i, c | 0 <= i < |a.rows| && c in r.names
      ensures Get(r, i, c) == if c in a.names then Get(a, i, c) else Null
    {
      ConcatGetFirst(a, b, i, c);
    }
    forall i, c | |a.rows| <= i < |r.rows| && c in r.names
      ensures Get(r, i, c) == if c in b.names then Get(b, i - |a.rows|, c) else Null
    {
      ConcatGetSecond(a, b, i, c);
    }
  }

  /** The mask of `drop_duplicates`: a row is kept when its key did not occur earlier. */
  function FirstOccurrences(col: seq<Cell>): (mask: seq<bool>)
    ensures |mask| == |col|
    ensures forall i :: 0 <= i < |col| ==> mask[i] == (col[i] !in col[..i])
  {
    seq(|col|, i requires 0 <= i < |col| => col[i] !in col[..i])
  }

  /** `df.drop_duplicates(subset=[c])`: keeps the first row of each value of `c`. */
  function DropDuplicates(t: Table, c: string): (r: Table)
    requires WF(t) && c in t.names
    ensures WF(r) && r.names == t.names && r.dtypes == t.dtypes && |r.rows| <= |t.rows|
  {
    FilterRows(t, FirstOccurrences(Column(t, c)))
  }

  /** After `drop_duplicates` the key column holds each value once. */
  lemma DropDuplicatesUnique(t: Table, c: string)
    requires WF(t) && c in t.names
    ensures var r := DropDuplicates(t, c);
      forall j, j' :: 0 <= j < j' < |r.rows| ==> Get(r, j, c) != Get(r, j', c)
  {
    var col := Column(t, c);
    var mask := FirstOccurrences(col);
    var ks := TrueIndices(mask);
    var r := DropDuplicates(t, c);
    forall j, j' | 0 <= j < j' < |r.rows| ensures Get(r, j, c) != Get(r, j', c) {
      var p, a, b := IndexOf(t.names, c), ks[j], ks[j'];
      TrueIndicesIncreasing(mask, j, j');
      GetAt(r, j, c, p);
      GetAt(r, j', c, p);
      GetAt(t, a, c, p);
      GetAt(t, b, c, p);
      assert Get(r, j, c) == col[a] && Get(r, j', c) == col[b];
      assert mask[b] && col[a] == col[..b][a];
    }
  }

  /** `drop_duplicates` keeps, for each key of the input, the first row carrying it,
      and nothing that was not an input row. */
  lemma DropDuplicatesKeepsFirst(t: Table, c: string)
    requires WF(t) && c in t.names
    ensures var r := DropDuplicates(t, c);
      && (forall i :: 0 <= i < |t.rows| ==> t.rows[IndexOf(Column(t, c), Get(t, i, c))] in r.rows)
      && (forall j :: 0 <= j < |r.rows| ==> r.rows[j] in t.rows)
  {
    var col := Column(t, c);
    var mask := FirstOccurrences(col);
    var ks := TrueIndices(mask);
    var r := DropDuplicates(t, c);
    forall i | 0 <= i < |t.rows| ensures t.rows[IndexOf(col, col[i])] in r.rows {
      var f := IndexOf(col, col[i]);
      assert mask[f];
      var j :| 0 <= j < |ks| && ks[j] == f;
      assert r.rows[j] == t.rows[f];
    }
  }

  /** The positions of the columns other than `key`. */
  function NonKey(names: seq<string>, key: string): (ks: seq<nat>)
    ensures Distinct(ks)
    ensures forall j :: 0 <= j < |ks| ==> ks[j] < |names| && names[ks[j]] != key
    ensures forall k :: 0 <= k < |names| && names[k] != key ==> k in ks
  {
    TrueIndices(seq(|names|, k requires 0 <= k < |names| => names[k] != key))
  }

  /** A left column's label after a merge: suffixed when the right side has that label too. */
  function LeftLabel(c: string, right: seq<string>, key: string, lsuf: string): string {
    if c != key && c in right then c + lsuf else c
  }

  /** With an empty left suffix a left column keeps its label. */
  lemma LeftLabelNoSuffix(c: string, right: seq<string>, key: string)
    ensures LeftLabel(c, right, key, "") == c
  {
    assert c + "" == c;
  }

  /** A right non-key column's label after a merge: suffixed when the left side has that label too. */
  function RightLabel(c: string, left: seq<string>, rsuf: string): string {
    if c in left then c + rsuf else c
  }

  /** A right label the left side does not use is kept as it is. */
  lemma RightLabelFresh(c: string, left: seq<string>, rsuf: string)
    requires c !in left
    ensures RightLabel(c, left, rsuf) == c
  {
  }

  function MergedNames(left: seq<string>, right: seq<string>, key: string, lsuf: string, rsuf: string): (m: seq<string>)
    ensures |m| == |left| + |NonKey(right, key)|
    ensures forall k :: 0 <= k < |left| ==> m[k] == LeftLabel(left[k], right, key, lsuf)
    ensures var rk := NonKey(right, key);
      forall j :: 0 <= j < |rk| ==> m[|left| + j] == RightLabel(right[rk[j]], left, rsuf)
  {
    var rk := NonKey(right, key);
    var ls, rs := LeftLabels(left, right, key, lsuf), RightLabels(right, rk, left, rsuf);
    assert forall j :: 0 <= j < |rk| ==> (ls + rs)[|left| + j] == rs[j];
    ls + rs
  }

  function LeftLabels(ls: seq<string>, right: seq<string>, key: string, lsuf: string): (m: seq<string>)
    ensures |m| == |ls| && forall k :: 0 <= k < |ls| ==> m[k] == LeftLabel(ls[k], right, key, lsuf)
  {
    if ls == [] then [] else [LeftLabel(ls[0], right, key, lsuf)] + LeftLabels(ls[1..], right, key, lsuf)
  }

  function RightLabels(right: seq<string>, ks: seq<nat>, left: seq<string>, rsuf: string): (m: seq<string>)
    requires forall j :: 0 <= j < |ks| ==> ks[j] < |right|
    ensures |m| == |ks| && forall j :: 0 <= j < |ks| ==> m[j] == RightLabel(right[ks[j]], left, rsuf)
  {
    if ks == [] then [] else [RightLabel(right[ks[0]], left, rsuf)] + RightLabels(right, ks[1..], left, rsuf)
  }
  /** Every merged label is a left column's label or a right non-key column's label. */
  lemma MergedNameSource(left: seq<string>, right: seq<string>, key: string, lsuf: string, rsuf: string, c: string)
    requires c in MergedNames(left, right, key, lsuf, rsuf)
    ensures (exists l :: l in left && c == LeftLabel(l, right, key, lsuf)) ||
            (exists r :: r in right && r != key && c == RightLabel(r, left, rsuf))
  {
    var m, rk := MergedNames(left, right, key, lsuf, rsuf), NonKey(right, key);
    var p := IndexOf(m, c);
    if p < |left| {
      var l := left[p];
      assert l in left && c == LeftLabel(l, right, key, lsuf);
    } else {
      var r := right[rk[p - |left|]];
      assert r in right && r != key && c == RightLabel(r, left, rsuf);
    }
  }


  /** Row `i` has a value in every column of `cols`. */
  predicate NoneMissing(t: Table, i: nat, cols: seq<string>)
    requires WF(t) && i < |t.rows| && forall c :: c in cols ==> c in t.names
  {
    forall c :: c in cols ==> Get(t, i, c) != Null
  }

  /** The rows that have a value in every column of `cols`, in order. */
  function CompleteRows(t: Table, cols: seq<string>): (ks: seq<nat>)
    requires WF(t) && forall c :: c in cols ==> c in t.names
    ensures forall j :: 0 <= j < |ks| ==> ks[j] < |t.rows| && NoneMissing(t, ks[j], cols)
    ensures forall i :: 0 <= i < |t.rows| && NoneMissing(t, i, cols) ==> i in ks
  {
    TrueIndices(seq(|t.rows|, i requires 0 <= i < |t.rows| => NoneMissing(t, i, cols)))
  }

  /** The complete rows come out in their order. */
  lemma CompleteRowsIncreasing(t: Table, cols: seq<string>, j: nat, j': nat)
    requires WF(t) && forall c :: c in cols ==> c in t.names
    requires j < j' < |CompleteRows(t, cols)|
    ensures CompleteRows(t, cols)[j] < CompleteRows(t, cols)[j']
  {
    TrueIndicesIncreasing(seq(|t.rows|, i requires 0 <= i < |t.rows| => NoneMissing(t, i, cols)), j, j');
  }

  /** `df.dropna(subset=cols)`: the rows with no missing value in `cols`, in their order. */
  function DropNA(t: Table, cols: seq<string>): (r: Table)
    requires WF(t) && forall c :: c in cols ==> c in t.names
    ensures WF(r) && r.names == t.names && r.dtypes == t.dtypes
    ensures |r.rows| == |CompleteRows(t, cols)|
    ensures forall j :: 0 <= j < |r.rows| ==> r.rows[j] == t.rows[CompleteRows(t, cols)[j]]
  {
    var ks := CompleteRows(t, cols);
    Table(t.names, t.dtypes, seq(|ks|, j requires 0 <= j < |ks| => t.rows[ks[j]]))
  }

  /** Every row has exactly `w` cells. */
  predicate Rectangular(rows: seq<seq<Cell>>, w: nat) {
    forall j :: 0 <= j < |rows| ==> |rows[j]| == w
  }

  /** The right rows whose key cell equals `v`, in order; a missing key matches a
      missing key, as in pandas. */
  function Matches(right: seq<seq<Cell>>, rkey: nat, v: Cell): (ms: seq<nat>)
    requires forall j :: 0 <= j < |right| ==> rkey < |right[j]|
    ensures forall m :: 0 <= m < |ms| ==> ms[m] < |right| && right[ms[m]][rkey] == v
    ensures forall j :: 0 <= j < |right| && right[j][rkey] == v ==> j in ms
  {
    TrueIndices(seq(|right|, j requires 0 <= j < |right| => right[j][rkey] == v))
  }
  /** The matches are the true positions of any mask that marks exactly the matching rows. */
  lemma MatchesByMask(right: seq<seq<Cell>>, rkey: nat, v: Cell, mask: seq<bool>)
    requires forall j :: 0 <= j < |right| ==> rkey < |right[j]|
    requires |mask| == |right| && forall j :: 0 <= j < |right| ==> (mask[j] <==> right[j][rkey] == v)
    ensures Matches(right, rkey, v) == TrueIndices(mask)
  {
    assert mask == seq(|right|, j requires 0 <= j < |right| => right[j][rkey] == v);
  }


  /** The elements of `xs` at the positions `ks`, in that order (the non-key
      cells of a right row, the dtypes of the right non-key columns). */
  function Pick<T>(xs: seq<T>, ks: seq<nat>): (ys: seq<T>)
    requires forall j :: 0 <= j < |ks| ==> ks[j] < |xs|
    ensures |ys| == |ks| && forall j :: 0 <= j < |ks| ==> ys[j] == xs[ks[j]]
  {
    if ks == [] then [] else [xs[ks[0]]] + Pick(xs, ks[1..])
  }

  /** The output rows of a left join for one left row: one per matching right
      row, or a single row with missing right cells when nothing matches. */
  function JoinRow(l: seq<Cell>, lkey: nat, right: seq<seq<Cell>>, rkey: nat, w: nat, rk: seq<nat>): (out: seq<seq<Cell>>)
    requires lkey < |l| && rkey < w && Rectangular(right, w)
    requires forall j :: 0 <= j < |rk| ==> rk[j] < w
    ensures |out| >= 1
    ensures forall m :: 0 <= m < |out| ==> |out[m]| == |l| + |rk| && out[m][..|l|] == l
  {
    var ms := Matches(right, rkey, l[lkey]);
    if |ms| == 0 then [l + NullCells(|rk|)]
    else MatchedRows(l, right, w, ms, rk)
  }

  /** The right part of a left row that matched nothing. */
  function NullCells(n: nat): (cells: seq<Cell>)
    ensures |cells| == n && forall j :: 0 <= j < n ==> cells[j] == Null
  {
    if n == 0 then [] else NullCells(n - 1) + [Null]
  }

  /** A left row extended by each of the matched right rows, in order. */
  function MatchedRows(l: seq<Cell>, right: seq<seq<Cell>>, w: nat, ms: seq<nat>, rk: seq<nat>): (rows: seq<seq<Cell>>)
    requires Rectangular(right, w)
    requires forall m :: 0 <= m < |ms| ==> ms[m] < |right|
    requires forall j :: 0 <= j < |rk| ==> rk[j] < w
    ensures |rows| == |ms|
    ensures forall m :: 0 <= m < |ms| ==> rows[m] == l + Pick(right[ms[m]], rk)
  {
    if ms == [] then []
    else
      var rest := MatchedRows(l, right, w, ms[1..], rk);
      assert forall m :: 1 <= m < |ms| ==> ms[m] == ms[1..][m - 1];
      [l + Pick(right[ms[0]], rk)] + rest
  }

  /** The output rows of a left join, grouped by the left row that produced them. */
  function JoinGroups(lefts: seq<seq<Cell>>, lw: nat, lkey: nat, right: seq<seq<Cell>>, rkey: nat, w: nat, rk: seq<nat>): (gs: seq<seq<seq<Cell>>>)
    requires lkey < lw && Rectangular(lefts, lw)
    requires rkey < w && Rectangular(right, w)
    requires forall j :: 0 <= j < |rk| ==> rk[j] < w
    ensures |gs| == |lefts| && forall i :: 0 <= i < |lefts| ==> gs[i] == JoinRow(lefts[i], lkey, right, rkey, w, rk)
  {
    if lefts == [] then []
    else [JoinRow(lefts[0], lkey, right, rkey, w, rk)] + JoinGroups(lefts[1..], lw, lkey, right, rkey, w, rk)
  }

  /** The rows of a left join: each left row's group, in left order. */
  function JoinRows(lefts: seq<seq<Cell>>, lw: nat, lkey: nat, right: seq<seq<Cell>>, rkey: nat, w: nat, rk: seq<nat>): (out: seq<seq<Cell>>)
    requires lkey < lw && Rectangular(lefts, lw)
    requires rkey < w && Rectangular(right, w)
    requires forall j :: 0 <= j < |rk| ==> rk[j] < w
    ensures Rectangular(out, lw + |rk|)
  {
    var gs := JoinGroups(lefts, lw, lkey, right, rkey, w, rk);
    FlattenRectangular(gs, lw + |rk|);
    Flatten(gs)
  }

  function Flatten<T>(groups: seq<seq<T>>): seq<T>
  {
    if groups == [] then [] else groups[0] + Flatten(groups[1..])
  }

  function Lengths<T>(groups: seq<seq<T>>): (ys: seq<nat>)
    ensures |ys| == |groups| && forall i :: 0 <= i < |groups| ==> ys[i] == |groups[i]|
  {
    seq(|groups|, i requires 0 <= i < |groups| => |groups[i]|)
  }

  /** Element `k` of a flattening is element `OffsetOf` of group `OriginOf`. */
  lemma {:induction false} FlattenAt<T>(groups: seq<seq<T>>, k: nat)
    requires k < |Flatten(groups)|
    ensures var ys := Lengths(groups);
      && OriginOf(ys, k) < |groups|
      && OffsetOf(ys, k) < |groups[OriginOf(ys, k)]|
      && Flatten(groups)[k] == groups[OriginOf(ys, k)][OffsetOf(ys, k)]
  {
    var ys := Lengths(groups);
    assert groups != [];
    if k >= |groups[0]| {
      var tail := groups[1..];
      assert Lengths(tail) == ys[1..];
      FlattenAt(tail, k - |groups[0]|);
    }
  }

  lemma {:induction false} FlattenSize<T>(groups: seq<seq<T>>)
    ensures |Flatten(groups)| == Sum(Lengths(groups))
  {
    if groups != [] {
      FlattenSize(groups[1..]);
      assert Lengths(groups[1..]) == Lengths(groups)[1..];
    }
  }

  lemma FlattenRectangular(groups: seq<seq<seq<Cell>>>, w: nat)
    requires forall i, m :: 0 <= i < |groups| && 0 <= m < |groups[i]| ==> |groups[i][m]| == w
    ensures Rectangular(Flatten(groups), w)
  {
    forall k | 0 <= k < |Flatten(groups)| ensures |Flatten(groups)[k]| == w {
      FlattenAt(groups, k);
    }
  }


  /** How many output rows each left row yields in a left join. */
  ghost function Yields(lefts: seq<seq<Cell>>, lw: nat, lkey: nat, right: seq<seq<Cell>>, rkey: nat, w: nat, rk: seq<nat>): (ys: seq<nat>)
    requires lkey < lw && Rectangular(lefts, lw)
    requires rkey < w && Rectangular(right, w)
    requires forall j :: 0 <= j < |rk| ==> rk[j] < w
    ensures |ys| == |lefts|
    ensures forall i :: 0 <= i < |lefts| ==> ys[i] == |JoinRow(lefts[i], lkey, right, rkey, w, rk)| >= 1
  {
    Lengths(JoinGroups(lefts, lw, lkey, right, rkey, w, rk))
  }


  function Sum(ys: seq<nat>): nat
  {
    if ys == [] then 0 else ys[0] + Sum(ys[1..])
  }

  /** The input position of output row `k`, when input row `i` yields `ys[i]` output rows in order. */
  function OriginOf(ys: seq<nat>, k: nat): nat
  {
    if ys == [] || k < ys[0] then 0 else 1 + OriginOf(ys[1..], k - ys[0])
  }

  /** The position of output row `k` among the rows its input row yields. */
  function OffsetOf(ys: seq<nat>, k: nat): nat
  {
    if ys == [] || k < ys[0] then k else OffsetOf(ys[1..], k - ys[0])
  }

  lemma {:induction false} SumAtLeast(ys: seq<nat>)
    requires forall i :: 0 <= i < |ys| ==> ys[i] >= 1
    ensures Sum(ys) >= |ys|
  {
    if ys != [] {
      var tail := ys[1..];
      assert forall i :: 0 <= i < |tail| ==> tail[i] == ys[i + 1];
      SumAtLeast(tail);
    }
  }

  /** When every input row yields exactly one output row, output row `k` comes from input row `k`. */
  lemma {:induction false} OriginsOfOnes(ys: seq<nat>)
    requires forall i :: 0 <= i < |ys| ==> ys[i] == 1
    ensures Sum(ys) == |ys|
    ensures forall k :: 0 <= k < |ys| ==> OriginOf(ys, k) == k && OffsetOf(ys, k) == 0
  {
    if ys != [] {
      var tail := ys[1..];
      assert forall i :: 0 <= i < |tail| ==> tail[i] == ys[i + 1];
      OriginsOfOnes(tail);
      forall k | 0 < k < |ys| ensures OriginOf(ys, k) == k && OffsetOf(ys, k) == 0 {
        assert OriginOf(ys, k) == 1 + OriginOf(tail, k - 1);
      }
    }
  }

  /** The input position of every output row, when input row `i` yields `ys[i]` output rows in order. */
  function Origins(ys: seq<nat>): (o: seq<nat>)
    ensures |o| == Sum(ys) && forall k :: 0 <= k < |o| ==> o[k] == OriginOf(ys, k)
  {
    seq(Sum(ys), k requires 0 <= k => OriginOf(ys, k))
  }

  /** For each output row of a left join, the position of the left row it came from. */
  ghost function JoinOrigin(lefts: seq<seq<Cell>>, lw: nat, lkey: nat, right: seq<seq<Cell>>, rkey: nat, w: nat, rk: seq<nat>): seq<nat>
    requires lkey < lw && Rectangular(lefts, lw)
    requires rkey < w && Rectangular(right, w)
    requires forall j :: 0 <= j < |rk| ==> rk[j] < w
  {
    Origins(Yields(lefts, lw, lkey, right, rkey, w, rk))
  }

  function Zeros(n: nat): (z: seq<nat>)
    ensures |z| == n && forall k :: 0 <= k < n ==> z[k] == 0
  {
    if n == 0 then [] else Zeros(n - 1) + [0]
  }

  function Shift(s: seq<nat>): (r: seq<nat>)
    ensures |r| == |s| && forall k :: 0 <= k < |s| ==> r[k] == s[k] + 1
  {
    seq(|s|, k requires 0 <= k < |s| => s[k] + 1)
  }

  /** The origins of a non-empty input: the first row's copies, then the rest's origins moved up by one. */
  lemma OriginsStep(ys: seq<nat>)
    requires ys != []
    ensures var o, o' := Origins(ys), Origins(ys[1..]);
      && |o| == ys[0] + |o'|
      && (forall k :: 0 <= k < ys[0] ==> o[k] == 0)
      && (forall k :: ys[0] <= k < |o| ==> o[k] == o'[k - ys[0]] + 1)
  {
  }

  lemma OriginsSplit(ys: seq<nat>)
    requires ys != []
    ensures Origins(ys) == Zeros(ys[0]) + Shift(Origins(ys[1..]))
  {
    OriginsStep(ys);
    var o, o' := Origins(ys), Origins(ys[1..]);
    var zeros, shifted := Zeros(ys[0]), Shift(o');
    var a := zeros + shifted;
    forall k | 0 <= k < |a| ensures a[k] == o[k] {
      if k < ys[0] { assert a[k] == zeros[k]; } else { assert a[k] == shifted[k - ys[0]]; }
    }
  }

  /** A left join gives one origin per output row, and at least one output row per left row. */
  lemma JoinSizes(lefts: seq<seq<Cell>>, lw: nat, lkey: nat, right: seq<seq<Cell>>, rkey: nat, w: nat, rk: seq<nat>)
    requires lkey < lw && Rectangular(lefts, lw)
    requires rkey < w && Rectangular(right, w)
    requires forall j :: 0 <= j < |rk| ==> rk[j] < w
    ensures |JoinOrigin(lefts, lw, lkey, right, rkey, w, rk)| == |JoinRows(lefts, lw, lkey, right, rkey, w, rk)| >= |lefts|
  {
    var gs := JoinGroups(lefts, lw, lkey, right, rkey, w, rk);
    FlattenSize(gs);
    SumAtLeast(Lengths(gs));
  }

  /** Each output row of a left join is one of the rows its origin left row produces. */
  lemma JoinOriginRows(lefts: seq<seq<Cell>>, lw: nat, lkey: nat, right: seq<seq<Cell>>, rkey: nat, w: nat, rk: seq<nat>)
    requires lkey < lw && Rectangular(lefts, lw)
    requires rkey < w && Rectangular(right, w)
    requires forall j :: 0 <= j < |rk| ==> rk[j] < w
    ensures var out, o := JoinRows(lefts, lw, lkey, right, rkey, w, rk), JoinOrigin(lefts, lw, lkey, right, rkey, w, rk);
      |o| == |out| && forall k :: 0 <= k < |o| ==> o[k] < |lefts| && out[k] in JoinRow(lefts[o[k]], lkey, right, rkey, w, rk)
  {
    JoinSizes(lefts, lw, lkey, right, rkey, w, rk);
    var gs := JoinGroups(lefts, lw, lkey, right, rkey, w, rk);
    var out, o := JoinRows(lefts, lw, lkey, right, rkey, w, rk), JoinOrigin(lefts, lw, lkey, right, rkey, w, rk);
    assert out == Flatten(gs) && o == Origins(Lengths(gs));
    forall k | 0 <= k < |o| ensures o[k] < |lefts| && out[k] in JoinRow(lefts[o[k]], lkey, right, rkey, w, rk) {
      FlattenAt(gs, k);
      assert o[k] == OriginOf(Lengths(gs), k);
    }
  }

  /** How many output rows one left row yields: one per match, or one when nothing matches. */
  lemma JoinRowSize(l: seq<Cell>, lkey: nat, right: seq<seq<Cell>>, rkey: nat, w: nat, rk: seq<nat>)
    requires lkey < |l| && rkey < w && Rectangular(right, w)
    requires forall j :: 0 <= j < |rk| ==> rk[j] < w
    ensures var n := |Matches(right, rkey, l[lkey])|;
      |JoinRow(l, lkey, right, rkey, w, rk)| == if n == 0 then 1 else n
  {
  }

  /** How many times `x` occurs in `s` at position `k` or later. */
  function CountFrom(s: seq<nat>, x: nat, k: nat): nat
    decreases |s| - k
  {
    if k >= |s| then 0 else (if s[k] == x then 1 else 0) + CountFrom(s, x, k + 1)
  }

  lemma {:induction false} CountFromMultiset(s: seq<nat>, x: nat, k: nat)
    requires k <= |s|
    ensures CountFrom(s, x, k) == multiset(s[k..])[x]
    decreases |s| - k
  {
    if k < |s| {
      CountFromMultiset(s, x, k + 1);
      assert s[k..] == [s[k]] + s[k + 1..];
    }
  }

  lemma {:induction false} CountFromShift(s: seq<nat>, i: nat, k: nat)
    ensures CountFrom(Shift(s), i + 1, k) == CountFrom(s, i, k) && CountFrom(Shift(s), 0, k) == 0
    decreases |s| - k
  {
    if k < |s| { CountFromShift(s, i, k + 1); }
  }

  lemma {:induction false} CountFromZeros(n: nat, i: nat, k: nat)
    ensures CountFrom(Zeros(n), i, k) == if i == 0 && k <= n then n - k else 0
    decreases n - k
  {
    if k < n { CountFromZeros(n, i, k + 1); }
  }

  lemma {:induction false} CountFromConcat(a: seq<nat>, b: seq<nat>, x: nat, k: nat)
    requires k <= |a|
    ensures CountFrom(a + b, x, k) == CountFrom(a, x, k) + CountFrom(b, x, 0)
    decreases |a| - k
  {
    if k < |a| {
      CountFromConcat(a, b, x, k + 1);
    } else {
      CountFromOffset(a, b, x, 0);
    }
  }

  lemma {:induction false} CountFromOffset(a: seq<nat>, b: seq<nat>, x: nat, k: nat)
    requires k <= |b|
    ensures CountFrom(a + b, x, |a| + k) == CountFrom(b, x, k)
    decreases |b| - k
  {
    if k < |b| { CountFromOffset(a, b, x, k + 1); }
  }

  lemma {:induction false} OriginsCountFrom(ys: seq<nat>, i: nat)
    requires i < |ys|
    ensures CountFrom(Origins(ys), i, 0) == ys[i]
  {
    var o' := Origins(ys[1..]);
    OriginsSplit(ys);
    CountFromConcat(Zeros(ys[0]), Shift(o'), i, 0);
    CountFromZeros(ys[0], i, 0);
    if i == 0 {
      CountFromShift(o', 0, 0);
    } else {
      CountFromShift(o', i - 1, 0);
      OriginsCountFrom(ys[1..], i - 1);
    }
  }

  /** Input row `i` is the origin of exactly as many output rows as it yields. */
  lemma OriginsCount(ys: seq<nat>, i: nat)
    requires i < |ys|
    ensures multiset(Origins(ys))[i] == ys[i]
  {
    OriginsCountFrom(ys, i);
    CountFromMultiset(Origins(ys), i, 0);
    assert Origins(ys)[0..] == Origins(ys);
  }

  /** Left row `i` is the origin of exactly as many output rows as it yields. */
  lemma JoinOriginCount(lefts: seq<seq<Cell>>, lw: nat, lkey: nat, right: seq<seq<Cell>>, rkey: nat, w: nat, rk: seq<nat>, i: nat)
    requires lkey < lw && Rectangular(lefts, lw)
    requires rkey < w && Rectangular(right, w)
    requires forall j :: 0 <= j < |rk| ==> rk[j] < w
    requires i < |lefts|
    ensures multiset(JoinOrigin(lefts, lw, lkey, right, rkey, w, rk))[i] == |JoinRow(lefts[i], lkey, right, rkey, w, rk)|
  {
    OriginsCount(Yields(lefts, lw, lkey, right, rkey, w, rk), i);
  }

  lemma {:induction false} OriginOfMonotone(ys: seq<nat>, k: nat, k': nat)
    requires k <= k'
    ensures OriginOf(ys, k) <= OriginOf(ys, k')
  {
    if ys != [] && k >= ys[0] {
      OriginOfMonotone(ys[1..], k - ys[0], k' - ys[0]);
    }
  }

  /** Output rows of a left join come in left order. */
  lemma JoinOriginMonotone(lefts: seq<seq<Cell>>, lw: nat, lkey: nat, right: seq<seq<Cell>>, rkey: nat, w: nat, rk: seq<nat>)
    requires lkey < lw && Rectangular(lefts, lw)
    requires rkey < w && Rectangular(right, w)
    requires forall j :: 0 <= j < |rk| ==> rk[j] < w
    ensures var o := JoinOrigin(lefts, lw, lkey, right, rkey, w, rk);
      forall k, k' :: 0 <= k <= k' < |o| ==> o[k] <= o[k']
  {
    var ys := Yields(lefts, lw, lkey, right, rkey, w, rk);
    var o := JoinOrigin(lefts, lw, lkey, right, rkey, w, rk);
    assert o == Origins(ys);
    forall k, k' | 0 <= k <= k' < |o| ensures o[k] <= o[k'] {
      OriginOfMonotone(ys, k, k');
    }
  }

  /** Every input row that yields at least one output row is some output row's origin. */
  lemma {:induction false} OriginsCover(ys: seq<nat>)
    requires forall i :: 0 <= i < |ys| ==> ys[i] >= 1
    ensures forall i :: 0 <= i < |ys| ==> i in Origins(ys)
  {
    if ys != [] {
      var tail := ys[1..];
      assert forall i :: 0 <= i < |tail| ==> tail[i] == ys[i + 1];
      OriginsCover(tail);
      OriginsStep(ys);
      var o, o' := Origins(ys), Origins(tail);
      forall i | 0 <= i < |ys| ensures i in o {
        if i == 0 { assert o[0] == 0; }
        else {
          assert i - 1 in o';
          var k :| 0 <= k < |o'| && o'[k] == i - 1;
          assert o[ys[0] + k] == i;
        }
      }
    }
  }

  /** Every left row is the origin of some output row of a left join. */
  lemma JoinOriginCovers(lefts: seq<seq<Cell>>, lw: nat, lkey: nat, right: seq<seq<Cell>>, rkey: nat, w: nat, rk: seq<nat>)
    requires lkey < lw && Rectangular(lefts, lw)
    requires rkey < w && Rectangular(right, w)
    requires forall j :: 0 <= j < |rk| ==> rk[j] < w
    ensures var o := JoinOrigin(lefts, lw, lkey, right, rkey, w, rk);
      forall i :: 0 <= i < |lefts| ==> i in o
  {
    OriginsCover(Yields(lefts, lw, lkey, right, rkey, w, rk));
  }

  /** When no left row has more than one match, a left join has one output row per left row. */
  lemma JoinRowsSingle(lefts: seq<seq<Cell>>, lw: nat, lkey: nat, right: seq<seq<Cell>>, rkey: nat, w: nat, rk: seq<nat>)
    requires lkey < lw && Rectangular(lefts, lw)
    requires rkey < w && Rectangular(right, w)
    requires forall j :: 0 <= j < |rk| ==> rk[j] < w
    requires forall i :: 0 <= i < |lefts| ==> |Matches(right, rkey, lefts[i][lkey])| <= 1
    ensures var out := JoinRows(lefts, lw, lkey, right, rkey, w, rk);
      |out| == |lefts| && forall i :: 0 <= i < |lefts| ==> out[i] == JoinRow(lefts[i], lkey, right, rkey, w, rk)[0]
  {
    var gs := JoinGroups(lefts, lw, lkey, right, rkey, w, rk);
    var ys := Lengths(gs);
    forall i | 0 <= i < |lefts| ensures ys[i] == 1 {
      JoinRowSize(lefts[i], lkey, right, rkey, w, rk);
    }
    OriginsOfOnes(ys);
    FlattenSize(gs);
    var out := JoinRows(lefts, lw, lkey, right, rkey, w, rk);
    assert out == Flatten(gs);
    forall i | 0 <= i < |lefts| ensures out[i] == JoinRow(lefts[i], lkey, right, rkey, w, rk)[0] {
      FlattenAt(gs, i);
    }
  }


  /** `left.merge(right, on=key, how='left', suffixes=(lsuf, rsuf))`: a KeyError when
      either side lacks `key`, a MergeError when the suffixes leave two columns with
      one label. */
  function Merge(left: Table, right: Table, key: string, lsuf: string, rsuf: string): (r: Result<Table>)
    requires WF(left) && WF(right)
    ensures r.Err? <==> key !in left.names || key !in right.names ||
                        !Distinct(MergedNames(left.names, right.names, key, lsuf, rsuf))
    ensures r.Err? && (key !in left.names || key !in right.names) ==> r.error == KeyError(key)
    ensures r.Ok? ==> key in left.names && key in right.names
    ensures r.Ok? ==> WF(r.value) && r.value.names == MergedNames(left.names, right.names, key, lsuf, rsuf)
    ensures r.Ok? ==> r.value.rows == JoinRows(left.rows, |left.names|, IndexOf(left.names, key), right.rows,
                                               IndexOf(right.names, key), |right.names|, NonKey(right.names, key))
  {
    if key !in left.names || key !in right.names then Err(KeyError(key))
    else
      var names := MergedNames(left.names, right.names, key, lsuf, rsuf);
      if !Distinct(names) then Err(MergeError)
      else
        var rk := NonKey(right.names, key);
        Ok(Table(names, left.dtypes + Pick(right.dtypes, rk),
                 JoinRows(left.rows, |left.names|, IndexOf(left.names, key), right.rows,
                          IndexOf(right.names, key), |right.names|, rk)))
  }

  /** A left merge succeeds when both sides have the key and the merged labels are distinct. */
  predicate Mergeable(left: Table, right: Table, key: string, lsuf: string, rsuf: string) {
    key in left.names && key in right.names && Distinct(MergedNames(left.names, right.names, key, lsuf, rsuf))
  }

  /** A merge that does not raise had its conditions met. */
  lemma MergeOkMergeable(left: Table, right: Table, key: string, lsuf: string, rsuf: string)
    requires WF(left) && WF(right) && Merge(left, right, key, lsuf, rsuf).Ok?
    ensures Mergeable(left, right, key, lsuf, rsuf)
  {
  }

  lemma {:induction false} TrueIndicesNone(mask: seq<bool>)
    requires forall k :: 0 <= k < |mask| ==> !mask[k]
    ensures TrueIndices(mask) == []
  {
    if mask != [] { TrueIndicesNone(mask[..|mask| - 1]); }
  }

  lemma {:induction false} TrueIndicesAtMostOne(mask: seq<bool>)
    requires forall k, k' :: 0 <= k < k' < |mask| ==> !(mask[k] && mask[k'])
    ensures |TrueIndices(mask)| <= 1
  {
    if mask != [] {
      var init := mask[..|mask| - 1];
      if mask[|mask| - 1] {
        assert forall k :: 0 <= k < |init| ==> !init[k];
        TrueIndicesNone(init);
      } else {
        TrueIndicesAtMostOne(init);
      }
    }
  }

  /** With distinct keys on the right, a value matches at most one right row. */
  lemma MatchesAtMostOne(right: seq<seq<Cell>>, rkey: nat, v: Cell)
    requires forall j :: 0 <= j < |right| ==> rkey < |right[j]|
    requires forall j, j' :: 0 <= j < j' < |right| ==> right[j][rkey] != right[j'][rkey]
    ensures |Matches(right, rkey, v)| <= 1
  {
    TrueIndicesAtMostOne(seq(|right|, j requires 0 <= j < |right| => right[j][rkey] == v));
  }

  /** Every left column survives the join, under its left label. */
  lemma MergeLeftName(left: Table, right: Table, key: string, lsuf: string, rsuf: string, c: string)
    requires WF(left) && WF(right) && Mergeable(left, right, key, lsuf, rsuf) && c in left.names
    ensures LeftLabel(c, right.names, key, lsuf) in Merge(left, right, key, lsuf, rsuf).value.names
  {
    var out := Merge(left, right, key, lsuf, rsuf).value;
    var i := IndexOf(left.names, c);
    assert out.names[..|left.names|][i] == LeftLabel(c, right.names, key, lsuf);
  }

  /** A left column whose label the merge keeps reads, in each output row, the
      cell of the left row that row came from. */
  lemma MergeLeftGet(left: Table, right: Table, key: string, lsuf: string, rsuf: string, k: nat, c: string)
    requires WF(left) && WF(right) && Mergeable(left, right, key, lsuf, rsuf)
    requires c in left.names && LeftLabel(c, right.names, key, lsuf) == c
    requires k < |Merge(left, right, key, lsuf, rsuf).value.rows|
    ensures var out, o := Merge(left, right, key, lsuf, rsuf).value, MergeOrigin(left, right, key, lsuf, rsuf);
      c in out.names && Get(out, k, c) == Get(left, o[k], c)
  {
    var out := Merge(left, right, key, lsuf, rsuf).value;
    var lkey, rkey, rk := IndexOf(left.names, key), IndexOf(right.names, key), NonKey(right.names, key);
    JoinOriginRows(left.rows, |left.names|, lkey, right.rows, rkey, |right.names|, rk);
    var o := JoinOrigin(left.rows, |left.names|, lkey, right.rows, rkey, |right.names|, rk);
    var p := IndexOf(left.names, c);
    assert out.names[..|left.names|][p] == c;
    IndexOfDistinct(out.names, p);
    var l := left.rows[o[k]];
    assert out.rows[k] in JoinRow(l, lkey, right.rows, rkey, |right.names|, rk);
    assert out.rows[k][..|left.names|] == l;
    assert out.rows[k][p] == out.rows[k][..|left.names|][p];
  }

  /** The right cells a left row receives from its first output row. */
  lemma JoinRowFirstCell(l: seq<Cell>, lkey: nat, right: seq<seq<Cell>>, rkey: nat, w: nat, rk: seq<nat>, q: nat)
    requires lkey < |l| && rkey < w && Rectangular(right, w)
    requires forall j :: 0 <= j < |rk| ==> rk[j] < w
    requires q < |rk|
    ensures var ms := Matches(right, rkey, l[lkey]);
      JoinRow(l, lkey, right, rkey, w, rk)[0][|l| + q] == if |ms| == 0 then Null else right[ms[0]][rk[q]]
  {
  }

  /** When every left row matches at most one right row, the merge has one row per left row. */
  lemma MergeRowsSingle(left: Table, right: Table, key: string, lsuf: string, rsuf: string)
    requires WF(left) && WF(right) && Mergeable(left, right, key, lsuf, rsuf)
    requires forall i :: 0 <= i < |left.rows| ==>
               |Matches(right.rows, IndexOf(right.names, key), Get(left, i, key))| <= 1
    ensures var out := Merge(left, right, key, lsuf, rsuf).value;
      var lkey, rkey, rk := IndexOf(left.names, key), IndexOf(right.names, key), NonKey(right.names, key);
      |out.rows| == |left.rows| &&
      forall k :: 0 <= k < |left.rows| ==> out.rows[k] == JoinRow(left.rows[k], lkey, right.rows, rkey, |right.names|, rk)[0]
  {
    var lkey, rkey, rk := IndexOf(left.names, key), IndexOf(right.names, key), NonKey(right.names, key);
    assert forall i :: 0 <= i < |left.rows| ==> Get(left, i, key) == left.rows[i][lkey];
    JoinRowsSingle(left.rows, |left.names|, lkey, right.rows, rkey, |right.names|, rk);
  }

  /** A pandas frame that the code updates in place: `df[c] = ...` reassigns its fields. */
  class Frame {
    var names: seq<string>
    var dtypes: seq<DType>
    var rows: seq<seq<Cell>>

    /** The frame's current contents as a value. */
    function Value(): Table
      reads this
    {
      Table(names, dtypes, rows)
    }

    constructor (t: Table)
      ensures Value() == t
    {
      names, dtypes, rows := t.names, t.dtypes, t.rows;
    }

    /** `df[c] = vals`, in place. */
    method SetColumn(c: string, dt: DType, vals: seq<Cell>)
      requires WF(Value()) && |vals| == |rows|
      modifies this
      ensures Value() == Assign(old(Value()), c, dt, vals)
    {
      var rs := rows;
      if c in names {
        var k := IndexOf(names, c);
        dtypes := dtypes[k := dt];
        rows := seq(|rs|, i requires 0 <= i < |rs| => rs[i][k := vals[i]]);
      } else {
        names := names + [c];
        dtypes := dtypes + [dt];
        rows := seq(|rs|, i requires 0 <= i < |rs| => rs[i] + [vals[i]]);
      }
    }
  }

  /** When every left row matches at most one right row, each output row keeps
      the cells of the left row at its own position. */
  lemma MergeLeftGetSingle(left: Table, right: Table, key: string, lsuf: string, rsuf: string, k: nat, c: string)
    requires WF(left) && WF(right) && Mergeable(left, right, key, lsuf, rsuf)
    requires forall i :: 0 <= i < |left.rows| ==>
               |Matches(right.rows, IndexOf(right.names, key), Get(left, i, key))| <= 1
    requires c in left.names && LeftLabel(c, right.names, key, lsuf) == c && k < |left.rows|
    ensures var out := Merge(left, right, key, lsuf, rsuf).value;
      |out.rows| == |left.rows| && c in out.names && Get(out, k, c) == Get(left, k, c)
  {
    var out := Merge(left, right, key, lsuf, rsuf).value;
    var lkey, rkey, rk := IndexOf(left.names, key), IndexOf(right.names, key), NonKey(right.names, key);
    MergeRowsSingle(left, right, key, lsuf, rsuf);
    var p := IndexOf(left.names, c);
    assert out.names[..|left.names|][p] == c;
    IndexOfDistinct(out.names, p);
    var l := left.rows[k];
    assert out.rows[k][..|left.names|] == l;
    assert out.rows[k][p] == out.rows[k][..|left.names|][p];
  }

  /** The origin of one output row of a left join. */
  lemma JoinOriginAt(lefts: seq<seq<Cell>>, lw: nat, lkey: nat, right: seq<seq<Cell>>, rkey: nat, w: nat, rk: seq<nat>, k: nat)
    requires lkey < lw && Rectangular(lefts, lw)
    requires rkey < w && Rectangular(right, w)
    requires forall j :: 0 <= j < |rk| ==> rk[j] < w
    requires k < |JoinRows(lefts, lw, lkey, right, rkey, w, rk)|
    ensures var out, o := JoinRows(lefts, lw, lkey, right, rkey, w, rk), JoinOrigin(lefts, lw, lkey, right, rkey, w, rk);
      |o| == |out| && o[k] < |lefts| && out[k] in JoinRow(lefts[o[k]], lkey, right, rkey, w, rk)
  {
    JoinOriginRows(lefts, lw, lkey, right, rkey, w, rk);
  }

  /** Where a right column lands among the merged labels. */
  lemma MergeRightLabel(left: Table, right: Table, key: string, lsuf: string, rsuf: string, c: string)
    requires WF(left) && WF(right) && Mergeable(left, right, key, lsuf, rsuf)
    requires c in right.names && c != key
    ensures var out, rk := Merge(left, right, key, lsuf, rsuf).value, NonKey(right.names, key);
      && IndexOf(right.names, c) in rk
      && RightLabel(c, left.names, rsuf) in out.names
      && IndexOf(out.names, RightLabel(c, left.names, rsuf)) == |left.names| + IndexOf(rk, IndexOf(right.names, c))
  {
    hide Merge; hide JoinRows; hide TrueIndices; hide LeftLabels; hide RightLabels; hide MergedNames;
    var out, rk := Merge(left, right, key, lsuf, rsuf).value, NonKey(right.names, key);
    var p := IndexOf(right.names, c);
    assert p in rk;
    var q := IndexOf(rk, p);
    assert out.names[|left.names| + q] == RightLabel(c, left.names, rsuf) by {
      assert out.names == MergedNames(left.names, right.names, key, lsuf, rsuf);
    }
    IndexOfDistinct(out.names, |left.names| + q);
  }

  /** Which left row each row of a successful left merge came from. */
  ghost function MergeOrigin(left: Table, right: Table, key: string, lsuf: string, rsuf: string): (o: seq<nat>)
    requires WF(left) && WF(right) && Mergeable(left, right, key, lsuf, rsuf)
    ensures |o| == |Merge(left, right, key, lsuf, rsuf).value.rows| >= |left.rows|
    ensures forall k :: 0 <= k < |o| ==> o[k] < |left.rows|
  {
    var lkey, rkey, rk := IndexOf(left.names, key), IndexOf(right.names, key), NonKey(right.names, key);
    JoinSizes(left.rows, |left.names|, lkey, right.rows, rkey, |right.names|, rk);
    JoinOriginRows(left.rows, |left.names|, lkey, right.rows, rkey, |right.names|, rk);
    JoinOrigin(left.rows, |left.names|, lkey, right.rows, rkey, |right.names|, rk)
  }

  /** The origins of a left merge are in left-row order. */
  lemma MergeOriginMonotone(left: Table, right: Table, key: string, lsuf: string, rsuf: string)
    requires WF(left) && WF(right) && Mergeable(left, right, key, lsuf, rsuf)
    ensures var o := MergeOrigin(left, right, key, lsuf, rsuf);
      forall k, k' :: 0 <= k <= k' < |o| ==> o[k] <= o[k']
  {
    var lkey, rkey, rk := IndexOf(left.names, key), IndexOf(right.names, key), NonKey(right.names, key);
    JoinOriginMonotone(left.rows, |left.names|, lkey, right.rows, rkey, |right.names|, rk);
  }

  /** Every left row is the origin of at least one row of a left merge. */
  lemma MergeOriginCovers(left: Table, right: Table, key: string, lsuf: string, rsuf: string)
    requires WF(left) && WF(right) && Mergeable(left, right, key, lsuf, rsuf)
    ensures var o := MergeOrigin(left, right, key, lsuf, rsuf);
      forall i :: 0 <= i < |left.rows| ==> i in o
  {
    var lkey, rkey, rk := IndexOf(left.names, key), IndexOf(right.names, key), NonKey(right.names, key);
    JoinOriginCovers(left.rows, |left.names|, lkey, right.rows, rkey, |right.names|, rk);
  }
  /** Each left row appears once per right row with an equal key, or once when
      there is none. */
  lemma MergeOriginCount(left: Table, right: Table, key: string, lsuf: string, rsuf: string, i: nat)
    requires WF(left) && WF(right) && Mergeable(left, right, key, lsuf, rsuf) && i < |left.rows|
    ensures var n := |Matches(right.rows, IndexOf(right.names, key), Get(left, i, key))|;
      multiset(MergeOrigin(left, right, key, lsuf, rsuf))[i] == if n == 0 then 1 else n
  {
    var lkey, rkey, rk := IndexOf(left.names, key), IndexOf(right.names, key), NonKey(right.names, key);
    JoinOriginCount(left.rows, |left.names|, lkey, right.rows, rkey, |right.names|, rk, i);
    JoinRowSize(left.rows[i], lkey, right.rows, rkey, |right.names|, rk);
  }


  /** The right part of one row a left row produces: all missing when nothing
      matched, and otherwise the non-key cells of one matching right row. */
  lemma JoinRowRight(l: seq<Cell>, lkey: nat, right: seq<seq<Cell>>, rkey: nat, w: nat, rk: seq<nat>, row: seq<Cell>) returns (j: nat)
    requires lkey < |l| && rkey < w && Rectangular(right, w)
    requires forall j :: 0 <= j < |rk| ==> rk[j] < w
    requires row in JoinRow(l, lkey, right, rkey, w, rk)
    ensures var ms := Matches(right, rkey, l[lkey]);
      && |row| == |l| + |rk|
      && (|ms| == 0 ==> forall p :: |l| <= p < |l| + |rk| ==> row[p] == Null)
      && (|ms| > 0 ==> j < |right| && right[j][rkey] == l[lkey] &&
                       forall q :: 0 <= q < |rk| ==> row[|l| + q] == right[j][rk[q]])
  {
    var ms := Matches(right, rkey, l[lkey]);
    var jr := JoinRow(l, lkey, right, rkey, w, rk);
    var m :| 0 <= m < |jr| && jr[m] == row;
    j := 0;
    if |ms| > 0 {
      j := ms[m];
      assert row == l + Pick(right[j], rk);
    }
  }

  /** The right part of output row `k` of a left join, by the left row it came from. */
  lemma JoinRowsRight(lefts: seq<seq<Cell>>, lw: nat, lkey: nat, right: seq<seq<Cell>>, rkey: nat, w: nat, rk: seq<nat>, k: nat) returns (j: nat)
    requires lkey < lw && Rectangular(lefts, lw)
    requires rkey < w && Rectangular(right, w)
    requires forall j :: 0 <= j < |rk| ==> rk[j] < w
    requires k < |JoinRows(lefts, lw, lkey, right, rkey, w, rk)|
    ensures var out, o := JoinRows(lefts, lw, lkey, right, rkey, w, rk), JoinOrigin(lefts, lw, lkey, right, rkey, w, rk);
      && k < |o| && o[k] < |lefts|
      && var ms := Matches(right, rkey, lefts[o[k]][lkey]);
      && |out[k]| == lw + |rk|
      && (|ms| == 0 ==> forall p :: lw <= p < lw + |rk| ==> out[k][p] == Null)
      && (|ms| > 0 ==> j < |right| && right[j][rkey] == lefts[o[k]][lkey] &&
                       forall q :: 0 <= q < |rk| ==> out[k][lw + q] == right[j][rk[q]])
  {
    hide JoinRows; hide JoinGroups; hide Flatten; hide JoinOrigin; hide Origins; hide Yields;
    var out, o := JoinRows(lefts, lw, lkey, right, rkey, w, rk), JoinOrigin(lefts, lw, lkey, right, rkey, w, rk);
    JoinOriginAt(lefts, lw, lkey, right, rkey, w, rk, k);
    j := JoinRowRight(lefts[o[k]], lkey, right, rkey, w, rk, out[k]);
  }

  /** `Get` at a column whose position is known. */
  lemma GetAt(t: Table, i: nat, c: string, p: nat)
    requires WF(t) && i < |t.rows| && c in t.names && IndexOf(t.names, c) == p
    ensures p < |t.rows[i]| && Get(t, i, c) == t.rows[i][p]
  {
  }

  /** A left merge looks each left row's key up among the right keys: with no
      equal right key, the right columns `c1` and `c2` are missing; otherwise
      both hold the cells of one right row with an equal key. */
  lemma MergeLookup(left: Table, right: Table, key: string, lsuf: string, rsuf: string, k: nat, c1: string, c2: string)
    requires WF(left) && WF(right) && Mergeable(left, right, key, lsuf, rsuf)
    requires k < |Merge(left, right, key, lsuf, rsuf).value.rows|
    requires c1 in right.names && c1 != key && c1 !in left.names
    requires c2 in right.names && c2 != key && c2 !in left.names
    ensures var out, o := Merge(left, right, key, lsuf, rsuf).value, MergeOrigin(left, right, key, lsuf, rsuf);
      var v := Get(left, o[k], key);
      && c1 in out.names && c2 in out.names
      && ((forall j :: 0 <= j < |right.rows| ==> Get(right, j, key) != v) ==>
            Get(out, k, c1) == Null && Get(out, k, c2) == Null)
      && ((exists j :: 0 <= j < |right.rows| && Get(right, j, key) == v) ==>
            exists j :: 0 <= j < |right.rows| && Get(right, j, key) == v &&
                        Get(out, k, c1) == Get(right, j, c1) && Get(out, k, c2) == Get(right, j, c2))
  {
    var out, o := Merge(left, right, key, lsuf, rsuf).value, MergeOrigin(left, right, key, lsuf, rsuf);
    var matched, j := MergeRowRight(left, right, key, lsuf, rsuf, k);
    hide Merge; hide MergeOrigin; hide Matches; hide NonKey; hide MergedNames; hide JoinRows; hide JoinOrigin; hide WF;
    if !matched {
      MergeRightNull(left, right, key, lsuf, rsuf, k, c1);
      MergeRightNull(left, right, key, lsuf, rsuf, k, c2);
    } else {
      var q1 := MergeRightPos(left, right, key, lsuf, rsuf, c1);
      var q2 := MergeRightPos(left, right, key, lsuf, rsuf, c2);
      MergeRightCell(left, right, key, lsuf, rsuf, k, j, c1, q1);
      MergeRightCell(left, right, key, lsuf, rsuf, k, j, c2, q2);
    }
  }

  /** The right part of one merged row, read off the row-level join: all missing
      when no right key equals the left key, else the non-key cells of a right
      row `j` with an equal key. */
  lemma MergeRowRight(left: Table, right: Table, key: string, lsuf: string, rsuf: string, k: nat) returns (matched: bool, j: nat)
    requires WF(left) && WF(right) && Mergeable(left, right, key, lsuf, rsuf)
    requires k < |Merge(left, right, key, lsuf, rsuf).value.rows|
    ensures var out, o := Merge(left, right, key, lsuf, rsuf).value, MergeOrigin(left, right, key, lsuf, rsuf);
      var lw, rk, v := |left.names|, NonKey(right.names, key), Get(left, o[k], key);
      && |out.rows[k]| == lw + |rk| && (forall q :: 0 <= q < |rk| ==> rk[q] < |right.names|)
      && (!matched ==> (forall j' :: 0 <= j' < |right.rows| ==> Get(right, j', key) != v) &&
                       forall p :: lw <= p < lw + |rk| ==> out.rows[k][p] == Null)
      && (matched ==> j < |right.rows| && |right.rows[j]| == |right.names| && Get(right, j, key) == v &&
                      forall q :: 0 <= q < |rk| ==> out.rows[k][lw + q] == right.rows[j][rk[q]])
  {
    hide Merge; hide MergedNames; hide JoinRows; hide JoinGroups; hide Flatten; hide JoinRow;
    hide MatchedRows; hide Matches; hide TrueIndices; hide NonKey; hide Pick; hide NullCells; hide JoinOrigin;
    var out, o := Merge(left, right, key, lsuf, rsuf).value, MergeOrigin(left, right, key, lsuf, rsuf);
    var lkey, rkey, rk := IndexOf(left.names, key), IndexOf(right.names, key), NonKey(right.names, key);
    var lw := |left.names|;
    assert out.rows == JoinRows(left.rows, lw, lkey, right.rows, rkey, |right.names|, rk);
    assert o == JoinOrigin(left.rows, lw, lkey, right.rows, rkey, |right.names|, rk);
    j := JoinRowsRight(left.rows, lw, lkey, right.rows, rkey, |right.names|, rk, k);
    GetAt(left, o[k], key, lkey);
    var v := left.rows[o[k]][lkey];
    matched := |Matches(right.rows, rkey, v)| > 0;
    if matched {
      GetAt(right, j, key, rkey);
    } else {
      forall j' | 0 <= j' < |right.rows| ensures Get(right, j', key) != v {
        GetAt(right, j', key, rkey);
      }
    }
  }

  /** A right column of a merged row that matched right row `j` holds that row's cell. */
  lemma MergeRightCell(left: Table, right: Table, key: string, lsuf: string, rsuf: string, k: nat, j: nat, c: string, q: nat)
    requires WF(left) && WF(right) && Mergeable(left, right, key, lsuf, rsuf)
    requires k < |Merge(left, right, key, lsuf, rsuf).value.rows| && j < |right.rows|
    requires c in right.names && c != key && c !in left.names
    requires var out, rk := Merge(left, right, key, lsuf, rsuf).value, NonKey(right.names, key);
      && q < |rk| && rk[q] == IndexOf(right.names, c) < |right.rows[j]|
      && c in out.names && IndexOf(out.names, c) == |left.names| + q < |out.rows[k]|
      && out.rows[k][|left.names| + q] == right.rows[j][rk[q]]
    ensures Get(Merge(left, right, key, lsuf, rsuf).value, k, c) == Get(right, j, c)
  {
    hide Merge; hide MergedNames; hide JoinRows; hide NonKey; hide Get;
    var out := Merge(left, right, key, lsuf, rsuf).value;
    GetAt(out, k, c, |left.names| + q);
    GetAt(right, j, c, IndexOf(right.names, c));
  }

  /** A right-only column `c` sits in the merged table at the left width plus
      its position among the right non-key columns. */
  lemma MergeRightPos(left: Table, right: Table, key: string, lsuf: string, rsuf: string, c: string) returns (q: nat)
    requires WF(left) && WF(right) && Mergeable(left, right, key, lsuf, rsuf)
    requires c in right.names && c != key && c !in left.names
    ensures var out, rk := Merge(left, right, key, lsuf, rsuf).value, NonKey(right.names, key);
      && q < |rk| && rk[q] == IndexOf(right.names, c)
      && c in out.names && IndexOf(out.names, c) == |left.names| + q
  {
    hide Merge; hide MergedNames; hide JoinRows; hide NonKey;
    MergeRightLabel(left, right, key, lsuf, rsuf, c);
    RightLabelFresh(c, left.names, rsuf);
    q := IndexOf(NonKey(right.names, key), IndexOf(right.names, c));
  }

  /** A right column of a merged row that matched no right row is missing. */
  lemma MergeRightNull(left: Table, right: Table, key: string, lsuf: string, rsuf: string, k: nat, c: string)
    requires WF(left) && WF(right) && Mergeable(left, right, key, lsuf, rsuf)
    requires k < |Merge(left, right, key, lsuf, rsuf).value.rows|
    requires c in right.names && c != key && c !in left.names
    requires var out, rk := Merge(left, right, key, lsuf, rsuf).value, NonKey(right.names, key);
      forall p :: |left.names| <= p < |left.names| + |rk| ==> out.rows[k][p] == Null
    ensures var out := Merge(left, right, key, lsuf, rsuf).value;
      c in out.names && Get(out, k, c) == Null
  {
    var q := MergeRightPos(left, right, key, lsuf, rsuf, c);
    hide Merge; hide MergedNames; hide JoinRows; hide NonKey; hide Get; hide WF; hide IndexOf;
    var out := Merge(left, right, key, lsuf, rsuf).value;
    GetAt(out, k, c, |left.names| + q);
  }

  /** `s.str[lo:hi]`: Python slicing of a string cell; other cells give a missing value. */
  function StrSlice(c: Cell, lo: nat, hi: nat): (r: Cell)
    ensures r != Null <==> c.Str?
    ensures c.Str? ==> r == Str(c.s[Min(lo, |c.s|)..Max(Min(lo, |c.s|), Min(hi, |c.s|))])
  {
    if c.Str? then
      var a := Min(lo, |c.s|);
      Str(c.s[a..Max(a, Min(hi, |c.s|))])
    else Null
  }

  function Min(a: nat, b: nat): nat { if a <= b then a else b }
  function Max(a: nat, b: nat): nat { if a <= b then b else a }

  /** Slicing a prefix of a prefix is slicing the shorter prefix. */
  lemma StrSlicePrefix(c: Cell, n: nat, m: nat)
    requires m <= n
    ensures StrSlice(StrSlice(c, 0, n), 0, m) == StrSlice(c, 0, m)
  {
  }

  /** `s.str[i]`: the i-th character of a string cell; a missing value when the
      cell is not a string or is too short. */
  function StrAt(c: Cell, i: nat): (r: Cell)
    ensures r != Null <==> c.Str? && i < |c.s|
    ensures r != Null ==> r == Str([c.s[i]])
  {
    if c.Str? && i < |c.s| then Str([c.s[i]]) else Null
  }

  /** How `str()` renders what this model does not spell out: non-integral floats
      (Python's shortest round-trip form) and timestamps. */
  datatype Renderer = Renderer(
    float: real -> string,   // a float that is not whole, or whose magnitude is 10^16 or more
    time: int -> string,     // a timestamp
    number: real -> string   // a number in an object column: a Python int or float, which cells do not tell apart
  )

  function DigitChar(d: nat): char
    requires d < 10
  {
    "0123456789"[d]
  }

  /** Decimal digits of a natural number, without leading zeros. */
  function NatToDecimal(n: nat): (s: string)
    ensures |s| >= 1
    decreases n
  {
    if n < 10 then [DigitChar(n)] else NatToDecimal(n / 10) + [DigitChar(n % 10)]
  }

  /** The number a string of decimal digits reads as. */
  function DecimalValue(s: string): nat
    requires forall i :: 0 <= i < |s| ==> '0' <= s[i] <= '9'
  {
    if s == [] then 0 else 10 * DecimalValue(s[..|s| - 1]) + (s[|s| - 1] as int - '0' as int)
  }

  /** Each digit character stands for its own value. */
  lemma DigitCharValue(d: nat)
    requires d < 10
    ensures '0' <= DigitChar(d) <= '9' && DigitChar(d) as int - '0' as int == d
  {
    assert "0123456789"[d] as int - '0' as int == d by {
      if d < 5 {
        assert d == 0 || d == 1 || d == 2 || d == 3 || d == 4;
      } else {
        assert d == 5 || d == 6 || d == 7 || d == 8 || d == 9;
      }
    }
  }

  /** The rendering is all digits, starts with a zero only when it is "0", and
      reads back as the number rendered. */
  lemma {:induction false} NatToDecimalValue(n: nat)
    ensures var s := NatToDecimal(n);
      && (forall i :: 0 <= i < |s| ==> '0' <= s[i] <= '9')
      && (s[0] == '0' <==> n == 0)
      && (s[0] == '0' ==> s == "0")
      && DecimalValue(s) == n
    decreases n
  {
    var s := NatToDecimal(n);
    if n < 10 {
      DigitCharValue(n);
      assert s == [DigitChar(n)];
      assert DecimalValue(s) == 10 * DecimalValue([]) + (DigitChar(n) as int - '0' as int);
    } else {
      var p := NatToDecimal(n / 10);
      NatToDecimalValue(n / 10);
      DigitCharValue(n % 10);
      assert s == p + [DigitChar(n % 10)];
      assert s[..|s| - 1] == p;
      assert s[0] == p[0];
    }
  }

  function IntToDecimal(n: int): string {
    if n < 0 then "-" + NatToDecimal(-n) else NatToDecimal(n)
  }

  /** Python's `repr` of a float switches to exponent form from this magnitude on. */
  const FloatPositional: real := 10000000000000000.0

  /** `series.astype(str)` for one cell of a column of dtype `dt`. */
  function AsStr(c: Cell, dt: DType, render: Renderer): (s: string)
    ensures c.Str? ==> s == c.s
    ensures c.Null? ==> s == "nan"
  {
    match c
    case Null => "nan"
    case Str(s) => s
    case Num(x) =>
      if dt == Int64 && x == x.Floor as real then IntToDecimal(x.Floor)
      else if dt == Float64 && x == x.Floor as real && -FloatPositional < x < FloatPositional then
        IntToDecimal(x.Floor) + ".0"
      else if dt == Float64 then render.float(x)
      else render.number(x)
    case Time(t) => render.time(t)
    case Bool(b) => if b then "True" else "False"
  }

  /** `s` is an optional minus sign, present exactly when `n` is negative, then
      decimal digits reading as the magnitude of `n`, then `suffix`. */
  predicate WholeRendering(s: string, n: int, suffix: string) {
    && |s| >= |suffix| + 1 && s[|s| - |suffix|..] == suffix
    && var t := s[..|s| - |suffix|];
       && (t[0] == '-' <==> n < 0)
       && var d := if n < 0 then t[1..] else t;
          && (forall i :: 0 <= i < |d| ==> '0' <= d[i] <= '9')
          && DecimalValue(d) == (if n < 0 then -n else n)
  }

  /** A whole number in an integer column renders as its signed decimal digits; a
      whole float below 10^16 in a float column renders the same way followed by ".0". */
  lemma AsStrWholeNumber(x: real, dt: DType, render: Renderer)
    requires x == x.Floor as real
    requires dt == Int64 || (dt == Float64 && -FloatPositional < x < FloatPositional)
    ensures WholeRendering(AsStr(Num(x), dt, render), x.Floor, if dt == Int64 then "" else ".0")
  {
    hide *;
    var n := x.Floor;
    AsStrWhole(x, dt, render);
    IntToDecimalValue(n);
    if dt == Float64 {
      WholeRenderingSuffix(IntToDecimal(n), n, ".0");
    }
  }

  /** Which branch of `AsStr` a whole number in range takes. */
  lemma AsStrWhole(x: real, dt: DType, render: Renderer)
    requires x == x.Floor as real
    requires dt == Int64 || (dt == Float64 && -FloatPositional < x < FloatPositional)
    ensures AsStr(Num(x), dt, render) == if dt == Int64 then IntToDecimal(x.Floor) else IntToDecimal(x.Floor) + ".0"
  {
  }

  /** Appending a suffix to a bare rendering gives a rendering with that suffix. */
  lemma WholeRenderingSuffix(t: string, n: int, suffix: string)
    requires WholeRendering(t, n, "")
    ensures WholeRendering(t + suffix, n, suffix)
  {
    var s := t + suffix;
    assert s[|s| - |suffix|..] == suffix;
    assert s[..|s| - |suffix|] == t;
    assert t[..|t| - 0] == t;
  }

  /** The signed rendering of an integer: a minus sign exactly for a negative
      number, then digits that read back as the magnitude. */
  lemma IntToDecimalValue(n: int)
    ensures WholeRendering(IntToDecimal(n), n, "")
  {
    hide NatToDecimal; hide DecimalValue;
    var m := if n < 0 then -n else n;
    NatToDecimalValue(m);
    var t := IntToDecimal(n);
    assert t[..|t| - 0] == t;
    if n < 0 {
      assert t == "-" + NatToDecimal(m);
      assert t[1..] == NatToDecimal(m);
    }
  }

  /** `a.fillna(b)` cell by cell. */
  function Coalesce(a: Cell, b: Cell): (r: Cell)
    ensures r == Null <==> a == Null && b == Null
    ensures a != Null ==> r == a
  {
    if a != Null then a else b
  }

  /** `df[c].str[lo:hi]` over a whole column. */
  function StrSliceColumn(col: seq<Cell>, lo: nat, hi: nat): (r: seq<Cell>)
    ensures |r| == |col| && forall i :: 0 <= i < |col| ==> r[i] == StrSlice(col[i], lo, hi)
  {
    seq(|col|, i requires 0 <= i < |col| => StrSlice(col[i], lo, hi))
  }

  /** `df[c].str[i]` over a whole column. */
  function StrAtColumn(col: seq<Cell>, i: nat): (r: seq<Cell>)
    ensures |r| == |col| && forall k :: 0 <= k < |col| ==> r[k] == StrAt(col[k], i)
  {
    seq(|col|, k requires 0 <= k < |col| => StrAt(col[k], i))
  }

  /** `df[c].astype(str)` over a whole column. */
  function AsStrColumn(t: Table, c: string, render: Renderer): (r: seq<Cell>)
    requires WF(t) && c in t.names
    ensures |r| == |t.rows|
    ensures forall i :: 0 <= i < |t.rows| ==> r[i] == Str(AsStr(Get(t, i, c), DTypeOf(t, c), render))
  {
    seq(|t.rows|, i requires 0 <= i < |t.rows| => Str(AsStr(Get(t, i, c), DTypeOf(t, c), render)))
  }

  /** An element that does not occur before position `k` is found at `k`. */
  lemma IndexOfFirst<T>(s: seq<T>, k: nat)
    requires k < |s| && s[k] !in s[..k]
    ensures IndexOf(s, s[k]) == k
  {
  }

  /** Each row `drop_duplicates` keeps is the first input row carrying its key. */
  lemma DropDuplicatesRow(t: Table, c: string, j: nat)
    requires WF(t) && c in t.names && j < |DropDuplicates(t, c).rows|
    ensures var r, col := DropDuplicates(t, c), Column(t, c);
      Get(r, j, c) in col && r.rows[j] == t.rows[IndexOf(col, Get(r, j, c))]
  {
    var col := Column(t, c);
    var mask := FirstOccurrences(col);
    var ks := TrueIndices(mask);
    var r := DropDuplicates(t, c);
    assert r.rows[j] == t.rows[ks[j]];
    assert Get(r, j, c) == col[ks[j]];
    IndexOfFirst(col, ks[j]);
  }

  /** Every key of the input survives `drop_duplicates`. */
  lemma DropDuplicatesHasKey(t: Table, c: string, v: Cell)
    requires WF(t) && c in t.names && v in Column(t, c)
    ensures var r := DropDuplicates(t, c);
      exists j :: 0 <= j < |r.rows| && Get(r, j, c) == v
  {
    var col := Column(t, c);
    var r := DropDuplicates(t, c);
    var i := IndexOf(col, v);
    DropDuplicatesKeepsFirst(t, c);
    assert t.rows[IndexOf(col, Get(t, i, c))] in r.rows;
    var j :| 0 <= j < |r.rows| && r.rows[j] == t.rows[i];
    assert Get(r, j, c) == Get(t, i, c);
  }

  /** A left merge against a table with distinct keys is a lookup: one output
      row per left row, carrying the right row with the same key, or a missing
      cell when no right row has it. */
  lemma MergeUniqueLookup(left: Table, right: Table, key: string, lsuf: string, rsuf: string, k: nat, c: string)
    requires WF(left) && WF(right) && Mergeable(left, right, key, lsuf, rsuf)
    requires forall j, j' :: 0 <= j < j' < |right.rows| ==> Get(right, j, key) != Get(right, j', key)
    requires k < |left.rows| && c in right.names && c != key && c !in left.names
    ensures var out := Merge(left, right, key, lsuf, rsuf).value;
      && |out.rows| == |left.rows| && c in out.names
      && ((forall j :: 0 <= j < |right.rows| ==> Get(right, j, key) != Get(left, k, key)) ==> Get(out, k, c) == Null)
      && (forall j :: 0 <= j < |right.rows| && Get(right, j, key) == Get(left, k, key) ==> Get(out, k, c) == Get(right, j, c))
  {
    var out := Merge(left, right, key, lsuf, rsuf).value;
    var rkey := IndexOf(right.names, key);
    var v := Get(left, k, key);
    var ms := Matches(right.rows, rkey, v);
    MergeUniqueRows(left, right, key, lsuf, rsuf);
    MergeUniqueCell(left, right, key, lsuf, rsuf, k, c);
    hide Merge; hide Matches; hide JoinRow; hide NonKey;
    forall j | 0 <= j < |right.rows| && Get(right, j, key) == v ensures Get(out, k, c) == Get(right, j, c) {
      GetAt(right, j, key, rkey);
      assert j in ms;
      GetAt(right, ms[0], key, rkey);
      assert Get(right, ms[0], key) == v;
      assert ms[0] == j;
    }
  }

  /** Under unique right keys the merge keeps one row per left row: the first
      (and only) row its join produces. */
  lemma MergeUniqueRows(left: Table, right: Table, key: string, lsuf: string, rsuf: string)
    requires WF(left) && WF(right) && Mergeable(left, right, key, lsuf, rsuf)
    requires forall j, j' :: 0 <= j < j' < |right.rows| ==> Get(right, j, key) != Get(right, j', key)
    ensures var out := Merge(left, right, key, lsuf, rsuf).value;
      var lkey, rkey, rk := IndexOf(left.names, key), IndexOf(right.names, key), NonKey(right.names, key);
      && (forall j, j' :: 0 <= j < j' < |right.rows| ==> right.rows[j][rkey] != right.rows[j'][rkey])
      && |out.rows| == |left.rows|
      && forall k :: 0 <= k < |left.rows| ==> out.rows[k] == JoinRow(left.rows[k], lkey, right.rows, rkey, |right.names|, rk)[0]
  {
    hide Merge; hide MergedNames; hide JoinRows; hide JoinGroups; hide Flatten; hide JoinRow;
    hide MatchedRows; hide TrueIndices; hide NonKey; hide Pick; hide NullCells; hide Matches;
    var rkey := IndexOf(right.names, key);
    forall j, j' | 0 <= j < j' < |right.rows| ensures right.rows[j][rkey] != right.rows[j'][rkey] {
      GetAt(right, j, key, rkey);
      GetAt(right, j', key, rkey);
    }
    forall i | 0 <= i < |left.rows| ensures |Matches(right.rows, rkey, Get(left, i, key))| <= 1 {
      MatchesAtMostOne(right.rows, rkey, Get(left, i, key));
    }
    MergeRowsSingle(left, right, key, lsuf, rsuf);
  }

  /** Output row `k` of the merge is the first row left row `k`'s join produces. */
  predicate FirstJoinRowAt(left: Table, right: Table, key: string, lsuf: string, rsuf: string, k: nat)
    requires WF(left) && WF(right) && Mergeable(left, right, key, lsuf, rsuf) && k < |left.rows|
  {
    && k < |Merge(left, right, key, lsuf, rsuf).value.rows|
    && Rectangular(right.rows, |right.names|) && |left.rows[k]| == |left.names|
    && Merge(left, right, key, lsuf, rsuf).value.rows[k] ==
         JoinRow(left.rows[k], IndexOf(left.names, key), right.rows, IndexOf(right.names, key),
                 |right.names|, NonKey(right.names, key))[0]
  }

  /** What `FirstJoinRowAt` states, for proofs that keep its definition hidden. */
  lemma FirstJoinRowFacts(left: Table, right: Table, key: string, lsuf: string, rsuf: string, k: nat)
    requires WF(left) && WF(right) && Mergeable(left, right, key, lsuf, rsuf) && k < |left.rows|
    requires FirstJoinRowAt(left, right, key, lsuf, rsuf, k)
    ensures Merge(left, right, key, lsuf, rsuf).Ok? && k < |Merge(left, right, key, lsuf, rsuf).value.rows|
    ensures Rectangular(right.rows, |right.names|) && |left.rows[k]| == |left.names|
    ensures Merge(left, right, key, lsuf, rsuf).value.rows[k] ==
              JoinRow(left.rows[k], IndexOf(left.names, key), right.rows, IndexOf(right.names, key),
                      |right.names|, NonKey(right.names, key))[0]
  {
  }

  /** When merged row `k` is the first row its left row's join produces, a
      right column of it holds the cell of the first matching right row, or is
      missing. */
  lemma MergeUniqueCell(left: Table, right: Table, key: string, lsuf: string, rsuf: string, k: nat, c: string)
    requires WF(left) && WF(right) && Mergeable(left, right, key, lsuf, rsuf)
    requires k < |left.rows| && c in right.names && c != key && c !in left.names
    requires FirstJoinRowAt(left, right, key, lsuf, rsuf, k)
    ensures var out := Merge(left, right, key, lsuf, rsuf).value;
      var ms := Matches(right.rows, IndexOf(right.names, key), Get(left, k, key));
      && c in out.names
      && Get(out, k, c) == if |ms| == 0 then Null else Get(right, ms[0], c)
  {
    hide *;
    FirstJoinRowFacts(left, right, key, lsuf, rsuf, k);
    var out := Merge(left, right, key, lsuf, rsuf).value;
    var lkey, rkey, rk := IndexOf(left.names, key), IndexOf(right.names, key), NonKey(right.names, key);
    MergeRightLabel(left, right, key, lsuf, rsuf, c);
    RightLabelFresh(c, left.names, rsuf);
    var p := IndexOf(right.names, c);
    var q := IndexOf(rk, p);
    GetAt(out, k, c, |left.names| + q);
    GetAt(left, k, key, lkey);
    JoinRowFirstCell(left.rows[k], lkey, right.rows, rkey, |right.names|, rk, q);
    var ms := Matches(right.rows, rkey, Get(left, k, key));
    if |ms| > 0 {
      GetAt(right, ms[0], c, p);
      assert Get(out, k, c) == Get(right, ms[0], c);
    } else {
      assert Get(out, k, c) == Null;
    }
  }
}
