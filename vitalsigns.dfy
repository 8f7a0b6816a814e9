/** Vital-sign cleaning: each of six vitals is checked against an inclusive
    range and overwritten in the caller's frame, with a value outside the range
    becoming missing; rows missing any vital are dropped, and `pain` is then
    forward-filled in the cleaned copy. */
module VitalSigns {
  import opened Frames

  /** The valid ranges, in the order the cleaning loop visits them. */
  function VitalBounds(): seq<(string, real, real)> {
    [
    ("temperature", 95.0, 107.6),
    ("heartrate", 20.0, 250.0),
    ("resprate", 4.0, 60.0),
    ("o2sat", 70.0, 100.0),
    ("sbp", 50.0, 250.0),
    ("dbp", 20.0, 150.0)
  ]
  }

  /** The `subset` of the final `dropna`: the keys of the ranges. */
  function VitalNames(): seq<string> {
    ["temperature", "heartrate", "resprate", "o2sat", "sbp", "dbp"]
  }

  lemma VitalNamesAreKeys()
    ensures |VitalNames()| == |VitalBounds()|
    ensures forall m :: 0 <= m < |VitalBounds()| ==> VitalNames()[m] == VitalBounds()[m].0
    ensures Distinct(VitalNames())
  {
  }

  /** The lambda of the cleaning loop: the value itself when in range, else NaN. */
  function ClipCell(c: Cell, lo: real, hi: real): (r: Cell)
    ensures r == c || r == Null
    ensures r != Null <==> InRange(c, lo, hi)
  {
    if InRange(c, lo, hi) then c else Null
  }

  /** `df[v].apply(...)` for one vital: KeyError for an absent column, TypeError
      when a value cannot be compared with the bounds. */
  function ClipColumn(t: Table, v: string, lo: real, hi: real): (r: Result<seq<Cell>>)
    requires WF(t)
    ensures r.Err? <==> v !in t.names || exists i :: 0 <= i < |t.rows| && !Comparable(Get(t, i, v))
    ensures r.Err? ==> r.error == if v !in t.names then KeyError(v) else TypeError(v)
    ensures r.Ok? ==> |r.value| == |t.rows|
    ensures r.Ok? ==> forall i :: 0 <= i < |t.rows| ==> r.value[i] == ClipCell(Get(t, i, v), lo, hi)
  {
    if v !in t.names then Err(KeyError(v))
    else if exists i :: 0 <= i < |t.rows| && !Comparable(Get(t, i, v)) then Err(TypeError(v))
    else Ok(seq(|t.rows|, i requires 0 <= i < |t.rows| => ClipCell(Get(t, i, v), lo, hi)))
  }

  /** The dtype pandas gives the applied column: a column that gained a NaN is float. */
  function ClippedDType(dt: DType, vals: seq<Cell>): DType {
    if Null in vals then Float64 else dt
  }

  /** No label is given two ranges. */
  predicate DistinctKeys(bounds: seq<(string, real, real)>) {
    forall m, m' :: 0 <= m < m' < |bounds| ==> bounds[m].0 != bounds[m'].0
  }

  /** The first `k` iterations of the cleaning loop over `bounds`; the loop stops
      at the first vital that raises, leaving the earlier columns overwritten. */
  function ClipAll(t: Table, bounds: seq<(string, real, real)>, k: nat): (o: Outcome)
    requires WF(t) && k <= |bounds|
    ensures WF(o.frame) && o.frame.names == t.names && |o.frame.rows| == |t.rows|
    decreases k
  {
    if k == 0 then Outcome(t, None)
    else
      var prev := ClipAll(t, bounds, k - 1);
      if prev.error.Some? then prev
      else
        var (v, lo, hi) := bounds[k - 1];
        match ClipColumn(prev.frame, v, lo, hi)
        case Err(e) => Outcome(prev.frame, Some(e))
        case Ok(vals) => Outcome(Assign(prev.frame, v, ClippedDType(DTypeOf(prev.frame, v), vals), vals), None)
  }

  /** The whole cleaning loop over the six vitals. */
  function ClipVitals(t: Table): (o: Outcome)
    requires WF(t)
    ensures WF(o.frame) && o.frame.names == t.names && |o.frame.rows| == |t.rows|
  {
    ClipAll(t, VitalBounds(), |VitalBounds()|)
  }

  /** Column `v` is present and every value in it can be compared with a bound. */
  predicate Checkable(t: Table, v: string)
    requires WF(t)
  {
    v in t.names && forall i :: 0 <= i < |t.rows| ==> Comparable(Get(t, i, v))
  }

  /** A loop that ran without raising found every label it visited. */
  lemma {:induction false} ClipAllNames(t: Table, bounds: seq<(string, real, real)>, k: nat)
    requires WF(t) && k <= |bounds| && ClipAll(t, bounds, k).error.None?
    ensures forall m :: 0 <= m < k ==> bounds[m].0 in t.names
  {
    hide *;
    if k > 0 {
      ClipAllBack(t, bounds, k);
      ClipAllNames(t, bounds, k - 1);
    }
  }

  /** The `k`-th iteration did not raise: the loop had not raised before it, its
      column could be clipped, and the frame is the previous one with it written. */
  lemma ClipAllBack(t: Table, bounds: seq<(string, real, real)>, k: nat)
    requires WF(t) && 0 < k <= |bounds| && ClipAll(t, bounds, k).error.None?
    ensures ClipAll(t, bounds, k - 1).error.None?
    ensures var prev := ClipAll(t, bounds, k - 1).frame;
      var (v, lo, hi) := bounds[k - 1];
      var vals := ClipColumn(prev, v, lo, hi);
      vals.Ok? && ClipAll(t, bounds, k).frame == Assign(prev, v, ClippedDType(DTypeOf(prev, v), vals.value), vals.value)
  {
  }

  /** After `k` iterations that did not raise, each visited vital holds its clipped
      values and every other column is as it was. */
  lemma ClipAllGet(t: Table, bounds: seq<(string, real, real)>, k: nat, i: nat)
    requires WF(t) && k <= |bounds| && DistinctKeys(bounds) && i < |t.rows|
    requires ClipAll(t, bounds, k).error.None?
    ensures forall m :: 0 <= m < k ==> bounds[m].0 in t.names
    ensures forall m :: 0 <= m < k ==>
              Get(ClipAll(t, bounds, k).frame, i, bounds[m].0) == ClipCell(Get(t, i, bounds[m].0), bounds[m].1, bounds[m].2)
    ensures forall c :: c in t.names && (forall m :: 0 <= m < k ==> bounds[m].0 != c) ==>
              Get(ClipAll(t, bounds, k).frame, i, c) == Get(t, i, c)
  {
    ClipAllNames(t, bounds, k);
    ClipAllVisited(t, bounds, k, i);
    ClipAllUntouched(t, bounds, k, i);
  }

  /** The visited vitals hold their clipped values. */
  lemma {:induction false} ClipAllVisited(t: Table, bounds: seq<(string, real, real)>, k: nat, i: nat)
    requires WF(t) && k <= |bounds| && DistinctKeys(bounds) && i < |t.rows|
    requires ClipAll(t, bounds, k).error.None?
    ensures forall m :: 0 <= m < k ==> bounds[m].0 in t.names
    ensures forall m :: 0 <= m < k ==>
              Get(ClipAll(t, bounds, k).frame, i, bounds[m].0) == ClipCell(Get(t, i, bounds[m].0), bounds[m].1, bounds[m].2)
  {
    hide ClipAll; hide Assign; hide ClipColumn; hide Get; hide WF; hide ClipCell; hide DTypeOf; hide ClippedDType;
    ClipAllNames(t, bounds, k);
    if k > 0 {
      ClipAllBack(t, bounds, k);
      ClipAllVisited(t, bounds, k - 1, i);
      ClipAllUntouched(t, bounds, k - 1, i);
      var prev := ClipAll(t, bounds, k - 1).frame;
      var v := bounds[k - 1].0;
      forall m | 0 <= m < k
        ensures Get(ClipAll(t, bounds, k).frame, i, bounds[m].0) == ClipCell(Get(t, i, bounds[m].0), bounds[m].1, bounds[m].2)
      {
        if m < k - 1 {
          assert bounds[m].0 != v;
        }
      }
    }
  }

  /** The columns the first `k` iterations did not visit are as they were. */
  lemma {:induction false} ClipAllUntouched(t: Table, bounds: seq<(string, real, real)>, k: nat, i: nat)
    requires WF(t) && k <= |bounds| && i < |t.rows|
    requires ClipAll(t, bounds, k).error.None?
    ensures forall c :: c in t.names && (forall m :: 0 <= m < k ==> bounds[m].0 != c) ==>
              Get(ClipAll(t, bounds, k).frame, i, c) == Get(t, i, c)
  {
    hide ClipAll; hide Assign; hide ClipColumn; hide Get; hide WF; hide ClipCell; hide DTypeOf; hide ClippedDType;
    if k > 0 {
      ClipAllBack(t, bounds, k);
      ClipAllUntouched(t, bounds, k - 1, i);
      forall c | c in t.names && (forall m :: 0 <= m < k ==> bounds[m].0 != c)
        ensures Get(ClipAll(t, bounds, k).frame, i, c) == Get(t, i, c)
      {
        assert bounds[k - 1].0 != c;
      }
    } else {
      ClipAllZero(t, bounds);
    }
  }

  /** One more iteration after `k` that did not raise: the column is clipped and
      written, or the iteration raises and the frame stays as it was. */
  lemma ClipAllStep(t: Table, bounds: seq<(string, real, real)>, k: nat, f: Table)
    requires WF(t) && k < |bounds| && ClipAll(t, bounds, k) == Outcome(f, None)
    ensures var (v, lo, hi) := bounds[k];
      var vals := ClipColumn(f, v, lo, hi);
      ClipAll(t, bounds, k + 1) ==
        if vals.Err? then Outcome(f, Some(vals.error))
        else Outcome(Assign(f, v, ClippedDType(DTypeOf(f, v), vals.value), vals.value), None)
  {
  }

  /** The loop runs to the end exactly when every vital is present and comparable. */
  lemma ClipAllOk(t: Table, bounds: seq<(string, real, real)>, k: nat)
    requires WF(t) && k <= |bounds| && DistinctKeys(bounds)
    ensures ClipAll(t, bounds, k).error.None? <==> forall m :: 0 <= m < k ==> Checkable(t, bounds[m].0)
  {
    if ClipAll(t, bounds, k).error.None? {
      ClipAllOkChecked(t, bounds, k);
    }
    if forall m :: 0 <= m < k ==> Checkable(t, bounds[m].0) {
      ClipAllCheckedOk(t, bounds, k);
    }
  }

  /** A loop that did not raise met only checkable vitals. */
  lemma {:induction false} ClipAllOkChecked(t: Table, bounds: seq<(string, real, real)>, k: nat)
    requires WF(t) && k <= |bounds| && DistinctKeys(bounds) && ClipAll(t, bounds, k).error.None?
    ensures forall m :: 0 <= m < k ==> Checkable(t, bounds[m].0)
  {
    hide *;
    if k > 0 {
      ClipAllBack(t, bounds, k);
      ClipAllOkChecked(t, bounds, k - 1);
      var prev := ClipAll(t, bounds, k - 1);
      var (v, lo, hi) := bounds[k - 1];
      CheckableAfter(t, bounds, k - 1);
      ClipColumnOk(prev.frame, v, lo, hi);
    }
  }

  /** Checkable vitals all the way let the loop run without raising. */
  lemma {:induction false} ClipAllCheckedOk(t: Table, bounds: seq<(string, real, real)>, k: nat)
    requires WF(t) && k <= |bounds| && DistinctKeys(bounds)
    requires forall m :: 0 <= m < k ==> Checkable(t, bounds[m].0)
    ensures ClipAll(t, bounds, k).error.None?
  {
    hide *;
    if k > 0 {
      ClipAllCheckedOk(t, bounds, k - 1);
      var prev := ClipAll(t, bounds, k - 1);
      var (v, lo, hi) := bounds[k - 1];
      assert Checkable(t, v);
      CheckableAfter(t, bounds, k - 1);
      ClipColumnOk(prev.frame, v, lo, hi);
      ClipAllStep(t, bounds, k - 1, prev.frame);
    } else {
      ClipAllZero(t, bounds);
    }
  }

  /** Before the first iteration the frame is the input and nothing was raised. */
  lemma ClipAllZero(t: Table, bounds: seq<(string, real, real)>)
    requires WF(t)
    ensures ClipAll(t, bounds, 0) == Outcome(t, None)
  {
  }

  /** An iteration after one that raised changes nothing. */
  lemma ClipAllHalted(t: Table, bounds: seq<(string, real, real)>, k: nat)
    requires WF(t) && k < |bounds| && ClipAll(t, bounds, k).error.Some?
    ensures ClipAll(t, bounds, k + 1) == ClipAll(t, bounds, k)
  {
  }

  /** One iteration goes through exactly when its column is checkable. */
  lemma ClipColumnOk(t: Table, v: string, lo: real, hi: real)
    requires WF(t)
    ensures ClipColumn(t, v, lo, hi).Ok? <==> Checkable(t, v)
  {
  }

  /** The columns the loop has not reached yet are still the input's. */
  lemma CheckableAfter(t: Table, bounds: seq<(string, real, real)>, k: nat)
    requires WF(t) && k < |bounds| && DistinctKeys(bounds) && ClipAll(t, bounds, k).error.None?
    ensures Checkable(ClipAll(t, bounds, k).frame, bounds[k].0) <==> Checkable(t, bounds[k].0)
  {
    var prev := ClipAll(t, bounds, k);
    var v := bounds[k].0;
    forall i | 0 <= i < |t.rows| && v in t.names
      ensures Get(prev.frame, i, v) == Get(t, i, v)
    {
      ClipAllGet(t, bounds, k, i);
    }
  }

  /** When the loop raises, it raises for the first vital that is absent or not comparable:
      KeyError for an absent one, TypeError otherwise. */
  lemma {:induction false} ClipAllError(t: Table, bounds: seq<(string, real, real)>, k: nat)
    requires WF(t) && k <= |bounds| && DistinctKeys(bounds) && ClipAll(t, bounds, k).error.Some?
    ensures exists m :: 0 <= m < k && !Checkable(t, bounds[m].0) &&
              (forall m' :: 0 <= m' < m ==> Checkable(t, bounds[m'].0)) &&
              ClipAll(t, bounds, k).error.value == if bounds[m].0 !in t.names then KeyError(bounds[m].0) else TypeError(bounds[m].0)
  {
    hide *;
    if k == 0 {
      ClipAllZero(t, bounds);
      assert false;
    }
    var prev := ClipAll(t, bounds, k - 1);
    if prev.error.Some? {
      ClipAllHalted(t, bounds, k - 1);
      ClipAllError(t, bounds, k - 1);
    } else {
      var (v, lo, hi) := bounds[k - 1];
      ClipAllOk(t, bounds, k - 1);
      CheckableAfter(t, bounds, k - 1);
      ClipAllStep(t, bounds, k - 1, prev.frame);
      ClipColumnOk(prev.frame, v, lo, hi);
      var m := k - 1;
      assert !Checkable(t, bounds[m].0);
      assert forall m' :: 0 <= m' < m ==> Checkable(t, bounds[m'].0);
      assert ClipAll(t, bounds, k).error.value == if bounds[m].0 !in t.names then KeyError(bounds[m].0) else TypeError(bounds[m].0);
    }
  }

  /** Once the loop has raised, later iterations do not run. */
  lemma {:induction false} ClipAllStops(t: Table, bounds: seq<(string, real, real)>, k: nat)
    requires WF(t) && k <= |bounds| && ClipAll(t, bounds, k).error.Some?
    ensures ClipAll(t, bounds, |bounds|) == ClipAll(t, bounds, k)
    decreases |bounds| - k
  {
    hide ClipAll;
    if k < |bounds| {
      ClipAllHalted(t, bounds, k);
      ClipAllStops(t, bounds, k + 1);
    }
  }

  lemma VitalKeysDistinct()
    ensures DistinctKeys(VitalBounds())
  {
    VitalNamesAreKeys();
  }

  /** The six vitals of row `i` after the whole loop, and its other columns. */
  lemma VitalsGet(t: Table, i: nat)
    requires WF(t) && i < |t.rows| && ClipVitals(t).error.None?
    ensures forall m :: 0 <= m < |VitalBounds()| ==> VitalBounds()[m].0 in t.names
    ensures forall m :: 0 <= m < |VitalBounds()| ==>
              Get(ClipVitals(t).frame, i, VitalBounds()[m].0) ==
              ClipCell(Get(t, i, VitalBounds()[m].0), VitalBounds()[m].1, VitalBounds()[m].2)
    ensures forall c :: c in t.names && c !in VitalNames() ==> Get(ClipVitals(t).frame, i, c) == Get(t, i, c)
  {
    VitalKeysDistinct();
    VitalNamesAreKeys();
    ClipAllGet(t, VitalBounds(), |VitalBounds()|, i);
  }

  /** `_clean_vitalsigns` as a value: the loop's exception, or the rows of the
      overwritten frame that have all six vitals. */
  function Cleaned(t: Table): (r: Result<Table>)
    requires WF(t)
    ensures r.Ok? ==> WF(r.value) && r.value.names == t.names
  {
    var o := ClipVitals(t);
    if o.error.Some? then Err(o.error.value)
    else
      assert forall c :: c in VitalNames() ==> c in o.frame.names by {
        ClipAllNames(t, VitalBounds(), |VitalBounds()|);
        VitalNamesAreKeys();
      }
      Ok(DropNA(o.frame, VitalNames()))
  }

  /** Every vital of row `i` is inside its range. */
  predicate AllInRange(t: Table, i: nat)
    requires WF(t) && i < |t.rows|
  {
    forall m :: 0 <= m < |VitalBounds()| ==>
      VitalBounds()[m].0 in t.names && InRange(Get(t, i, VitalBounds()[m].0), VitalBounds()[m].1, VitalBounds()[m].2)
  }

  /** The input rows the cleaning keeps, in order. */
  ghost function Survivors(t: Table): (ks: seq<nat>)
    requires WF(t) && Cleaned(t).Ok?
    ensures |ks| == |Cleaned(t).value.rows|
  {
    var o := ClipVitals(t);
    ClipAllNames(t, VitalBounds(), |VitalBounds()|);
    VitalNamesAreKeys();
    CompleteRows(o.frame, VitalNames())
  }

  /** A row's vitals are all present after the overwrite exactly when they were all in range. */
  lemma CompleteIffInRange(t: Table, i: nat)
    requires WF(t) && i < |t.rows| && ClipVitals(t).error.None?
    ensures forall c :: c in VitalNames() ==> c in ClipVitals(t).frame.names
    ensures NoneMissing(ClipVitals(t).frame, i, VitalNames()) <==> AllInRange(t, i)
  {
    VitalsGet(t, i);
    VitalNamesAreKeys();
  }

  /** Lines 33-34: the cleaning keeps exactly the rows whose six vitals are all in
      range, in their original order, and each survivor is its input row unchanged. */
  lemma CleanedRows(t: Table)
    requires WF(t) && Cleaned(t).Ok?
    ensures var out, ks := Cleaned(t).value, Survivors(t);
      && (forall j :: 0 <= j < |ks| ==> ks[j] < |t.rows| && out.rows[j] == t.rows[ks[j]])
      && (forall j, j' :: 0 <= j < j' < |ks| ==> ks[j] < ks[j'])
      && (forall i :: 0 <= i < |t.rows| ==> (i in ks <==> AllInRange(t, i)))
  {
    var o := ClipVitals(t);
    var out, ks := Cleaned(t).value, Survivors(t);
    forall i | 0 <= i < |t.rows| ensures i in ks <==> AllInRange(t, i) {
      CompleteIffInRange(t, i);
    }
    forall j | 0 <= j < |ks| ensures out.rows[j] == t.rows[ks[j]] {
      SurvivorUnchanged(t, ks[j]);
      CompleteIffInRange(t, ks[j]);
    }
    forall j, j' | 0 <= j < j' < |ks| ensures ks[j] < ks[j'] {
      ClipAllNames(t, VitalBounds(), |VitalBounds()|);
      VitalNamesAreKeys();
      CompleteRowsIncreasing(o.frame, VitalNames(), j, j');
    }
  }

  /** A row whose vitals are all in range comes through the overwrite unchanged. */
  lemma SurvivorUnchanged(t: Table, i: nat)
    requires WF(t) && i < |t.rows| && ClipVitals(t).error.None? && AllInRange(t, i)
    ensures ClipVitals(t).frame.rows[i] == t.rows[i]
  {
    var f := ClipVitals(t).frame;
    VitalsGet(t, i);
    VitalNamesAreKeys();
    forall p | 0 <= p < |t.names| ensures f.rows[i][p] == t.rows[i][p] {
      IndexOfDistinct(t.names, p);
      var c := t.names[p];
      if m :| 0 <= m < |VitalBounds()| && VitalBounds()[m].0 == c {
        assert Get(f, i, c) == ClipCell(Get(t, i, c), VitalBounds()[m].1, VitalBounds()[m].2);
      } else {
        assert c !in VitalNames();
      }
    }
  }

  /** Lines 29-34: every surviving row has all six vitals inside their inclusive bounds. */
  lemma CleanedInRange(t: Table, j: nat)
    requires WF(t) && Cleaned(t).Ok? && j < |Cleaned(t).value.rows|
    ensures AllInRange(Cleaned(t).value, j)
  {
    CleanedRows(t);
    var out, ks := Cleaned(t).value, Survivors(t);
    assert ks[j] in ks;
    forall m | 0 <= m < |VitalBounds()|
      ensures Get(out, j, VitalBounds()[m].0) == Get(t, ks[j], VitalBounds()[m].0)
    {
    }
  }

  /** Lines 29-32: the caller's frame is overwritten for every row, the dropped ones
      included: a vital out of range or missing becomes missing, one in range stays. */
  lemma CallerFrameCleared(t: Table, i: nat, m: nat)
    requires WF(t) && i < |t.rows| && m < |VitalBounds()| && Cleaned(t).Ok?
    ensures VitalBounds()[m].0 in t.names
    ensures var (v, lo, hi) := VitalBounds()[m];
      Get(ClipVitals(t).frame, i, v) == if InRange(Get(t, i, v), lo, hi) then Get(t, i, v) else Null
  {
    VitalsGet(t, i);
  }

  /** Lines 29-32: the cleaning raises exactly when a vital is absent (KeyError) or
      holds a value that cannot be compared with a number (TypeError). */
  lemma CleanedErrors(t: Table)
    requires WF(t)
    ensures Cleaned(t).Err? <==> exists m :: 0 <= m < |VitalBounds()| && !Checkable(t, VitalBounds()[m].0)
    ensures Cleaned(t).Err? ==> Cleaned(t).error.KeyError? || Cleaned(t).error.TypeError?
  {
    VitalKeysDistinct();
    ClipAllOk(t, VitalBounds(), |VitalBounds()|);
    if Cleaned(t).Err? {
      ClipAllError(t, VitalBounds(), |VitalBounds()|);
    }
  }

  /** The cleaning loop, writing each vital into the caller's frame in turn; on an
      exception the frame keeps the columns already overwritten. */
  method CleanVitalSigns(df: Frame) returns (r: Result<Table>)
    requires WF(df.Value())
    modifies df
    ensures df.Value() == ClipVitals(old(df.Value())).frame
    ensures r == Cleaned(old(df.Value()))
  {
    ghost var t := df.Value();
    var error := ClipInPlace(df, VitalBounds());
    if error.Some? {
      return Err(error.value);
    }
    ClipAllNames(t, VitalBounds(), |VitalBounds()|);
    VitalNamesAreKeys();
    r := Ok(DropNA(df.Value(), VitalNames()));
  }

  /** The loop over the ranges table: each column is clipped and written back in turn. */
  method ClipInPlace(df: Frame, bounds: seq<(string, real, real)>) returns (error: Option<Error>)
    requires WF(df.Value())
    modifies df
    ensures Outcome(df.Value(), error) == ClipAll(old(df.Value()), bounds, |bounds|)
  {
    ghost var t := df.Value();
    var k := 0;
    while k < |bounds|
      invariant 0 <= k <= |bounds|
      invariant ClipAll(t, bounds, k) == Outcome(df.Value(), None)
    {
      var v, lo, hi := bounds[k].0, bounds[k].1, bounds[k].2;
      var vals := ClipColumn(df.Value(), v, lo, hi);
      ClipAllStep(t, bounds, k, df.Value());
      if vals.Err? {
        ClipAllStops(t, bounds, k + 1);
        return Some(vals.error);
      }
      df.SetColumn(v, ClippedDType(DTypeOf(df.Value(), v), vals.value), vals.value);
      k := k + 1;
    }
    error := None;
  }

  /** The value `fillna(method='ffill')` puts at position `i`: the cell itself, or
      the last value above it, or missing when there is none. */
  function LastValue(col: seq<Cell>, i: nat): (r: Cell)
    requires i < |col|
  {
    if col[i] != Null then col[i] else if i == 0 then Null else LastValue(col, i - 1)
  }

  /** `s.fillna(method='ffill')` */
  function ForwardFilled(col: seq<Cell>): (r: seq<Cell>)
    ensures |r| == |col|
  {
    seq(|col|, i requires 0 <= i < |col| => LastValue(col, i))
  }

  /** The forward fill as a left-to-right scan carrying the last value seen. */
  method FillForward(col: seq<Cell>) returns (filled: seq<Cell>)
    ensures filled == ForwardFilled(col)
  {
    filled := [];
    var last := Null;
    var i := 0;
    while i < |col|
      invariant 0 <= i <= |col| && |filled| == i
      invariant forall j :: 0 <= j < i ==> filled[j] == LastValue(col, j)
      invariant last == if i == 0 then Null else LastValue(col, i - 1)
    {
      if col[i] != Null {
        last := col[i];
      }
      filled := filled + [last];
      i := i + 1;
    }
  }

  /** Line 13: a present value is kept; a missing one takes the nearest present value
      above it, with only missing values in between; it stays missing exactly when
      everything above it is missing too. */
  lemma {:induction false} ForwardFilledNearest(col: seq<Cell>, i: nat)
    requires i < |col|
    ensures col[i] != Null ==> ForwardFilled(col)[i] == col[i]
    ensures ForwardFilled(col)[i] == Null <==> forall j :: 0 <= j <= i ==> col[j] == Null
    ensures ForwardFilled(col)[i] != Null ==>
              exists j :: 0 <= j <= i && col[j] == ForwardFilled(col)[i] && forall q :: j < q <= i ==> col[q] == Null
  {
    if col[i] == Null && i > 0 {
      ForwardFilledNearest(col, i - 1);
      if ForwardFilled(col)[i] != Null {
        var j :| 0 <= j <= i - 1 && col[j] == ForwardFilled(col)[i - 1] && forall q :: j < q <= i - 1 ==> col[q] == Null;
        assert forall q :: j < q <= i ==> col[q] == Null;
      }
    }
  }

  /** Forward-filling twice fills nothing more. */
  lemma ForwardFilledIdempotent(col: seq<Cell>)
    ensures ForwardFilled(ForwardFilled(col)) == ForwardFilled(col)
  {
    var f := ForwardFilled(col);
    forall i | 0 <= i < |f| ensures LastValue(f, i) == f[i] {
      if f[i] == Null {
        ForwardFilledNearest(col, i);
        LeadingMissing(col, f, i);
      }
    }
  }

  /** Below a run of missing values at the top, the fill finds nothing. */
  lemma {:induction false} LeadingMissing(col: seq<Cell>, f: seq<Cell>, i: nat)
    requires f == ForwardFilled(col) && i < |col|
    requires forall j :: 0 <= j <= i ==> col[j] == Null
    ensures LastValue(f, i) == Null
  {
    assert f[i] == LastValue(col, i);
    if i > 0 {
      LeadingMissing(col, f, i - 1);
      ForwardFilledNearest(col, i);
    } else {
      ForwardFilledNearest(col, i);
    }
  }

  /** `VitalSignsPreprocessor.preprocess` as a value: the cleaned rows with `pain`
      forward-filled, or the exception raised on the way. */
  function Preprocessed(t: Table): (r: Result<Table>)
    requires WF(t)
  {
    var cleaned :- Cleaned(t);
    if "pain" !in cleaned.names then Err(KeyError("pain"))
    else Ok(Assign(cleaned, "pain", DTypeOf(cleaned, "pain"), ForwardFilled(Column(cleaned, "pain"))))
  }

  /** Lines 11-14: the result has the cleaned rows, with all six vitals in range;
      `pain` is the forward fill of the survivors' `pain`, and every other column of
      a survivor is its input value. */
  lemma PreprocessedRows(t: Table, j: nat, c: string)
    requires WF(t) && Preprocessed(t).Ok? && j < |Preprocessed(t).value.rows|
    requires c in t.names
    ensures var cleaned, out := Cleaned(t).value, Preprocessed(t).value;
      && |out.rows| == |cleaned.rows| && j < |Survivors(t)| && c in out.names
      && AllInRange(cleaned, j)
      && Get(out, j, c) == if c == "pain" then ForwardFilled(Column(cleaned, "pain"))[j] else Get(t, Survivors(t)[j], c)
  {
    var cleaned := Cleaned(t).value;
    CleanedRows(t);
    CleanedInRange(t, j);
    var ks := Survivors(t);
    assert Get(cleaned, j, c) == Get(t, ks[j], c);
  }

  /** Line 13: `pain` is missing after the fill only where no surviving row at or above it had one. */
  lemma PreprocessedPain(t: Table, j: nat)
    requires WF(t) && Preprocessed(t).Ok? && j < |Preprocessed(t).value.rows|
    ensures var cleaned, out := Cleaned(t).value, Preprocessed(t).value;
      && "pain" in cleaned.names && "pain" in out.names && |out.rows| == |cleaned.rows|
      && (Get(cleaned, j, "pain") != Null ==> Get(out, j, "pain") == Get(cleaned, j, "pain"))
      && (Get(out, j, "pain") == Null <==> forall q :: 0 <= q <= j ==> Get(cleaned, q, "pain") == Null)
  {
    var cleaned := Cleaned(t).value;
    var col := Column(cleaned, "pain");
    ForwardFilledNearest(col, j);
  }

  /** `VitalSignsPreprocessor.preprocess`: cleans the caller's frame in place, then
      fills `pain` in the cleaned copy. */
  method Preprocess(df: Frame) returns (r: Result<Table>)
    requires WF(df.Value())
    modifies df
    ensures df.Value() == ClipVitals(old(df.Value())).frame
    ensures r == Preprocessed(old(df.Value()))
  {
    var cleaned := CleanVitalSigns(df);
    if cleaned.Err? {
      return Err(cleaned.error);
    }
    var out := new Frame(cleaned.value);
    if "pain" !in out.names {
      return Err(KeyError("pain"));
    }
    var filled := FillForward(Column(out.Value(), "pain"));
    out.SetColumn("pain", DTypeOf(out.Value(), "pain"), filled);
    r := Ok(out.Value());
  }
}
