/** `PreprocessMIMIC`, in its two copies (the class in `src/preprocess.py` and the
    older one in `preprocess.py`): helpers that write into the caller's frame. Unlike
    `Utils`, its datetime conversion skips absent columns and does not coerce, its
    grouping is a single assignment, and its outlier filter clamps values to the
    band instead of dropping rows. */
module PreprocessMimic {
  import opened Frames
  import opened Utils

  /** `pd.to_datetime` without `errors='coerce'` accepts a cell when it is missing,
      already a timestamp, or parses. */
  predicate Parses(c: Cell, parse: Cell -> Option<int>) {
    c.Null? || c.Time? || parse(c).Some?
  }

  /** Every cell of column `c` parses. */
  predicate ColumnParses(t: Table, c: string, parse: Cell -> Option<int>)
    requires WF(t) && c in t.names
  {
    forall i :: 0 <= i < |t.rows| ==> Parses(Get(t, i, c), parse)
  }

  /** The first `k` iterations of the conversion loop: an absent column is skipped, a
      column with a cell that does not parse raises and stops the loop, and any other
      column is replaced by its timestamps. */
  function StrictAll(t: Table, cols: seq<string>, parse: Cell -> Option<int>, k: nat): (o: Outcome)
    requires WF(t) && k <= |cols|
    ensures WF(o.frame) && o.frame.names == t.names && |o.frame.rows| == |t.rows|
    decreases k
  {
    if k == 0 then Outcome(t, None)
    else
      var prev := StrictAll(t, cols, parse, k - 1);
      var c := cols[k - 1];
      if prev.error.Some? || c !in prev.frame.names then prev
      else if !ColumnParses(prev.frame, c, parse) then Outcome(prev.frame, Some(ParseError(c)))
      else Outcome(Assign(prev.frame, c, Datetime, DatetimeColumn(prev.frame, c, parse)), None)
  }

  /** A parsed cell is missing or a timestamp, and parses again. */
  lemma ParsedParses(c: Cell, parse: Cell -> Option<int>)
    ensures Parses(ToDatetime(c, parse), parse)
    ensures Parses(c, parse) && !c.Null? ==> ToDatetime(c, parse).Time?
  {
    ToDatetimeSpec(c, parse);
  }

  /** Lines 45-48: after a run that did not raise, every listed column that is present
      holds its timestamps (the same values a coercing parse gives, since every cell
      parsed), and every other column is untouched. */
  lemma {:induction false} StrictAllGet(t: Table, cols: seq<string>, parse: Cell -> Option<int>, k: nat, i: nat)
    requires WF(t) && k <= |cols| && i < |t.rows| && StrictAll(t, cols, parse, k).error.None?
    ensures forall c :: c in cols[..k] && c in t.names ==>
              Get(StrictAll(t, cols, parse, k).frame, i, c) == ToDatetime(Get(t, i, c), parse)
    ensures forall c :: c in t.names && c !in cols[..k] ==>
              Get(StrictAll(t, cols, parse, k).frame, i, c) == Get(t, i, c)
  {
    hide StrictAll; hide Assign; hide DatetimeColumn; hide ColumnParses; hide Get; hide WF;
    if k > 0 {
      StrictAllUnfold(t, cols, parse, k);
      StrictAllGet(t, cols, parse, k - 1, i);
      var v := cols[k - 1];
      assert cols[..k] == cols[..k - 1] + [v];
      if v in t.names {
        ToDatetimeSpec(Get(t, i, v), parse);
      }
    } else {
      StrictAllZero(t, cols, parse);
    }
  }

  /** Lines 45-48: the loop raises exactly when some listed column that is present
      has a cell that does not parse, and then names such a column; absent columns
      never raise. */
  lemma {:induction false} StrictAllOk(t: Table, cols: seq<string>, parse: Cell -> Option<int>, k: nat)
    requires WF(t) && k <= |cols|
    ensures StrictAll(t, cols, parse, k).error.None? <==>
              forall c :: c in cols[..k] && c in t.names ==> ColumnParses(t, c, parse)
    ensures StrictAll(t, cols, parse, k).error.Some? ==>
              var e := StrictAll(t, cols, parse, k).error.value;
              e.ParseError? && e.column in cols[..k] && e.column in t.names && !ColumnParses(t, e.column, parse)
  {
    hide StrictAll; hide Assign; hide DatetimeColumn; hide ColumnParses; hide Get; hide WF;
    if k > 0 {
      StrictAllUnfold(t, cols, parse, k);
      StrictAllOk(t, cols, parse, k - 1);
      var v := cols[k - 1];
      assert cols[..k] == cols[..k - 1] + [v];
      var prev := StrictAll(t, cols, parse, k - 1);
      if prev.error.None? && v in t.names {
        assert ColumnParses(prev.frame, v, parse) <==> ColumnParses(t, v, parse) by {
          SameParses(t, cols, parse, k - 1, v);
        }
      }
    } else {
      StrictAllZero(t, cols, parse);
    }
  }

  /** After `k` iterations that did not raise, a present column parses in the current
      frame exactly when it parsed in the input. */
  lemma SameParses(t: Table, cols: seq<string>, parse: Cell -> Option<int>, k: nat, v: string)
    requires WF(t) && k <= |cols| && v in t.names && StrictAll(t, cols, parse, k).error.None?
    requires v in cols[..k] && v in t.names ==> ColumnParses(t, v, parse)
    ensures ColumnParses(StrictAll(t, cols, parse, k).frame, v, parse) <==> ColumnParses(t, v, parse)
  {
    var f := StrictAll(t, cols, parse, k).frame;
    forall i | 0 <= i < |t.rows|
      ensures Parses(Get(f, i, v), parse) <==> Parses(Get(t, i, v), parse) || v in cols[..k]
    {
      StrictAllGet(t, cols, parse, k, i);
      ParsedParses(Get(t, i, v), parse);
    }
  }

  /** Once the loop has raised, later iterations do not run. */
  lemma {:induction false} StrictAllStops(t: Table, cols: seq<string>, parse: Cell -> Option<int>, k: nat)
    requires WF(t) && k <= |cols| && StrictAll(t, cols, parse, k).error.Some?
    ensures StrictAll(t, cols, parse, |cols|) == StrictAll(t, cols, parse, k)
    decreases |cols| - k
  {
    hide StrictAll;
    if k < |cols| {
      StrictAllUnfold(t, cols, parse, k + 1);
      StrictAllStops(t, cols, parse, k + 1);
    }
  }

  /** Before the first iteration the frame is the input and nothing was raised. */
  lemma StrictAllZero(t: Table, cols: seq<string>, parse: Cell -> Option<int>)
    requires WF(t)
    ensures StrictAll(t, cols, parse, 0) == Outcome(t, None)
  {
  }

  /** Iteration `k` of the loop: nothing after an exception or for an absent column,
      ParseError for a column with an unparseable cell, otherwise the column parsed. */
  lemma StrictAllUnfold(t: Table, cols: seq<string>, parse: Cell -> Option<int>, k: nat)
    requires WF(t) && 0 < k <= |cols|
    ensures var prev := StrictAll(t, cols, parse, k - 1);
      var c := cols[k - 1];
      StrictAll(t, cols, parse, k) ==
        if prev.error.Some? || c !in t.names then prev
        else if !ColumnParses(prev.frame, c, parse) then Outcome(prev.frame, Some(ParseError(c)))
        else Outcome(Assign(prev.frame, c, Datetime, DatetimeColumn(prev.frame, c, parse)), None)
  {
  }

  /** `PreprocessMIMIC.convert_to_datetime`: converts the listed columns of the
      caller's frame that it has, in turn. */
  method ConvertToDatetime(df: Frame, cols: seq<string>, parse: Cell -> Option<int>) returns (error: Option<Error>)
    requires WF(df.Value())
    modifies df
    ensures Outcome(df.Value(), error) == StrictAll(old(df.Value()), cols, parse, |cols|)
  {
    hide StrictAll; hide Assign; hide DatetimeColumn; hide ColumnParses; hide Get; hide WF;
    ghost var t := df.Value();
    StrictAllZero(t, cols, parse);
    var k := 0;
    while k < |cols|
      invariant 0 <= k <= |cols|
      invariant StrictAll(t, cols, parse, k) == Outcome(df.Value(), None)
    {
      StrictAllUnfold(t, cols, parse, k + 1);
      var c := cols[k];
      if c in df.names {
        var f := df.Value();
        if !ColumnParses(f, c, parse) {
          StrictAllStops(t, cols, parse, k + 1);
          return Some(ParseError(c));
        }
        df.SetColumn(c, Datetime, DatetimeColumn(f, c, parse));
      }
      k := k + 1;
    }
    error := None;
  }

  /** `PreprocessMIMIC.compute_length_of_stay` (and `compute_LOS`, whose
      `format_length` argument is never read): the same column as
      `Utils.compute_length_of_stay` writes. */
  method ComputeLengthOfStay(df: Frame, inCol: string, outCol: string, prefix: string, formatLength: string)
    returns (error: Option<Error>)
    requires WF(df.Value())
    modifies df
    ensures var r := LengthOfStay(old(df.Value()), inCol, outCol, prefix);
      if r.Ok? then error.None? && df.Value() == r.value else error == Some(r.error) && df.Value() == old(df.Value())
  {
    error := Utils.ComputeLengthOfStay(df, inCol, outCol, prefix);
  }

  /** `PreprocessMIMIC.map_to_group`: `.map(mapping).fillna(fill)` is computed before
      the one assignment, so a missing fill value raises ValueError with the frame
      unchanged. */
  function MapToGroup(t: Table, column: string, mapping: map<Cell, Cell>, fill: Cell): (o: Outcome)
    requires WF(t)
  {
    if column !in t.names then Outcome(t, Some(KeyError(column)))
    else if fill == Null then Outcome(t, Some(ValueError("Must specify a fill 'value' or 'method'.")))
    else
      Outcome(Assign(t, GroupedLabel(column), Object,
                     seq(|t.rows|, i requires 0 <= i < |t.rows| => Grouped(Get(t, i, column), mapping, fill))), None)
  }

  /** Line 61: the grouped value is the mapping's value for a key with a present
      value and the fill value otherwise, so it is never missing; no other column
      changes, and on an error nothing changes at all. */
  lemma MapToGroupSpec(t: Table, column: string, mapping: map<Cell, Cell>, fill: Cell)
    requires WF(t)
    ensures MapToGroup(t, column, mapping, fill).error.None? <==> column in t.names && fill != Null
    ensures MapToGroup(t, column, mapping, fill).error.Some? ==> MapToGroup(t, column, mapping, fill).frame == t
    ensures MapToGroup(t, column, mapping, fill).error.None? ==>
              var r, g := MapToGroup(t, column, mapping, fill).frame, GroupedLabel(column);
              && g in r.names && |r.rows| == |t.rows|
              && (forall i :: 0 <= i < |t.rows| ==>
                    && Get(r, i, g) != Null
                    && (column in t.names && Get(t, i, column) in mapping && mapping[Get(t, i, column)] != Null ==>
                          Get(r, i, g) == mapping[Get(t, i, column)])
                    && (Get(t, i, column) !in mapping || mapping[Get(t, i, column)] == Null ==> Get(r, i, g) == fill))
              && (forall i, c :: 0 <= i < |t.rows| && c in t.names && c != g ==> Get(r, i, c) == Get(t, i, c))
  {
  }

  /** `PreprocessMIMIC.map_to_group` on the caller's frame. */
  method MapToGroupInPlace(df: Frame, column: string, mapping: map<Cell, Cell>, fill: Cell) returns (error: Option<Error>)
    requires WF(df.Value())
    modifies df
    ensures Outcome(df.Value(), error) == MapToGroup(old(df.Value()), column, mapping, fill)
  {
    var t := df.Value();
    if column !in df.names {
      return Some(KeyError(column));
    }
    if fill == Null {
      return Some(ValueError("Must specify a fill 'value' or 'method'."));
    }
    df.SetColumn(GroupedLabel(column), Object,
                 seq(|t.rows|, i requires 0 <= i < |t.rows| => Grouped(Get(t, i, column), mapping, fill)));
    error := None;
  }

  /** The lambda of lines 77-78 for one cell: below the band gives the lower bound,
      above it the upper bound; a missing value compares false both ways and stays. */
  function Clamp(c: Cell, lo: real, hi: real): Cell {
    if c.Num? && c.x < lo then Num(lo)
    else if c.Num? && c.x > hi then Num(hi)
    else c
  }

  /** `apply` infers the dtype of the new column: an integer column that received a
      (floating) bound becomes float64. */
  function ClampedDType(dt: DType, before: seq<Cell>, vals: seq<Cell>): DType {
    if dt == Int64 && before != vals then Float64 else dt
  }

  /** `PreprocessMIMIC.filter_outliers` with the column's quartiles `q1` and `q3`
      given: a KeyError for an absent column, a failed assertion unless its dtype is
      int64 or float64, otherwise every value clamped to the IQR band. */
  function ClampOutliers(t: Table, column: string, q1: real, q3: real): (o: Outcome)
    requires WF(t)
  {
    if column !in t.names then Outcome(t, Some(KeyError(column)))
    else if DTypeOf(t, column) != Int64 && DTypeOf(t, column) != Float64 then Outcome(t, Some(AssertionError))
    else
      var (lo, hi) := IqrBand(q1, q3);
      var vals := seq(|t.rows|, i requires 0 <= i < |t.rows| => Clamp(Get(t, i, column), lo, hi));
      Outcome(Assign(t, column, ClampedDType(DTypeOf(t, column), Column(t, column), vals), vals), None)
  }

  /** Lines 68-79: the filter fails exactly when the column is absent or not of a
      numeric dtype; otherwise it keeps every row and every other column, and with
      ordered quartiles each present value ends up inside the band, a value already
      inside is unchanged, and a missing value stays missing. */
  lemma ClampOutliersSpec(t: Table, column: string, q1: real, q3: real)
    requires WF(t)
    ensures ClampOutliers(t, column, q1, q3).error.None? <==>
              column in t.names && (DTypeOf(t, column) == Int64 || DTypeOf(t, column) == Float64)
    ensures ClampOutliers(t, column, q1, q3).error.Some? ==> ClampOutliers(t, column, q1, q3).frame == t
    ensures ClampOutliers(t, column, q1, q3).error.None? ==>
              var r, lo, hi := ClampOutliers(t, column, q1, q3).frame, IqrBand(q1, q3).0, IqrBand(q1, q3).1;
              && r.names == t.names && |r.rows| == |t.rows|
              && (forall i :: 0 <= i < |t.rows| ==> Get(r, i, column) == Clamp(Get(t, i, column), lo, hi))
              && (forall i, c :: 0 <= i < |t.rows| && c in t.names && c != column ==> Get(r, i, c) == Get(t, i, c))
  {
  }

  /** Lines 74-78: with ordered quartiles a clamped value lies in the band, a value in
      the band is kept, a missing one stays missing, and clamping twice with the same
      bounds is clamping once. */
  lemma ClampSpec(c: Cell, q1: real, q3: real)
    requires q1 <= q3
    ensures var lo, hi := IqrBand(q1, q3).0, IqrBand(q1, q3).1;
      && (c.Num? ==> Clamp(c, lo, hi).Num? && lo <= Clamp(c, lo, hi).x <= hi)
      && (c.Num? && lo <= c.x <= hi ==> Clamp(c, lo, hi) == c)
      && (c.Null? ==> Clamp(c, lo, hi).Null?)
      && Clamp(Clamp(c, lo, hi), lo, hi) == Clamp(c, lo, hi)
  {
    IqrBandOrdered(q1, q3);
  }

  /** `PreprocessMIMIC.filter_outliers` on the caller's frame, which it also returns. */
  method ClampOutliersInPlace(df: Frame, column: string, q1: real, q3: real) returns (error: Option<Error>)
    requires WF(df.Value())
    modifies df
    ensures Outcome(df.Value(), error) == ClampOutliers(old(df.Value()), column, q1, q3)
  {
    var t := df.Value();
    if column !in df.names {
      return Some(KeyError(column));
    }
    var dt := DTypeOf(t, column);
    if dt != Int64 && dt != Float64 {
      return Some(AssertionError);
    }
    var (lo, hi) := IqrBand(q1, q3);
    var vals := seq(|t.rows|, i requires 0 <= i < |t.rows| => Clamp(Get(t, i, column), lo, hi));
    df.SetColumn(column, ClampedDType(dt, Column(t, column), vals), vals);
    error := None;
  }
}
