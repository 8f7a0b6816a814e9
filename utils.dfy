/** The helpers of the `Utils` class: the race buckets, the coercing datetime
    conversion, the length of stay in hours, grouping through a dict with a fill
    value, and the interquartile outlier filter. */
module Utils {
  import opened Frames

  /** The six buckets of `race_mapping`. */
  datatype RaceGroup =
    | WhiteEuropean
    | BlackAfrican
    | HispanicLatino
    | Asian
    | NativePacific
    | MixedOther

  function GroupLabel(g: RaceGroup): string {
    match g
    case WhiteEuropean => "White/European Descent"
    case BlackAfrican => "Black/African Descent"
    case HispanicLatino => "Hispanic/Latino"
    case Asian => "Asian"
    case NativePacific => "Native American/Pacific Islander"
    case MixedOther => "Mixed or Other"
  }

  /** `race_mapping`, entry by entry in its written order. */
  function RaceMapping(): seq<(string, RaceGroup)> {
    [
    ("WHITE", WhiteEuropean),
    ("WHITE - RUSSIAN", WhiteEuropean),
    ("WHITE - OTHER EUROPEAN", WhiteEuropean),
    ("WHITE - BRAZILIAN", WhiteEuropean),
    ("WHITE - EASTERN EUROPEAN", WhiteEuropean),
    ("PORTUGUESE", WhiteEuropean),
    ("BLACK/AFRICAN AMERICAN", BlackAfrican),
    ("BLACK/CAPE VERDEAN", BlackAfrican),
    ("BLACK/AFRICAN", BlackAfrican),
    ("BLACK/CARIBBEAN ISLAND", BlackAfrican),
    ("HISPANIC OR LATINO", HispanicLatino),
    ("HISPANIC/LATINO - PUERTO RICAN", HispanicLatino),
    ("HISPANIC/LATINO - DOMINICAN", HispanicLatino),
    ("HISPANIC/LATINO - SALVADORAN", HispanicLatino),
    ("HISPANIC/LATINO - GUATEMALAN", HispanicLatino),
    ("HISPANIC/LATINO - MEXICAN", HispanicLatino),
    ("HISPANIC/LATINO - CUBAN", HispanicLatino),
    ("HISPANIC/LATINO - HONDURAN", HispanicLatino),
    ("HISPANIC/LATINO - CENTRAL AMERICAN", HispanicLatino),
    ("HISPANIC/LATINO - COLUMBIAN", HispanicLatino),
    ("SOUTH AMERICAN", HispanicLatino),
    ("ASIAN", Asian),
    ("ASIAN - CHINESE", Asian),
    ("ASIAN - SOUTH EAST ASIAN", Asian),
    ("ASIAN - KOREAN", Asian),
    ("ASIAN - ASIAN INDIAN", Asian),
    ("NATIVE HAWAIIAN OR OTHER PACIFIC ISLANDER", NativePacific),
    ("AMERICAN INDIAN/ALASKA NATIVE", NativePacific),
    ("MULTIPLE RACE/ETHNICITY", MixedOther),
    ("OTHER", MixedOther),
    ("UNABLE TO OBTAIN", MixedOther),
    ("UNKNOWN", MixedOther),
    ("PATIENT DECLINED TO ANSWER", MixedOther)
  ]
  }

  /** The mapping has 33 labels, and every one of the six buckets receives at least one. */
  lemma RaceMappingOnto(g: RaceGroup)
    ensures |RaceMapping()| == 33
    ensures exists i :: 0 <= i < |RaceMapping()| && RaceMapping()[i].1 == g
  {
    match g
    case WhiteEuropean => assert RaceMapping()[0].1 == g;
    case BlackAfrican => assert RaceMapping()[6].1 == g;
    case HispanicLatino => assert RaceMapping()[10].1 == g;
    case Asian => assert RaceMapping()[21].1 == g;
    case NativePacific => assert RaceMapping()[26].1 == g;
    case MixedOther => assert RaceMapping()[28].1 == g;
  }

  /** The six bucket names are six different strings. */
  lemma GroupLabelsDistinct(g: RaceGroup, g': RaceGroup)
    ensures GroupLabel(g) == GroupLabel(g') <==> g == g'
  {
  }

  /** `series.map(race_mapping)` for one cell: the bucket name of a listed label,
      and missing for anything else, a missing cell included. */
  function RaceOf(c: Cell): (r: Cell)
    ensures r == Null <==> !c.Str? || forall i :: 0 <= i < |RaceMapping()| ==> RaceMapping()[i].0 != c.s
    ensures r != Null ==> exists i :: 0 <= i < |RaceMapping()| && RaceMapping()[i].0 == c.s && r == Str(GroupLabel(RaceMapping()[i].1))
  {
    if c.Str? then
      match Lookup(RaceMapping(), c.s)
      case Some(g) => Str(GroupLabel(g))
      case None => Null
    else Null
  }

  /** The race column after the mapping. */
  function RaceColumn(t: Table, c: string): (r: seq<Cell>)
    requires WF(t) && c in t.names
    ensures |r| == |t.rows|
    ensures forall i :: 0 <= i < |r| ==> r[i] == RaceOf(Get(t, i, c))
  {
    seq(|t.rows|, i requires 0 <= i < |t.rows| => RaceOf(Get(t, i, c)))
  }

  /** `pd.to_datetime(x, errors='coerce')` for one cell. `parse` stands for the
      date parser: what it makes of a value that is not already a timestamp. */
  function ToDatetime(c: Cell, parse: Cell -> Option<int>): (r: Cell)
  {
    match c
    case Null => Null
    case Time(_) => c
    case _ =>
      match parse(c)
      case Some(s) => Time(s)
      case None => Null
  }

  /** A converted cell is a timestamp or missing: a missing value stays missing, a
      timestamp stays itself, anything the parser rejects becomes missing; and
      converting again changes nothing. */
  lemma ToDatetimeSpec(c: Cell, parse: Cell -> Option<int>)
    ensures ToDatetime(c, parse).Null? || ToDatetime(c, parse).Time?
    ensures c.Null? || c.Time? ==> ToDatetime(c, parse) == c
    ensures !c.Null? && !c.Time? ==> (ToDatetime(c, parse) == Null <==> parse(c).None?)
    ensures ToDatetime(ToDatetime(c, parse), parse) == ToDatetime(c, parse)
  {
  }

  /** `pd.to_datetime(df[c], errors='coerce')` */
  function DatetimeColumn(t: Table, c: string, parse: Cell -> Option<int>): (r: seq<Cell>)
    requires WF(t) && c in t.names
    ensures |r| == |t.rows|
    ensures forall i :: 0 <= i < |r| ==> r[i] == ToDatetime(Get(t, i, c), parse)
  {
    seq(|t.rows|, i requires 0 <= i < |t.rows| => ToDatetime(Get(t, i, c), parse))
  }

  /** The first `k` iterations of the `convert_to_datetime` loop: each listed column
      is replaced by its parsed timestamps; an absent one raises KeyError and stops
      the loop, leaving the earlier columns converted. */
  function ConvertAll(t: Table, cols: seq<string>, parse: Cell -> Option<int>, k: nat): (o: Outcome)
    requires WF(t) && k <= |cols|
    ensures WF(o.frame) && o.frame.names == t.names && |o.frame.rows| == |t.rows|
    decreases k
  {
    if k == 0 then Outcome(t, None)
    else
      var prev := ConvertAll(t, cols, parse, k - 1);
      if prev.error.Some? then prev
      else if cols[k - 1] !in prev.frame.names then Outcome(prev.frame, Some(KeyError(cols[k - 1])))
      else Outcome(Assign(prev.frame, cols[k - 1], Datetime, DatetimeColumn(prev.frame, cols[k - 1], parse)), None)
  }

  /** Lines 93-95: after a run that did not raise, every listed column holds the parsed
      value of its input cell, even when it is listed twice, and the columns the loop
      was not given are untouched. */
  lemma {:induction false} ConvertAllGet(t: Table, cols: seq<string>, parse: Cell -> Option<int>, k: nat, i: nat)
    requires WF(t) && k <= |cols| && i < |t.rows| && ConvertAll(t, cols, parse, k).error.None?
    ensures forall c :: c in cols[..k] ==>
              c in t.names && Get(ConvertAll(t, cols, parse, k).frame, i, c) == ToDatetime(Get(t, i, c), parse)
    ensures forall c :: c in t.names && c !in cols[..k] ==>
              Get(ConvertAll(t, cols, parse, k).frame, i, c) == Get(t, i, c)
  {
    hide *;
    if k > 0 {
      ConvertAllBack(t, cols, parse, k);
      var prev := ConvertAll(t, cols, parse, k - 1);
      ConvertAllGet(t, cols, parse, k - 1, i);
      var v := cols[k - 1];
      assert cols[..k] == cols[..k - 1] + [v];
      ToDatetimeSpec(Get(t, i, v), parse);
    } else {
      ConvertAllZero(t, cols, parse);
    }
  }

  /** Iteration `k` did not raise: nothing had raised before it, its column was
      present, and the frame is the previous one with that column parsed. */
  lemma ConvertAllBack(t: Table, cols: seq<string>, parse: Cell -> Option<int>, k: nat)
    requires WF(t) && 0 < k <= |cols| && ConvertAll(t, cols, parse, k).error.None?
    ensures ConvertAll(t, cols, parse, k - 1).error.None? && cols[k - 1] in t.names
    ensures var prev := ConvertAll(t, cols, parse, k - 1).frame;
      ConvertAll(t, cols, parse, k).frame == Assign(prev, cols[k - 1], Datetime, DatetimeColumn(prev, cols[k - 1], parse))
  {
  }

  /** Lines 93-95: after a run that did not raise, every listed column has the
      datetime dtype and the other columns keep theirs. */
  lemma {:induction false} ConvertAllTypes(t: Table, cols: seq<string>, parse: Cell -> Option<int>, k: nat)
    requires WF(t) && k <= |cols| && ConvertAll(t, cols, parse, k).error.None?
    ensures forall c :: c in cols[..k] ==> c in t.names && DTypeOf(ConvertAll(t, cols, parse, k).frame, c) == Datetime
    ensures forall c :: c in t.names && c !in cols[..k] ==>
              DTypeOf(ConvertAll(t, cols, parse, k).frame, c) == DTypeOf(t, c)
  {
    hide *;
    if k > 0 {
      ConvertAllBack(t, cols, parse, k);
      ConvertAllTypes(t, cols, parse, k - 1);
      assert cols[..k] == cols[..k - 1] + [cols[k - 1]];
    } else {
      ConvertAllZero(t, cols, parse);
    }
  }

  /** Lines 93-95: the loop raises exactly when a listed column is absent, and then
      a KeyError for the first absent one. */
  lemma ConvertAllError(t: Table, cols: seq<string>, parse: Cell -> Option<int>, k: nat)
    requires WF(t) && k <= |cols|
    ensures ConvertAll(t, cols, parse, k).error.None? <==> forall c :: c in cols[..k] ==> c in t.names
    ensures ConvertAll(t, cols, parse, k).error.Some? ==>
              exists m :: 0 <= m < k && cols[m] !in t.names && (forall c :: c in cols[..m] ==> c in t.names) &&
                          ConvertAll(t, cols, parse, k).error == Some(KeyError(cols[m]))
  {
    ConvertAllOk(t, cols, parse, k);
    if ConvertAll(t, cols, parse, k).error.Some? {
      ConvertAllFirstMissing(t, cols, parse, k);
    }
  }

  /** The loop runs to the end exactly when every listed column is present. */
  lemma {:induction false} ConvertAllOk(t: Table, cols: seq<string>, parse: Cell -> Option<int>, k: nat)
    requires WF(t) && k <= |cols|
    ensures ConvertAll(t, cols, parse, k).error.None? <==> forall c :: c in cols[..k] ==> c in t.names
  {
    hide *;
    if k > 0 {
      ConvertAllOk(t, cols, parse, k - 1);
      ConvertAllUnfold(t, cols, parse, k);
      assert cols[..k] == cols[..k - 1] + [cols[k - 1]];
    } else {
      ConvertAllZero(t, cols, parse);
    }
  }

  /** A loop that raised did so with a KeyError for the first absent listed column. */
  lemma {:induction false} ConvertAllFirstMissing(t: Table, cols: seq<string>, parse: Cell -> Option<int>, k: nat)
    requires WF(t) && k <= |cols| && ConvertAll(t, cols, parse, k).error.Some?
    ensures exists m :: 0 <= m < k && cols[m] !in t.names && (forall c :: c in cols[..m] ==> c in t.names) &&
                        ConvertAll(t, cols, parse, k).error == Some(KeyError(cols[m]))
  {
    hide *;
    if k == 0 {
      ConvertAllZero(t, cols, parse);
      assert false;
    }
    ConvertAllUnfold(t, cols, parse, k);
    if ConvertAll(t, cols, parse, k - 1).error.Some? {
      ConvertAllFirstMissing(t, cols, parse, k - 1);
    } else {
      ConvertAllOk(t, cols, parse, k - 1);
      var m := k - 1;
      assert cols[m] !in t.names;
      assert forall c :: c in cols[..m] ==> c in t.names;
    }
  }

  /** Before the first iteration the frame is the input and nothing was raised. */
  lemma ConvertAllZero(t: Table, cols: seq<string>, parse: Cell -> Option<int>)
    requires WF(t)
    ensures ConvertAll(t, cols, parse, 0) == Outcome(t, None)
  {
  }

  /** Iteration `k` of the loop: nothing after an exception, KeyError for an absent
      column, otherwise the column is overwritten by its parsed timestamps. */
  lemma ConvertAllUnfold(t: Table, cols: seq<string>, parse: Cell -> Option<int>, k: nat)
    requires WF(t) && 0 < k <= |cols|
    ensures var prev := ConvertAll(t, cols, parse, k - 1);
      ConvertAll(t, cols, parse, k) ==
        if prev.error.Some? then prev
        else if cols[k - 1] !in t.names then Outcome(prev.frame, Some(KeyError(cols[k - 1])))
        else Outcome(Assign(prev.frame, cols[k - 1], Datetime, DatetimeColumn(prev.frame, cols[k - 1], parse)), None)
  {
  }

  /** The whole `convert_to_datetime` call: it raises exactly when a listed column is
      absent; otherwise every listed column holds its parsed cells with the datetime
      dtype, and every other column keeps its cells and dtype. */
  lemma Converted(t: Table, cols: seq<string>, parse: Cell -> Option<int>)
    requires WF(t)
    ensures ConvertAll(t, cols, parse, |cols|).error.None? <==> forall c :: c in cols ==> c in t.names
    ensures ConvertAll(t, cols, parse, |cols|).error.Some? ==> ConvertAll(t, cols, parse, |cols|).error.value.KeyError?
    ensures ConvertAll(t, cols, parse, |cols|).error.None? ==>
              var f := ConvertAll(t, cols, parse, |cols|).frame;
              && (forall c :: c in cols ==> c in t.names && DTypeOf(f, c) == Datetime)
              && (forall c :: c in t.names && c !in cols ==> DTypeOf(f, c) == DTypeOf(t, c))
              && (forall i, c :: 0 <= i < |t.rows| && c in cols ==> Get(f, i, c) == ToDatetime(Get(t, i, c), parse))
              && (forall i, c :: 0 <= i < |t.rows| && c in t.names && c !in cols ==> Get(f, i, c) == Get(t, i, c))
  {
    assert cols[..|cols|] == cols;
    ConvertAllError(t, cols, parse, |cols|);
    if ConvertAll(t, cols, parse, |cols|).error.None? {
      ConvertAllTypes(t, cols, parse, |cols|);
      var f := ConvertAll(t, cols, parse, |cols|).frame;
      forall i, c | 0 <= i < |t.rows| && c in cols ensures Get(f, i, c) == ToDatetime(Get(t, i, c), parse) {
        ConvertAllGet(t, cols, parse, |cols|, i);
      }
      forall i, c | 0 <= i < |t.rows| && c in t.names && c !in cols ensures Get(f, i, c) == Get(t, i, c) {
        ConvertAllGet(t, cols, parse, |cols|, i);
      }
    }
  }

  /** Once the loop has raised, later iterations do not run. */
  lemma {:induction false} ConvertAllStops(t: Table, cols: seq<string>, parse: Cell -> Option<int>, k: nat)
    requires WF(t) && k <= |cols| && ConvertAll(t, cols, parse, k).error.Some?
    ensures ConvertAll(t, cols, parse, |cols|) == ConvertAll(t, cols, parse, k)
    decreases |cols| - k
  {
    hide *;
    if k < |cols| {
      ConvertAllUnfold(t, cols, parse, k + 1);
      ConvertAllStops(t, cols, parse, k + 1);
    }
  }

  /** `Utils.convert_to_datetime`: converts the listed columns of the caller's frame in turn. */
  method ConvertToDatetime(df: Frame, cols: seq<string>, parse: Cell -> Option<int>) returns (error: Option<Error>)
    requires WF(df.Value())
    modifies df
    ensures Outcome(df.Value(), error) == ConvertAll(old(df.Value()), cols, parse, |cols|)
  {
    hide ConvertAll; hide Assign; hide DatetimeColumn; hide Get; hide WF;
    ghost var t := df.Value();
    ConvertAllZero(t, cols, parse);
    var k := 0;
    while k < |cols|
      invariant 0 <= k <= |cols|
      invariant ConvertAll(t, cols, parse, k) == Outcome(df.Value(), None)
    {
      ConvertAllUnfold(t, cols, parse, k + 1);
      if cols[k] !in df.names {
        ConvertAllStops(t, cols, parse, k + 1);
        return Some(KeyError(cols[k]));
      }
      df.SetColumn(cols[k], Datetime, DatetimeColumn(df.Value(), cols[k], parse));
      k := k + 1;
    }
    error := None;
  }

  /** `(out - in).dt.total_seconds() / 3600.0` for one row: missing when either
      timestamp is. */
  function HoursBetween(tin: Cell, tout: Cell): (r: Cell)
  {
    if tin.Time? && tout.Time? then Num((tout.t - tin.t) as real / 3600.0) else Null
  }

  /** The label `compute_length_of_stay` writes. */
  function LosLabel(stayType: string): string {
    stayType + "_los_hours"
  }

  /** `Utils.compute_length_of_stay` as a value. The out-time column is read first;
      a column that is not of datetime dtype cannot be subtracted as timestamps,
      which this model reports as TypeError. */
  function LengthOfStay(t: Table, inCol: string, outCol: string, stayType: string): (r: Result<Table>)
    requires WF(t)
  {
    if outCol !in t.names then Err(KeyError(outCol))
    else if inCol !in t.names then Err(KeyError(inCol))
    else if DTypeOf(t, outCol) != Datetime then Err(TypeError(outCol))
    else if DTypeOf(t, inCol) != Datetime then Err(TypeError(inCol))
    else Ok(Assign(t, LosLabel(stayType), Float64,
                   seq(|t.rows|, i requires 0 <= i < |t.rows| => HoursBetween(Get(t, i, inCol), Get(t, i, outCol)))))
  }

  /** Lines 98-100: the hours times 3600 give back the seconds between the two
      timestamps, negative when the stay ends before it starts, never clamped; the
      hours are missing exactly when a timestamp is. */
  lemma HoursBetweenSpec(tin: Cell, tout: Cell)
    ensures HoursBetween(tin, tout) == Null <==> !tin.Time? || !tout.Time?
    ensures tin.Time? && tout.Time? ==>
              HoursBetween(tin, tout).x * 3600.0 == (tout.t - tin.t) as real &&
              (HoursBetween(tin, tout).x < 0.0 <==> tout.t < tin.t)
  {
  }

  /** Lines 98-100: a computed length of stay is the new (or overwritten) column,
      row by row the hours between the two timestamps; nothing else changes. It
      fails exactly when a column is absent or not of datetime dtype. */
  lemma LengthOfStaySpec(t: Table, inCol: string, outCol: string, stayType: string)
    requires WF(t)
    ensures LengthOfStay(t, inCol, outCol, stayType).Ok? <==>
              inCol in t.names && outCol in t.names && DTypeOf(t, inCol) == Datetime && DTypeOf(t, outCol) == Datetime
    ensures LengthOfStay(t, inCol, outCol, stayType).Ok? ==>
              var r := LengthOfStay(t, inCol, outCol, stayType).value;
              && |r.rows| == |t.rows|
              && r.names == (if LosLabel(stayType) in t.names then t.names else t.names + [LosLabel(stayType)])
              && (forall i :: 0 <= i < |t.rows| ==>
                    Get(r, i, LosLabel(stayType)) == HoursBetween(Get(t, i, inCol), Get(t, i, outCol)))
              && (forall i, c :: 0 <= i < |t.rows| && c in t.names && c != LosLabel(stayType) ==> Get(r, i, c) == Get(t, i, c))
  {
  }

  /** `Utils.compute_length_of_stay`: writes the hours into the caller's frame. */
  method ComputeLengthOfStay(df: Frame, inCol: string, outCol: string, stayType: string) returns (error: Option<Error>)
    requires WF(df.Value())
    modifies df
    ensures var r := LengthOfStay(old(df.Value()), inCol, outCol, stayType);
      if r.Ok? then error.None? && df.Value() == r.value else error == Some(r.error) && df.Value() == old(df.Value())
  {
    var r := LengthOfStay(df.Value(), inCol, outCol, stayType);
    if r.Err? {
      return Some(r.error);
    }
    var t := df.Value();
    df.SetColumn(LosLabel(stayType), Float64,
                 seq(|t.rows|, i requires 0 <= i < |t.rows| => HoursBetween(Get(t, i, inCol), Get(t, i, outCol))));
    error := None;
  }

  /** `series.map(mapping)` for one cell: a key's value, or missing. */
  function Mapped(c: Cell, mapping: map<Cell, Cell>): Cell {
    if c in mapping then mapping[c] else Null
  }

  /** `.map(mapping).fillna(fill)` for one cell. */
  function Grouped(c: Cell, mapping: map<Cell, Cell>, fill: Cell): (r: Cell)
  {
    var m := Mapped(c, mapping);
    if m == Null then fill else m
  }

  /** The label `map_to_group` writes. */
  function GroupedLabel(column: string): string {
    column + "_grouped"
  }

  /** `Utils.map_to_group` as the state of the caller's frame: the mapped column is
      written, then filled; `fillna` with a missing value raises ValueError after the
      mapped column was already written. */
  function MapToGroup(t: Table, column: string, mapping: map<Cell, Cell>, fill: Cell): (o: Outcome)
    requires WF(t)
  {
    if column !in t.names then Outcome(t, Some(KeyError(column)))
    else
      var g := GroupedLabel(column);
      var mapped := Assign(t, g, Object, seq(|t.rows|, i requires 0 <= i < |t.rows| => Mapped(Get(t, i, column), mapping)));
      if fill == Null then Outcome(mapped, Some(ValueError("Must specify a fill 'value' or 'method'.")))
      else Outcome(Assign(mapped, g, Object, seq(|t.rows|, i requires 0 <= i < |t.rows| => Grouped(Get(t, i, column), mapping, fill))), None)
  }

  /** Lines 103-105: the grouped value is the mapping's value for a key with a
      present value and the fill value otherwise, so it is never missing; the source
      column and every other column are unchanged. */
  lemma MapToGroupSpec(t: Table, column: string, mapping: map<Cell, Cell>, fill: Cell, i: nat)
    requires WF(t) && i < |t.rows|
    ensures MapToGroup(t, column, mapping, fill).error.None? <==> column in t.names && fill != Null
    ensures var o := MapToGroup(t, column, mapping, fill);
      o.error.None? ==> GroupedLabel(column) in o.frame.names && |o.frame.rows| == |t.rows|
    ensures var o := MapToGroup(t, column, mapping, fill);
      o.error.None? ==>
        var v, r := Get(t, i, column), Get(o.frame, i, GroupedLabel(column));
        && r != Null
        && (v in mapping && mapping[v] != Null ==> r == mapping[v])
        && (v !in mapping || mapping[v] == Null ==> r == fill)
    ensures var o := MapToGroup(t, column, mapping, fill);
      o.error.None? ==> forall c :: c in t.names && c != GroupedLabel(column) ==> Get(o.frame, i, c) == Get(t, i, c)
  {
    var o := MapToGroup(t, column, mapping, fill);
    if o.error.None? {
      assert |GroupedLabel(column)| != |column|;
    }
  }

  /** `Utils.map_to_group`, on the caller's frame. */
  method MapToGroupInPlace(df: Frame, column: string, mapping: map<Cell, Cell>, fill: Cell) returns (error: Option<Error>)
    requires WF(df.Value())
    modifies df
    ensures Outcome(df.Value(), error) == MapToGroup(old(df.Value()), column, mapping, fill)
  {
    var t := df.Value();
    if column !in df.names {
      return Some(KeyError(column));
    }
    var g := GroupedLabel(column);
    df.SetColumn(g, Object, seq(|t.rows|, i requires 0 <= i < |t.rows| => Mapped(Get(t, i, column), mapping)));
    if fill == Null {
      return Some(ValueError("Must specify a fill 'value' or 'method'."));
    }
    df.SetColumn(g, Object, seq(|t.rows|, i requires 0 <= i < |t.rows| => Grouped(Get(t, i, column), mapping, fill)));
    error := None;
  }

  /** `Q1 - 1.5 * IQR` and `Q3 + 1.5 * IQR` */
  function IqrBand(q1: real, q3: real): (real, real) {
    (q1 - 1.5 * (q3 - q1), q3 + 1.5 * (q3 - q1))
  }

  /** With the quartiles in order the band holds both of them. */
  lemma IqrBandOrdered(q1: real, q3: real)
    requires q1 <= q3
    ensures IqrBand(q1, q3).0 <= q1 <= q3 <= IqrBand(q1, q3).1
  {
  }

  /** `(df[column] >= lower) & (df[column] <= upper)` */
  function BandMask(t: Table, column: string, lo: real, hi: real): (mask: seq<bool>)
    requires WF(t) && column in t.names
    ensures |mask| == |t.rows|
  {
    seq(|t.rows|, i requires 0 <= i < |t.rows| => InRange(Get(t, i, column), lo, hi))
  }

  /** `Utils.filter_outliers`. The quartiles `q1` and `q3` of the column are given;
      the Z-score branch is not part of this model. */
  function FilterOutliers(t: Table, column: string, how: string, q1: real, q3: real): (r: Result<Table>)
    requires WF(t)
  {
    if how == "IQR" then
      if column !in t.names then Err(KeyError(column))
      else if exists i :: 0 <= i < |t.rows| && !Comparable(Get(t, i, column)) then Err(TypeError(column))
      else
        Ok(FilterRows(t, BandMask(t, column, IqrBand(q1, q3).0, IqrBand(q1, q3).1)))
    else if how == "Z-score" then Err(OutOfModel("Z-score"))
    else Err(ValueError("Method must be 'IQR' or 'Z-score'"))
  }

  /** The input rows the IQR filter keeps, in order. */
  ghost function KeptRows(t: Table, column: string, q1: real, q3: real): seq<nat>
    requires WF(t) && column in t.names
  {
    TrueIndices(BandMask(t, column, IqrBand(q1, q3).0, IqrBand(q1, q3).1))
  }

  /** A run of the IQR filter that did not raise is the mask of the band applied to the rows. */
  lemma FilterOutliersOk(t: Table, column: string, q1: real, q3: real)
    requires WF(t) && FilterOutliers(t, column, "IQR", q1, q3).Ok?
    ensures column in t.names
    ensures var mask := BandMask(t, column, IqrBand(q1, q3).0, IqrBand(q1, q3).1);
      && FilterOutliers(t, column, "IQR", q1, q3).value == FilterRows(t, mask)
      && KeptRows(t, column, q1, q3) == TrueIndices(mask)
  {
  }

  /** Lines 109-116: the IQR filter returns exactly the rows whose value lies in the
      band, in their original order, each unchanged; a missing value is never in the band. */
  lemma FilterOutliersRows(t: Table, column: string, q1: real, q3: real)
    requires WF(t) && FilterOutliers(t, column, "IQR", q1, q3).Ok?
    ensures column in t.names
    ensures var r, ks, lo, hi := FilterOutliers(t, column, "IQR", q1, q3).value, KeptRows(t, column, q1, q3), IqrBand(q1, q3).0, IqrBand(q1, q3).1;
      && WF(r) && r.names == t.names && |r.rows| == |ks|
      && (forall j :: 0 <= j < |ks| ==> ks[j] < |t.rows| && r.rows[j] == t.rows[ks[j]])
      && (forall j :: 0 <= j < |ks| ==> InRange(Get(r, j, column), lo, hi))
      && (forall j, j' :: 0 <= j < j' < |ks| ==> ks[j] < ks[j'])
      && (forall i :: 0 <= i < |t.rows| ==> (i in ks <==> InRange(Get(t, i, column), lo, hi)))
      && (forall i :: 0 <= i < |t.rows| && Get(t, i, column) == Null ==> i !in ks)
  {
    hide FilterOutliers; hide KeptRows; hide IqrBand;
    FilterOutliersOk(t, column, q1, q3);
    var ks, lo, hi := KeptRows(t, column, q1, q3), IqrBand(q1, q3).0, IqrBand(q1, q3).1;
    var mask := BandMask(t, column, lo, hi);
    var r := FilterOutliers(t, column, "IQR", q1, q3).value;
    forall j | 0 <= j < |ks| ensures InRange(Get(r, j, column), lo, hi) {
      assert mask[ks[j]];
    }
    forall i | 0 <= i < |t.rows| && i in ks ensures InRange(Get(t, i, column), lo, hi) {
      var j :| 0 <= j < |ks| && ks[j] == i;
      assert mask[ks[j]];
    }
    forall j, j' | 0 <= j < j' < |ks| ensures ks[j] < ks[j'] {
      TrueIndicesIncreasing(mask, j, j');
    }
  }

  /** Lines 107-123: the filter fails exactly for a method other than 'IQR', an
      absent column, or a value that cannot be compared with a number; a method other
      than 'IQR' and 'Z-score' raises ValueError. */
  lemma FilterOutliersErrors(t: Table, column: string, how: string, q1: real, q3: real)
    requires WF(t)
    ensures FilterOutliers(t, column, how, q1, q3).Err? <==>
              how != "IQR" || column !in t.names ||
              exists i :: 0 <= i < |t.rows| && !Comparable(Get(t, i, column))
    ensures how != "IQR" && how != "Z-score" ==>
              FilterOutliers(t, column, how, q1, q3) == Err(ValueError("Method must be 'IQR' or 'Z-score'"))
  {
  }
}
