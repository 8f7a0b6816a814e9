/** The steps the admissions and ED-stay preprocessors share, in the order both
    run them on the caller's frame: parse the timestamp columns, add the length of
    stay in hours, bucket `race`, and cast the categorical columns. */
module Stays {
  import opened Frames
  import opened Utils

  /** What one preprocessor passes to the shared steps. */
  datatype StaySpec = StaySpec(
    timeColumns: seq<string>,   // parsed with coercion, in this order
    inColumn: string,           // start of the stay
    outColumn: string,          // end of the stay
    stayType: string,           // prefix of the `_los_hours` column
    categoryColumns: seq<string> // cast with `astype('category')`, in this order
  )

  /** The two ends of the stay are among the parsed columns, and neither `race` nor
      the length of stay is a parsed column. */
  predicate Sound(s: StaySpec) {
    s.inColumn in s.timeColumns && s.outColumn in s.timeColumns &&
    "race" !in s.timeColumns && LosLabel(s.stayType) !in s.timeColumns && "race" != LosLabel(s.stayType)
  }

  /** The caller's frame after the shared steps, and the exception that stopped them,
      if any. `astype('category')` changes only how pandas stores a column, so the
      cast loop shows here only as the KeyError for an absent column. */
  function Prepare(t: Table, s: StaySpec, parse: Cell -> Option<int>): (o: Outcome)
    requires WF(t)
    ensures WF(o.frame) && |o.frame.rows| == |t.rows|
  {
    var c := ConvertAll(t, s.timeColumns, parse, |s.timeColumns|);
    if c.error.Some? then c else AfterConvert(c.frame, s)
  }

  /** The steps after the timestamp conversion: length of stay, `race` bucketing and
      the category casts. */
  function AfterConvert(c: Table, s: StaySpec): (o: Outcome)
    requires WF(c)
    ensures WF(o.frame) && |o.frame.rows| == |c.rows|
  {
    match LengthOfStay(c, s.inColumn, s.outColumn, s.stayType)
    case Err(e) => Outcome(c, Some(e))
    case Ok(l) =>
      if "race" !in l.names then Outcome(l, Some(KeyError("race")))
      else
        var m := Assign(l, "race", Object, RaceColumn(l, "race"));
        if exists col :: col in s.categoryColumns && col !in m.names then
          Outcome(m, Some(KeyError(FirstMissing(s.categoryColumns, m.names))))
        else Outcome(m, None)
  }

  /** The steps run to the end exactly when every parsed column, `race` and every
      cast column is present (a cast column may also be the new length of stay). */
  lemma PrepareOk(t: Table, s: StaySpec, parse: Cell -> Option<int>)
    requires WF(t) && Sound(s)
    ensures Prepare(t, s, parse).error.None? <==>
              && (forall c :: c in s.timeColumns ==> c in t.names)
              && "race" in t.names
              && (forall c :: c in s.categoryColumns ==> c in t.names || c == LosLabel(s.stayType))
    ensures Prepare(t, s, parse).error.Some? ==> Prepare(t, s, parse).error.value.KeyError?
  {
    hide ConvertAll; hide Assign; hide RaceColumn;
    Converted(t, s.timeColumns, parse);
  }

  /** A run of the steps after the conversion that did not raise, step by step. */
  lemma AfterConvertFrame(c: Table, s: StaySpec)
    requires WF(c) && AfterConvert(c, s).error.None?
    ensures LengthOfStay(c, s.inColumn, s.outColumn, s.stayType).Ok?
    ensures var l := LengthOfStay(c, s.inColumn, s.outColumn, s.stayType).value;
      "race" in l.names && AfterConvert(c, s).frame == Assign(l, "race", Object, RaceColumn(l, "race"))
  {
  }

  /** A run of the shared steps that did not raise has `race` in its input and
      gains only the length-of-stay column. */
  lemma PrepareNames(t: Table, s: StaySpec, parse: Cell -> Option<int>)
    requires WF(t) && Sound(s) && Prepare(t, s, parse).error.None?
    ensures "race" in t.names
    ensures Prepare(t, s, parse).frame.names ==
              t.names + (if LosLabel(s.stayType) in t.names then [] else [LosLabel(s.stayType)])
  {
    Converted(t, s.timeColumns, parse);
    var c := ConvertAll(t, s.timeColumns, parse, |s.timeColumns|).frame;
    AfterConvertFrame(c, s);
    LengthOfStaySpec(c, s.inColumn, s.outColumn, s.stayType);
  }

  /** On each row, the shared steps parse the timestamp columns, write the hours
      between the parsed ends of the stay, and bucket `race`; every other column is
      kept. */
  lemma PrepareGet(t: Table, s: StaySpec, parse: Cell -> Option<int>, i: nat)
    requires WF(t) && Sound(s) && i < |t.rows| && Prepare(t, s, parse).error.None?
    ensures "race" in t.names
    ensures Get(Prepare(t, s, parse).frame, i, "race") == RaceOf(Get(t, i, "race"))
    ensures forall c :: c in s.timeColumns ==>
              c in t.names && Get(Prepare(t, s, parse).frame, i, c) == ToDatetime(Get(t, i, c), parse)
    ensures Get(Prepare(t, s, parse).frame, i, LosLabel(s.stayType)) ==
              HoursBetween(ToDatetime(Get(t, i, s.inColumn), parse), ToDatetime(Get(t, i, s.outColumn), parse))
    ensures forall c :: c in t.names && c !in s.timeColumns && c != "race" && c != LosLabel(s.stayType) ==>
              Get(Prepare(t, s, parse).frame, i, c) == Get(t, i, c)
  {
    Converted(t, s.timeColumns, parse);
    var c := ConvertAll(t, s.timeColumns, parse, |s.timeColumns|).frame;
    AfterConvertFrame(c, s);
    LengthOfStaySpec(c, s.inColumn, s.outColumn, s.stayType);
    var l := LengthOfStay(c, s.inColumn, s.outColumn, s.stayType).value;
    var m := Assign(l, "race", Object, RaceColumn(l, "race"));
    assert Get(m, i, "race") == RaceOf(Get(c, i, "race"));
    forall x | x in s.timeColumns ensures Get(m, i, x) == ToDatetime(Get(t, i, x), parse) {
      assert Get(m, i, x) == Get(l, i, x) == Get(c, i, x);
    }
  }

  /** The shared steps on the caller's frame. */
  method PrepareInPlace(df: Frame, s: StaySpec, parse: Cell -> Option<int>) returns (error: Option<Error>)
    requires WF(df.Value())
    modifies df
    ensures Outcome(df.Value(), error) == Prepare(old(df.Value()), s, parse)
  {
    error := ConvertToDatetime(df, s.timeColumns, parse);
    if error.None? {
      error := AfterConvertInPlace(df, s);
    }
  }

  /** The steps after the conversion, on the caller's frame. */
  method AfterConvertInPlace(df: Frame, s: StaySpec) returns (error: Option<Error>)
    requires WF(df.Value())
    modifies df
    ensures Outcome(df.Value(), error) == AfterConvert(old(df.Value()), s)
  {
    error := ComputeLengthOfStay(df, s.inColumn, s.outColumn, s.stayType);
    if error.Some? {
      return;
    }
    if "race" !in df.names {
      return Some(KeyError("race"));
    }
    df.SetColumn("race", Object, RaceColumn(df.Value(), "race"));
    ghost var cast := df.Value();
    var k := 0;
    while k < |s.categoryColumns|
      invariant 0 <= k <= |s.categoryColumns|
      invariant forall j :: 0 <= j < k ==> s.categoryColumns[j] in df.names
      invariant df.Value() == cast
    {
      if s.categoryColumns[k] !in df.names {
        return Some(KeyError(FirstMissing(s.categoryColumns, df.names)));
      }
      k := k + 1;
    }
    error := None;
  }
}
