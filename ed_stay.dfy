/** `EDStayPreprocessor.preprocess` and `preprocess_ed_stay`: the shared stay steps
    on the caller's frame, which both return; the second also adds the `admitted`
    flag. */
module EdStay {
  import opened Frames
  import opened Utils
  import opened Stays

  function TimeColumns(): seq<string> {
    ["intime", "outtime"]
  }

  function CategoryColumns(): seq<string> {
    ["gender", "race", "arrival_transport", "disposition"]
  }

  function Steps(): StaySpec { StaySpec(TimeColumns(), "intime", "outtime", "ed", CategoryColumns()) }

  /** What the proofs below need of the step list: it is sound, and the flag and
      the column it reads are none of the parsed or derived columns. */
  predicate Fits(s: StaySpec) {
    && Sound(s)
    && "hadm_id" !in s.timeColumns && "admitted" !in s.timeColumns
    && LosLabel(s.stayType) != "hadm_id" && LosLabel(s.stayType) != "admitted"
    && LosLabel(s.stayType) !in s.categoryColumns
  }

  lemma StepsFit()
    ensures Fits(Steps()) && LosLabel(Steps().stayType) == "ed_los_hours"
    ensures "race" in CategoryColumns()
  {
    assert TimeColumns()[0] == "intime" && TimeColumns()[1] == "outtime" && CategoryColumns()[1] == "race";
  }

  /** `EDStayPreprocessor.preprocess`: the caller's frame after the shared steps, and
      the exception that stopped them, if any. */
  function EdStays(t: Table, parse: Cell -> Option<int>): (o: Outcome)
    requires WF(t)
  {
    Prepare(t, Steps(), parse)
  }

  /** `preprocess_ed_stay`: the same, then line 149's `admitted` flag. */
  function EdStaysAdmitted(t: Table, parse: Cell -> Option<int>): (o: Outcome)
    requires WF(t)
  {
    Flagged(t, Steps(), parse)
  }

  /** The shared steps and the flag for any step list. */
  function Flagged(t: Table, s: StaySpec, parse: Cell -> Option<int>): (o: Outcome)
    requires WF(t)
  {
    var o := Prepare(t, s, parse);
    if o.error.Some? then o else Flag(o.frame)
  }

  /** Line 149: `df['admitted'] = df['hadm_id'].notna()`. */
  function Flag(f: Table): (o: Outcome)
    requires WF(f)
  {
    if "hadm_id" !in f.names then Outcome(f, Some(KeyError("hadm_id")))
    else Outcome(Assign(f, "admitted", BoolType, NotNA(f, "hadm_id")), None)
  }

  /** Line 149: the flag needs `hadm_id`; it is true exactly where `hadm_id` is
      present, and no other column changes. */
  lemma FlagSpec(f: Table)
    requires WF(f)
    ensures Flag(f).error.None? <==> "hadm_id" in f.names
    ensures Flag(f).error.Some? ==> Flag(f).error == Some(KeyError("hadm_id")) && Flag(f).frame == f
    ensures Flag(f).error.None? ==>
              var r := Flag(f).frame;
              && |r.rows| == |f.rows|
              && r.names == f.names + (if "admitted" in f.names then [] else ["admitted"])
              && (forall i :: 0 <= i < |f.rows| ==> Get(r, i, "admitted") == Bool(Get(f, i, "hadm_id") != Null))
              && (forall i, c :: 0 <= i < |f.rows| && c in f.names && c != "admitted" ==> Get(r, i, c) == Get(f, i, c))
  {
  }

  /** Lines 8-21: the class's preprocessor runs to the end exactly when `intime`,
      `outtime` and the four cast columns (`race` among them) are present, and
      otherwise raises a KeyError. */
  lemma EdStaysOk(t: Table, parse: Cell -> Option<int>)
    requires WF(t)
    ensures EdStays(t, parse).error.None? <==>
              (forall c :: c in TimeColumns() ==> c in t.names) && (forall c :: c in CategoryColumns() ==> c in t.names)
    ensures EdStays(t, parse).error.Some? ==> EdStays(t, parse).error.value.KeyError?
  {
    StepsFit();
    PrepareOk(t, Steps(), parse);
  }

  /** Lines 8-21: a run that did not raise keeps the rows, in order, and adds only
      `ed_los_hours` (no `admitted` flag); on each row `intime` and `outtime` hold
      their parsed values, `ed_los_hours` the hours between them and `race` its
      bucket, and every other column keeps its cell. */
  lemma EdStaysRow(t: Table, parse: Cell -> Option<int>, i: nat)
    requires WF(t) && i < |t.rows| && EdStays(t, parse).error.None?
    ensures var r := EdStays(t, parse).frame;
      && |r.rows| == |t.rows|
      && r.names == t.names + (if "ed_los_hours" in t.names then [] else ["ed_los_hours"])
      && (forall c :: c in TimeColumns() ==> c in t.names && Get(r, i, c) == ToDatetime(Get(t, i, c), parse))
      && Get(r, i, "ed_los_hours") ==
           HoursBetween(ToDatetime(Get(t, i, "intime"), parse), ToDatetime(Get(t, i, "outtime"), parse))
      && "race" in t.names && Get(r, i, "race") == RaceOf(Get(t, i, "race"))
      && (forall c :: c in t.names && c !in TimeColumns() && c != "race" && c != "ed_los_hours" ==> Get(r, i, c) == Get(t, i, c))
  {
    StepsFit();
    PrepareNames(t, Steps(), parse);
    PrepareGet(t, Steps(), parse, i);
  }

  /** With the flag, the run also needs `hadm_id`, and still raises only KeyError. */
  lemma FlaggedOk(t: Table, s: StaySpec, parse: Cell -> Option<int>)
    requires WF(t) && Fits(s)
    ensures Flagged(t, s, parse).error.None? <==> Prepare(t, s, parse).error.None? && "hadm_id" in t.names
    ensures Flagged(t, s, parse).error.Some? ==> Flagged(t, s, parse).error.value.KeyError?
  {
    if Prepare(t, s, parse).error.None? {
      PrepareNames(t, s, parse);
      FlagSpec(Prepare(t, s, parse).frame);
    } else {
      PrepareOk(t, s, parse);
    }
  }

  /** A flagged run that did not raise adds `admitted` besides the length of stay,
      true exactly where `hadm_id` is present, and changes nothing else the shared
      steps left. */
  lemma FlaggedRows(t: Table, s: StaySpec, parse: Cell -> Option<int>)
    requires WF(t) && Fits(s) && Flagged(t, s, parse).error.None?
    ensures Prepare(t, s, parse).error.None? && "hadm_id" in t.names
    ensures var f, r := Prepare(t, s, parse).frame, Flagged(t, s, parse).frame;
      && |r.rows| == |t.rows|
      && r.names == f.names + (if "admitted" in f.names then [] else ["admitted"])
      && (forall i :: 0 <= i < |t.rows| ==> Get(r, i, "admitted") == Bool(Get(t, i, "hadm_id") != Null))
      && (forall i, c :: 0 <= i < |t.rows| && c in f.names && c != "admitted" ==> Get(r, i, c) == Get(f, i, c))
  {
    FlaggedShape(t, s, parse);
    var f, r := Prepare(t, s, parse).frame, Flagged(t, s, parse).frame;
    forall i | 0 <= i < |t.rows| ensures Get(r, i, "admitted") == Bool(Get(t, i, "hadm_id") != Null) {
      FlaggedFlag(t, s, parse, i);
    }
    forall i, c | 0 <= i < |t.rows| && c in f.names && c != "admitted" ensures Get(r, i, c) == Get(f, i, c) {
      FlaggedKeeps(t, s, parse, i, c);
    }
  }

  lemma FlaggedShape(t: Table, s: StaySpec, parse: Cell -> Option<int>)
    requires WF(t) && Fits(s) && Flagged(t, s, parse).error.None?
    ensures Prepare(t, s, parse).error.None? && "hadm_id" in t.names
    ensures var f, r := Prepare(t, s, parse).frame, Flagged(t, s, parse).frame;
      && |r.rows| == |t.rows|
      && r.names == f.names + (if "admitted" in f.names then [] else ["admitted"])
  {
    FlaggedOk(t, s, parse);
    var f := Prepare(t, s, parse).frame;
    assert Flagged(t, s, parse) == Flag(f);
    PrepareNames(t, s, parse);
  }

  lemma FlaggedFlag(t: Table, s: StaySpec, parse: Cell -> Option<int>, i: nat)
    requires WF(t) && Fits(s) && Flagged(t, s, parse).error.None? && i < |t.rows|
    ensures "hadm_id" in t.names && "admitted" in Flagged(t, s, parse).frame.names
    ensures |Flagged(t, s, parse).frame.rows| == |t.rows|
    ensures Get(Flagged(t, s, parse).frame, i, "admitted") == Bool(Get(t, i, "hadm_id") != Null)
  {
    FlaggedShape(t, s, parse);
    var f := Prepare(t, s, parse).frame;
    assert Flagged(t, s, parse) == Flag(f);
    PrepareGet(t, s, parse, i);
    assert Get(f, i, "hadm_id") == Get(t, i, "hadm_id");
  }

  lemma FlaggedKeeps(t: Table, s: StaySpec, parse: Cell -> Option<int>, i: nat, c: string)
    requires WF(t) && Fits(s) && Flagged(t, s, parse).error.None? && i < |t.rows|
    requires Prepare(t, s, parse).error.None? && c in Prepare(t, s, parse).frame.names && c != "admitted"
    ensures c in Flagged(t, s, parse).frame.names && |Flagged(t, s, parse).frame.rows| == |t.rows|
    ensures Get(Flagged(t, s, parse).frame, i, c) == Get(Prepare(t, s, parse).frame, i, c)
  {
    var f := Prepare(t, s, parse).frame;
    assert Flagged(t, s, parse) == Flag(f);
  }

  /** Lines 141-150: `preprocess_ed_stay` runs to the end exactly when the class's
      preprocessor does and `hadm_id` is present; it then adds `admitted`, true
      exactly where `hadm_id` is present, and leaves every other column as the
      class's preprocessor does. */
  lemma EdStaysAdmittedSpec(t: Table, parse: Cell -> Option<int>)
    requires WF(t)
    ensures EdStaysAdmitted(t, parse).error.None? <==> EdStays(t, parse).error.None? && "hadm_id" in t.names
    ensures EdStaysAdmitted(t, parse).error.Some? ==> EdStaysAdmitted(t, parse).error.value.KeyError?
    ensures EdStaysAdmitted(t, parse).error.None? ==>
              var f, r := EdStays(t, parse).frame, EdStaysAdmitted(t, parse).frame;
              && |r.rows| == |t.rows|
              && r.names == f.names + (if "admitted" in f.names then [] else ["admitted"])
              && (forall i :: 0 <= i < |t.rows| ==> Get(r, i, "admitted") == Bool(Get(t, i, "hadm_id") != Null))
              && (forall i, c :: 0 <= i < |t.rows| && c in f.names && c != "admitted" ==> Get(r, i, c) == Get(f, i, c))
  {
    StepsFit();
    FlaggedOk(t, Steps(), parse);
    if EdStaysAdmitted(t, parse).error.None? {
      FlaggedRows(t, Steps(), parse);
    }
  }

  /** `EDStayPreprocessor.preprocess(df)`: the shared steps on the caller's frame. */
  method Preprocess(df: Frame, parse: Cell -> Option<int>) returns (error: Option<Error>)
    requires WF(df.Value())
    modifies df
    ensures Outcome(df.Value(), error) == EdStays(old(df.Value()), parse)
  {
    error := PrepareInPlace(df, Steps(), parse);
  }

  /** `preprocess_ed_stay(df)`: the same, then `admitted` written into the caller's
      frame. */
  method PreprocessEdStay(df: Frame, parse: Cell -> Option<int>) returns (error: Option<Error>)
    requires WF(df.Value())
    modifies df
    ensures Outcome(df.Value(), error) == EdStaysAdmitted(old(df.Value()), parse)
  {
    error := PrepareInPlace(df, Steps(), parse);
    if error.Some? {
      return;
    }
    if "hadm_id" !in df.names {
      return Some(KeyError("hadm_id"));
    }
    df.SetColumn("admitted", BoolType, NotNA(df.Value(), "hadm_id"));
  }
}
