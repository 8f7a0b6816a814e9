/** `AdmissionsPreprocessor.preprocess` and its twin `preprocess_admissions`: the
    shared stay steps on the caller's frame, then a new frame without
    `admit_provider_id` that gains the `is_dead` flag. */
module Admissions {
  import opened Frames
  import opened Utils
  import opened Stays

  function TimeColumns(): seq<string> {
    ["admittime", "dischtime", "edregtime", "edouttime", "deathtime"]
  }

  function CategoryColumns(): seq<string> {
    ["admission_type", "admission_location", "discharge_location", "insurance", "language", "race", "marital_status"]
  }

  function Steps(): StaySpec { StaySpec(TimeColumns(), "admittime", "dischtime", "admission", CategoryColumns()) }

  /** What the proofs below need of the step list: it is sound, `deathtime` is
      parsed, and neither the dropped nor the added label is parsed or derived. */
  predicate Fits(s: StaySpec) {
    && Sound(s)
    && "deathtime" in s.timeColumns
    && "admit_provider_id" !in s.timeColumns && "is_dead" !in s.timeColumns
    && LosLabel(s.stayType) != "admit_provider_id" && LosLabel(s.stayType) != "is_dead"
    && "admit_provider_id" !in s.categoryColumns && LosLabel(s.stayType) !in s.categoryColumns
  }

  lemma StepsFit()
    ensures Fits(Steps()) && LosLabel(Steps().stayType) == "admission_los_hours"
    ensures "race" in CategoryColumns()
  {
    assert CategoryColumns()[5] == "race";
    assert TimeColumns()[0] == "admittime" && TimeColumns()[1] == "dischtime" && TimeColumns()[4] == "deathtime";
  }

  /** The frame the preprocessor returns, or the exception it raises. */
  function Admissions(t: Table, parse: Cell -> Option<int>): (r: Result<Table>)
    requires WF(t)
  {
    Admitted(t, Steps(), parse)
  }

  /** The same for any step list. */
  function Admitted(t: Table, s: StaySpec, parse: Cell -> Option<int>): (r: Result<Table>)
    requires WF(t)
  {
    var o := Prepare(t, s, parse);
    if o.error.Some? then Err(o.error.value) else Finish(o.frame)
  }

  /** Lines 27-29: the new frame without `admit_provider_id`, with `is_dead`. */
  function Finish(f: Table): (r: Result<Table>)
    requires WF(f)
    ensures r.Ok? ==> WF(r.value) && |r.value.rows| == |f.rows|
  {
    var d :- Drop(f, ["admit_provider_id"]);
    if "deathtime" !in d.names then Err(KeyError("deathtime"))
    else Ok(Assign(d, "is_dead", BoolType, NotNA(d, "deathtime")))
  }

  /** Lines 27-29: the drop and the flag succeed exactly when both `admit_provider_id`
      and `deathtime` are present; the new frame keeps the rows, loses
      `admit_provider_id` and gains `is_dead`, true exactly where `deathtime` is
      present. */
  lemma FinishSpec(f: Table)
    requires WF(f)
    ensures Finish(f).Ok? <==> "admit_provider_id" in f.names && "deathtime" in f.names
    ensures Finish(f).Err? ==> Finish(f).error.KeyError?
    ensures Finish(f).Ok? ==>
              var r := Finish(f).value;
              && |r.rows| == |f.rows|
              && (forall c :: c in r.names <==> (c in f.names && c != "admit_provider_id") || c == "is_dead")
              && (forall i :: 0 <= i < |f.rows| ==> Get(r, i, "is_dead") == Bool(Get(f, i, "deathtime") != Null))
              && (forall i, c :: 0 <= i < |f.rows| && c in f.names && c != "admit_provider_id" && c != "is_dead" ==>
                    Get(r, i, c) == Get(f, i, c))
  {
    DropOne(f, "admit_provider_id");
    if Finish(f).Ok? {
      FinishNames(f);
      forall i | 0 <= i < |f.rows| ensures Get(Finish(f).value, i, "is_dead") == Bool(Get(f, i, "deathtime") != Null) {
        FinishFlag(f, i);
      }
      forall i, c | 0 <= i < |f.rows| && c in f.names && c != "admit_provider_id" && c != "is_dead"
        ensures Get(Finish(f).value, i, c) == Get(f, i, c)
      {
        FinishKeeps(f, i, c);
      }
    }
  }

  /** The new frame's labels: the old ones but `admit_provider_id`, and `is_dead`. */
  lemma FinishNames(f: Table)
    requires WF(f) && Finish(f).Ok?
    ensures "admit_provider_id" in f.names && "deathtime" in f.names
    ensures forall c :: c in Finish(f).value.names <==> (c in f.names && c != "admit_provider_id") || c == "is_dead"
  {
    DropOne(f, "admit_provider_id");
    var d := Drop(f, ["admit_provider_id"]).value;
    assert Finish(f).value == Assign(d, "is_dead", BoolType, NotNA(d, "deathtime"));
    assert Finish(f).value.names == if "is_dead" in d.names then d.names else d.names + ["is_dead"];
    forall c ensures c in d.names <==> c in f.names && c != "admit_provider_id" {
      assert c in ["admit_provider_id"] <==> c == "admit_provider_id";
    }
  }

  /** `is_dead` says whether `deathtime` is present. */
  lemma FinishFlag(f: Table, i: nat)
    requires WF(f) && Finish(f).Ok? && i < |f.rows|
    ensures "deathtime" in f.names && "is_dead" in Finish(f).value.names
    ensures Get(Finish(f).value, i, "is_dead") == Bool(Get(f, i, "deathtime") != Null)
  {
    var d := Drop(f, ["admit_provider_id"]).value;
    assert Finish(f).value == Assign(d, "is_dead", BoolType, NotNA(d, "deathtime"));
    assert Get(d, i, "deathtime") == Get(f, i, "deathtime");
    assert NotNA(d, "deathtime")[i] == Bool(Get(d, i, "deathtime") != Null);
  }

  /** Every other kept column keeps its cells. */
  lemma FinishKeeps(f: Table, i: nat, c: string)
    requires WF(f) && Finish(f).Ok? && i < |f.rows|
    requires c in f.names && c != "admit_provider_id" && c != "is_dead"
    ensures c in Finish(f).value.names && Get(Finish(f).value, i, c) == Get(f, i, c)
  {
    var d := Drop(f, ["admit_provider_id"]).value;
    assert Finish(f).value == Assign(d, "is_dead", BoolType, NotNA(d, "deathtime"));
    assert c in d.names;
    assert Get(d, i, c) == Get(f, i, c);
  }

  /** The preprocessor runs to the end exactly when the parsed columns, the cast
      columns and `admit_provider_id` are all present; otherwise it raises a KeyError. */
  lemma {:induction false} AdmittedOk(t: Table, s: StaySpec, parse: Cell -> Option<int>)
    requires WF(t) && Fits(s)
    ensures Admitted(t, s, parse).Ok? <==>
              && (forall c :: c in s.timeColumns ==> c in t.names)
              && "race" in t.names
              && (forall c :: c in s.categoryColumns ==> c in t.names)
              && "admit_provider_id" in t.names
    ensures Admitted(t, s, parse).Err? ==> Admitted(t, s, parse).error.KeyError?
  {
    PrepareOk(t, s, parse);
    if Prepare(t, s, parse).error.None? {
      PrepareNames(t, s, parse);
      FinishSpec(Prepare(t, s, parse).frame);
    }
  }

  /** A run that did not raise keeps the number of rows, drops `admit_provider_id` and
      adds the length of stay and `is_dead`. */
  lemma AdmittedShape(t: Table, s: StaySpec, parse: Cell -> Option<int>)
    requires WF(t) && Fits(s) && Admitted(t, s, parse).Ok?
    ensures |Admitted(t, s, parse).value.rows| == |t.rows|
    ensures forall c :: c in Admitted(t, s, parse).value.names <==>
              (c in t.names && c != "admit_provider_id") || c == LosLabel(s.stayType) || c == "is_dead"
  {
    var f := Prepare(t, s, parse).frame;
    assert Admitted(t, s, parse) == Finish(f);
    forall c ensures c in Admitted(t, s, parse).value.names <==>
                       (c in t.names && c != "admit_provider_id") || c == LosLabel(s.stayType) || c == "is_dead"
    {
      AdmittedName(t, s, parse, c);
    }
  }

  lemma AdmittedName(t: Table, s: StaySpec, parse: Cell -> Option<int>, c: string)
    requires WF(t) && Fits(s) && Admitted(t, s, parse).Ok?
    ensures c in Admitted(t, s, parse).value.names <==>
              (c in t.names && c != "admit_provider_id") || c == LosLabel(s.stayType) || c == "is_dead"
  {
    var f := Prepare(t, s, parse).frame;
    assert Admitted(t, s, parse) == Finish(f);
    PrepareNames(t, s, parse);
    FinishNames(f);
    assert c in f.names <==> c in t.names || c == LosLabel(s.stayType);
  }

  /** On row `i` of a run that did not raise, the parsed columns hold their parsed
      values, the length of stay the hours between the parsed ends, `race` its
      bucket and `is_dead` whether the parsed `deathtime` is present; every other
      column but `admit_provider_id` keeps its cell, so rows keep their order. */
  lemma AdmittedRow(t: Table, s: StaySpec, parse: Cell -> Option<int>, i: nat)
    requires WF(t) && Fits(s) && i < |t.rows| && Admitted(t, s, parse).Ok?
    ensures var r := Admitted(t, s, parse).value;
      && |r.rows| == |t.rows|
      && (forall c :: c in s.timeColumns ==> c in t.names && c in r.names && Get(r, i, c) == ToDatetime(Get(t, i, c), parse))
      && s.inColumn in t.names && s.outColumn in t.names && LosLabel(s.stayType) in r.names
      && Get(r, i, LosLabel(s.stayType)) ==
           HoursBetween(ToDatetime(Get(t, i, s.inColumn), parse), ToDatetime(Get(t, i, s.outColumn), parse))
      && "race" in t.names && "race" in r.names && Get(r, i, "race") == RaceOf(Get(t, i, "race"))
      && "deathtime" in t.names && "is_dead" in r.names
      && Get(r, i, "is_dead") == Bool(ToDatetime(Get(t, i, "deathtime"), parse) != Null)
      && (forall c :: c in t.names && c !in s.timeColumns && c !in ["race", LosLabel(s.stayType), "is_dead", "admit_provider_id"] ==>
            c in r.names && Get(r, i, c) == Get(t, i, c))
  {
    var r := Admitted(t, s, parse).value;
    forall c | c in s.timeColumns ensures c in t.names && c in r.names && Get(r, i, c) == ToDatetime(Get(t, i, c), parse) {
      AdmittedTime(t, s, parse, i, c);
    }
    AdmittedLos(t, s, parse, i);
    AdmittedRace(t, s, parse, i);
    AdmittedDead(t, s, parse, i);
    forall c | c in t.names && c !in s.timeColumns && c !in ["race", LosLabel(s.stayType), "is_dead", "admit_provider_id"]
      ensures c in r.names && Get(r, i, c) == Get(t, i, c)
    {
      AdmittedOther(t, s, parse, i, c);
    }
  }

  /** A column the shared steps left in the frame, other than `admit_provider_id`
      and `is_dead`, reaches the result unchanged. */
  lemma AdmittedKeeps(t: Table, s: StaySpec, parse: Cell -> Option<int>, i: nat, c: string)
    requires WF(t) && i < |t.rows| && Admitted(t, s, parse).Ok?
    requires c in Prepare(t, s, parse).frame.names && c != "admit_provider_id" && c != "is_dead"
    ensures c in Admitted(t, s, parse).value.names && |Admitted(t, s, parse).value.rows| == |t.rows|
    ensures Get(Admitted(t, s, parse).value, i, c) == Get(Prepare(t, s, parse).frame, i, c)
  {
    var f := Prepare(t, s, parse).frame;
    assert Admitted(t, s, parse) == Finish(f);
    FinishKeeps(f, i, c);
  }

  lemma AdmittedTime(t: Table, s: StaySpec, parse: Cell -> Option<int>, i: nat, c: string)
    requires WF(t) && Fits(s) && i < |t.rows| && Admitted(t, s, parse).Ok? && c in s.timeColumns
    ensures c in t.names && c in Admitted(t, s, parse).value.names && |Admitted(t, s, parse).value.rows| == |t.rows|
    ensures Get(Admitted(t, s, parse).value, i, c) == ToDatetime(Get(t, i, c), parse)
  {
    PrepareNames(t, s, parse);
    PrepareGet(t, s, parse, i);
    AdmittedKeeps(t, s, parse, i, c);
  }

  lemma AdmittedLos(t: Table, s: StaySpec, parse: Cell -> Option<int>, i: nat)
    requires WF(t) && Fits(s) && i < |t.rows| && Admitted(t, s, parse).Ok?
    ensures s.inColumn in t.names && s.outColumn in t.names
    ensures LosLabel(s.stayType) in Admitted(t, s, parse).value.names && |Admitted(t, s, parse).value.rows| == |t.rows|
    ensures Get(Admitted(t, s, parse).value, i, LosLabel(s.stayType)) ==
              HoursBetween(ToDatetime(Get(t, i, s.inColumn), parse), ToDatetime(Get(t, i, s.outColumn), parse))
  {
    PrepareNames(t, s, parse);
    PrepareGet(t, s, parse, i);
    AdmittedKeeps(t, s, parse, i, LosLabel(s.stayType));
  }

  lemma AdmittedRace(t: Table, s: StaySpec, parse: Cell -> Option<int>, i: nat)
    requires WF(t) && Fits(s) && i < |t.rows| && Admitted(t, s, parse).Ok?
    ensures "race" in t.names && "race" in Admitted(t, s, parse).value.names && |Admitted(t, s, parse).value.rows| == |t.rows|
    ensures Get(Admitted(t, s, parse).value, i, "race") == RaceOf(Get(t, i, "race"))
  {
    PrepareNames(t, s, parse);
    PrepareGet(t, s, parse, i);
    AdmittedKeeps(t, s, parse, i, "race");
  }

  lemma AdmittedDead(t: Table, s: StaySpec, parse: Cell -> Option<int>, i: nat)
    requires WF(t) && Fits(s) && i < |t.rows| && Admitted(t, s, parse).Ok?
    ensures "deathtime" in t.names && "is_dead" in Admitted(t, s, parse).value.names && |Admitted(t, s, parse).value.rows| == |t.rows|
    ensures Get(Admitted(t, s, parse).value, i, "is_dead") == Bool(ToDatetime(Get(t, i, "deathtime"), parse) != Null)
  {
    var f := Prepare(t, s, parse).frame;
    assert Admitted(t, s, parse) == Finish(f);
    FinishFlag(f, i);
    PrepareNames(t, s, parse);
    PrepareGet(t, s, parse, i);
  }

  lemma AdmittedOther(t: Table, s: StaySpec, parse: Cell -> Option<int>, i: nat, c: string)
    requires WF(t) && Fits(s) && i < |t.rows| && Admitted(t, s, parse).Ok?
    requires c in t.names && c !in s.timeColumns && c !in ["race", LosLabel(s.stayType), "is_dead", "admit_provider_id"]
    ensures c in Admitted(t, s, parse).value.names && |Admitted(t, s, parse).value.rows| == |t.rows|
    ensures Get(Admitted(t, s, parse).value, i, c) == Get(t, i, c)
  {
    PrepareNames(t, s, parse);
    PrepareGet(t, s, parse, i);
    AdmittedKeeps(t, s, parse, i, c);
  }

  /** Lines 8-30: the preprocessor runs to the end exactly when the five timestamp
      columns, `race`, the seven cast columns and `admit_provider_id` are all
      present; otherwise it raises a KeyError. */
  lemma AdmissionsOk(t: Table, parse: Cell -> Option<int>)
    requires WF(t)
    ensures Admissions(t, parse).Ok? <==>
              && (forall c :: c in TimeColumns() ==> c in t.names)
              && (forall c :: c in CategoryColumns() ==> c in t.names)
              && "admit_provider_id" in t.names
    ensures Admissions(t, parse).Err? ==> Admissions(t, parse).error.KeyError?
  {
    StepsFit();
    AdmittedOk(t, Steps(), parse);
  }

  /** Lines 8-30: a run that did not raise keeps the number of rows and their order,
      removes `admit_provider_id` and only it, and adds `admission_los_hours` and
      `is_dead`. On each row the five timestamp columns hold their parsed values,
      `admission_los_hours` the hours from `admittime` to `dischtime`, `race` its
      bucket and `is_dead` whether the parsed `deathtime` is present; every other
      column keeps its cell. */
  lemma AdmissionsRow(t: Table, parse: Cell -> Option<int>, i: nat)
    requires WF(t) && i < |t.rows| && Admissions(t, parse).Ok?
    ensures var r := Admissions(t, parse).value;
      && |r.rows| == |t.rows|
      && (forall c :: c in r.names <==> (c in t.names && c != "admit_provider_id") || c == "admission_los_hours" || c == "is_dead")
      && (forall c :: c in TimeColumns() ==> c in t.names && c in r.names && Get(r, i, c) == ToDatetime(Get(t, i, c), parse))
      && "admission_los_hours" in r.names
      && Get(r, i, "admission_los_hours") ==
           HoursBetween(ToDatetime(Get(t, i, "admittime"), parse), ToDatetime(Get(t, i, "dischtime"), parse))
      && "race" in t.names && "race" in r.names && Get(r, i, "race") == RaceOf(Get(t, i, "race"))
      && "is_dead" in r.names && Get(r, i, "is_dead") == Bool(ToDatetime(Get(t, i, "deathtime"), parse) != Null)
      && (forall c :: c in t.names && c !in TimeColumns() && c !in ["race", "admission_los_hours", "is_dead", "admit_provider_id"] ==>
            c in r.names && Get(r, i, c) == Get(t, i, c))
  {
    StepsFit();
    AdmittedShape(t, Steps(), parse);
    AdmittedRow(t, Steps(), parse, i);
  }

  /** Line 27 rebinds `df` to a new frame: the caller's frame, which the earlier
      steps changed in place, keeps `admit_provider_id` and gets no `is_dead`,
      while the returned frame has no `admit_provider_id`. */
  lemma CallerKeepsProvider(t: Table, parse: Cell -> Option<int>)
    requires WF(t) && Admissions(t, parse).Ok?
    ensures "admit_provider_id" in Prepare(t, Steps(), parse).frame.names
    ensures "admit_provider_id" !in Admissions(t, parse).value.names
    ensures "is_dead" in Prepare(t, Steps(), parse).frame.names <==> "is_dead" in t.names
  {
    hide Prepare; hide Finish;
    StepsFit();
    AdmittedOk(t, Steps(), parse);
    PrepareNames(t, Steps(), parse);
    AdmittedShape(t, Steps(), parse);
  }

  /** `AdmissionsPreprocessor.preprocess(df)`: the shared steps change the caller's
      frame in place; the drop then makes a new frame, which gains `is_dead` and is
      returned. */
  method Preprocess(df: Frame, parse: Cell -> Option<int>) returns (r: Result<Table>)
    requires WF(df.Value())
    modifies df
    ensures df.Value() == Prepare(old(df.Value()), Steps(), parse).frame
    ensures r == Admissions(old(df.Value()), parse)
  {
    var error := PrepareInPlace(df, Steps(), parse);
    if error.Some? {
      return Err(error.value);
    }
    var dropped := Drop(df.Value(), ["admit_provider_id"]);
    if dropped.Err? {
      return Err(dropped.error);
    }
    var out := new Frame(dropped.value);
    if "deathtime" !in out.names {
      return Err(KeyError("deathtime"));
    }
    out.SetColumn("is_dead", BoolType, NotNA(out.Value(), "deathtime"));
    r := Ok(out.Value());
  }
}
