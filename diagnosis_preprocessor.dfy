/** `DiagnosisPreprocessor.preprocess`: the ICD-10 rows only, left-joined on the
    first letter of their code against every block of the disease-category
    table (no deduplication, so a row can be repeated once per block sharing
    its letter), and given a coarse category through a 12-entry map with
    'Other' as the fallback. The category table is a parameter. */
module DiagnosisPreprocessor {
  import opened Frames
  import opened Diagnosis

  /** The 12 chapter titles this variant simplifies, in source order, with
      the bucket each one is written as. */
  function ShortTable(): seq<(string, Chapter)> {
    [
    ("Diseases of the nervous system", NervousSystem),
    ("Mental and behavioural disorders", MentalBehavioral),
    ("Diseases of the digestive system", Digestive),
    ("Endocrine, nutritional and metabolic diseases", EndocrineMetabolic),
    ("Diseases of the circulatory system", Circulatory),
    ("Diseases of the respiratory system", Respiratory),
    ("Diseases of the genitourinary system", Genitourinary),
    ("Diseases of the blood and blood-forming organs and certain disorders involving the immune mechanism", BloodImmune),
    ("Diseases of the eye and adnexa", EyeAdnexa),
    ("Diseases of the ear and mastoid process", EarMastoid),
    ("Pregnancy, childbirth and the puerperium", Pregnancy),
    ("Certain infectious and parasitic diseases", InfectiousParasitic)
  ]
  }

  /** The columns removed at the end. */
  function FinalDrops(): seq<string> {
    ["icd_title", "icd_version", "seq_num"]
  }

  /** The columns of the category table the join keeps. */
  function JoinColumns(): seq<string> {
    ["category", "letter_code"]
  }

  /** `.map(category_mapping).fillna('Other')` for one cell. */
  function ShortCategory(c: Cell): Cell {
    if c.Str? then
      match Lookup(ShortTable(), c.s)
      case Some(b) => Str(Label(b))
      case None => Str("Other")
    else Str("Other")
  }

  /** A listed title becomes its simplified name; anything else (another title,
      a number, a missing value) becomes 'Other'. The result is never missing. */
  lemma ShortCategorySpec(c: Cell)
    ensures ShortCategory(c) != Null
    ensures c.Str? && (exists i :: 0 <= i < |ShortTable()| && ShortTable()[i].0 == c.s) ==>
              exists b :: ShortCategory(c) == Str(Label(b)) && (c.s, b) in ShortTable()
    ensures (!c.Str? || forall i :: 0 <= i < |ShortTable()| ==> ShortTable()[i].0 != c.s) ==>
              ShortCategory(c) == Str("Other")
  {
  }

  /** `.map(...).fillna('Other')` over the category column. */
  function ShortCategoryColumn(t: Table): (r: seq<Cell>)
    requires WF(t) && "category" in t.names
    ensures |r| == |t.rows| && forall i :: 0 <= i < |t.rows| ==> r[i] == ShortCategory(Get(t, i, "category"))
  {
    seq(|t.rows|, i requires 0 <= i < |t.rows| => ShortCategory(Get(t, i, "category")))
  }

  /** The first character of the first three is the first character. */
  lemma StrAtSlice(c: Cell)
    ensures StrAt(StrSlice(c, 0, 3), 0) == StrAt(c, 0)
  {
  }

  /** Lines 15-16: `category_code = icd_code.str[:3]`, `letter_code = category_code.str[0]`. */
  function LetterCodes(d10: Table): (r: Table)
    requires WF(d10) && "icd_code" in d10.names
    ensures WF(r) && |r.rows| == |d10.rows|
    ensures forall c :: c in r.names <==> c in d10.names || c == "category_code" || c == "letter_code"
    ensures forall i :: 0 <= i < |r.rows| ==>
              && Get(r, i, "category_code") == StrSlice(Get(d10, i, "icd_code"), 0, 3)
              && Get(r, i, "letter_code") == StrAt(Get(d10, i, "icd_code"), 0)
    ensures forall i, c :: 0 <= i < |r.rows| && c in d10.names && c != "category_code" && c != "letter_code" ==>
              Get(r, i, c) == Get(d10, i, c)
  {
    var d1 := Assign(d10, "category_code", Object, StrSliceColumn(Column(d10, "icd_code"), 0, 3));
    var d2 := Assign(d1, "letter_code", Object, StrAtColumn(Column(d1, "category_code"), 0));
    LetterCodesNames(d10, d1, d2);
    assert forall i :: 0 <= i < |d2.rows| ==>
             && Get(d2, i, "category_code") == StrSlice(Get(d10, i, "icd_code"), 0, 3)
             && Get(d2, i, "letter_code") == StrAt(Get(d10, i, "icd_code"), 0) by {
      forall i | 0 <= i < |d2.rows| ensures Get(d2, i, "category_code") == StrSlice(Get(d10, i, "icd_code"), 0, 3)
                                    && Get(d2, i, "letter_code") == StrAt(Get(d10, i, "icd_code"), 0) {
        LetterCodesDerived(d10, d1, d2, i);
      }
    }
    assert forall i, c :: 0 <= i < |d2.rows| && c in d10.names && c != "category_code" && c != "letter_code" ==>
             Get(d2, i, c) == Get(d10, i, c) by {
      forall i, c | 0 <= i < |d2.rows| && c in d10.names && c != "category_code" && c != "letter_code"
        ensures Get(d2, i, c) == Get(d10, i, c) {
        LetterCodesKept(d10, d1, d2, i, c);
      }
    }
    d2
  }

  /** The shape of the table with the two derived columns. */
  lemma LetterCodesNames(d10: Table, d1: Table, d2: Table)
    requires WF(d10) && "icd_code" in d10.names
    requires d1 == Assign(d10, "category_code", Object, StrSliceColumn(Column(d10, "icd_code"), 0, 3))
    requires d2 == Assign(d1, "letter_code", Object, StrAtColumn(Column(d1, "category_code"), 0))
    ensures WF(d2) && |d2.rows| == |d10.rows|
    ensures forall c :: c in d2.names <==> c in d10.names || c == "category_code" || c == "letter_code"
  {
    hide Get; hide Column; hide StrSliceColumn; hide StrAtColumn;
    assert d1.names == if "category_code" in d10.names then d10.names else d10.names + ["category_code"];
    assert d2.names == if "letter_code" in d1.names then d1.names else d1.names + ["letter_code"];
    hide Assign;
    forall c ensures c in d2.names <==> c in d10.names || c == "category_code" || c == "letter_code" {
      AssignedTwiceName(d10.names, d1.names, d2.names, "category_code", "letter_code", c);
    }
  }

  /** The cells of the two derived columns. */
  lemma LetterCodesDerived(d10: Table, d1: Table, d2: Table, i: nat)
    requires WF(d10) && "icd_code" in d10.names
    requires d1 == Assign(d10, "category_code", Object, StrSliceColumn(Column(d10, "icd_code"), 0, 3))
    requires d2 == Assign(d1, "letter_code", Object, StrAtColumn(Column(d1, "category_code"), 0))
    requires i < |d10.rows|
    ensures "category_code" in d2.names && "letter_code" in d2.names && i < |d2.rows|
    ensures Get(d2, i, "category_code") == StrSlice(Get(d10, i, "icd_code"), 0, 3)
    ensures Get(d2, i, "letter_code") == StrAt(Get(d10, i, "icd_code"), 0)
  {
    hide Get; hide StrAt; hide StrSlice;
    assert Get(d1, i, "category_code") == StrSlice(Get(d10, i, "icd_code"), 0, 3);
    assert Get(d2, i, "category_code") == Get(d1, i, "category_code");
    assert Get(d2, i, "letter_code") == StrAt(Get(d1, i, "category_code"), 0);
    StrAtSlice(Get(d10, i, "icd_code"));
  }

  /** Every other cell is kept. */
  lemma LetterCodesKept(d10: Table, d1: Table, d2: Table, i: nat, c: string)
    requires WF(d10) && "icd_code" in d10.names
    requires d1 == Assign(d10, "category_code", Object, StrSliceColumn(Column(d10, "icd_code"), 0, 3))
    requires d2 == Assign(d1, "letter_code", Object, StrAtColumn(Column(d1, "category_code"), 0))
    requires i < |d10.rows| && c in d10.names && c != "category_code" && c != "letter_code"
    ensures c in d2.names && i < |d2.rows| && Get(d2, i, c) == Get(d10, i, c)
  {
    hide Get; hide Column; hide StrSliceColumn; hide StrAtColumn;
    assert Get(d1, i, c) == Get(d10, i, c);
  }

  /** The letter a category-table row is joined on: the first character of its block code. */
  function BlockLetter(ref: Table, j: nat): Cell
    requires WF(ref) && "block_code" in ref.names && j < |ref.rows|
  {
    StrAt(Get(ref, j, "block_code"), 0)
  }

  /** Line 25: the category table with `letter_code = block_code.str[0]`. */
  function BlockLetters(ref: Table): (r: Table)
    requires WF(ref) && "block_code" in ref.names
    ensures WF(r) && |r.rows| == |ref.rows|
    ensures r.names == ref.names + (if "letter_code" in ref.names then [] else ["letter_code"])
    ensures forall j :: 0 <= j < |r.rows| ==> Get(r, j, "letter_code") == BlockLetter(ref, j)
    ensures forall j, c :: 0 <= j < |r.rows| && c in ref.names && c != "letter_code" ==> Get(r, j, c) == Get(ref, j, c)
  {
    Assign(ref, "letter_code", Object, StrAtColumn(Column(ref, "block_code"), 0))
  }

  /** Line 29: the two joined columns of the category table, every row kept. */
  function CategoryLetters(ref: Table): (r: Result<Table>)
    requires WF(ref) && "block_code" in ref.names
    ensures r.Err? <==> "category" !in ref.names
    ensures r.Err? ==> r.error == KeyError("category")
    ensures r.Ok? ==> WF(r.value) && r.value.names == JoinColumns() && |r.value.rows| == |ref.rows|
    ensures r.Ok? ==> forall j :: 0 <= j < |ref.rows| ==>
              Get(r.value, j, "letter_code") == BlockLetter(ref, j) && Get(r.value, j, "category") == Get(ref, j, "category")
  {
    hide BlockLetters; hide Select; hide Get; hide Assign; hide WF; hide StrAtColumn; hide Column; hide BlockLetter; hide StrAt;
    var blocks := BlockLetters(ref);
    assert Distinct(JoinColumns());
    assert "letter_code" in blocks.names;
    assert "category" in blocks.names <==> "category" in ref.names;
    assert (exists c :: c in JoinColumns() && c !in blocks.names) <==> "category" !in ref.names;
    var r := Select(blocks, JoinColumns());
    if r.Err? then Err(KeyError("category")) else r
  }

  /** One row of the joined category table. */
  lemma CategoryLettersRow(ref: Table, j: nat)
    requires WF(ref) && "block_code" in ref.names && CategoryLetters(ref).Ok? && j < |ref.rows|
    ensures var right := CategoryLetters(ref).value;
      && j < |right.rows| && "letter_code" in right.names && "category" in right.names && "category" in ref.names
      && Get(right, j, "letter_code") == BlockLetter(ref, j) && Get(right, j, "category") == Get(ref, j, "category")
  {
  }

  /** `DiagnosisPreprocessor.preprocess(df, ...)` with the category table read in as `ref`. */
  function Preprocess(df: Table, ref: Table): (r: Result<Table>)
    requires WF(df) && WF(ref)
    ensures "icd_version" !in df.names ==> r == Err(KeyError("icd_version"))
    ensures "icd_version" in df.names && "icd_code" !in df.names ==> r == Err(KeyError("icd_code"))
    ensures r.Ok? ==> WF(r.value)
  {
    if "icd_version" !in df.names then Err(KeyError("icd_version"))
    else if "icd_code" !in df.names then Err(KeyError("icd_code"))
    else if "block_code" !in ref.names then Err(KeyError("block_code"))
    else
      var right :- CategoryLetters(ref);
      var merged :- Merge(LetterCodes(VersionRows(df, 10.0)), right, "letter_code", "_x", "_y");
      if "category" !in merged.names then Err(KeyError("category"))
      else FinishJoin(merged)
  }

  /** Lines 49-50 on the joined table: the category rewrite, then the final drop. */
  function FinishJoin(merged: Table): (r: Result<Table>)
    requires WF(merged) && "category" in merged.names
    ensures r.Ok? ==> WF(r.value) && |r.value.rows| == |merged.rows|
    ensures r.Ok? ==> forall c :: c in r.value.names <==> c in merged.names && c !in FinalDrops()
  {
    Drop(Assign(merged, "category", Object, ShortCategoryColumn(merged)), FinalDrops())
  }

  /** A successful run is the join, the category rewrite and the drop, in that order. */
  lemma PreprocessSteps(df: Table, ref: Table)
    requires WF(df) && WF(ref) && Preprocess(df, ref).Ok?
    ensures "icd_version" in df.names && "icd_code" in df.names && "block_code" in ref.names
    ensures CategoryLetters(ref).Ok?
    ensures var left, right := LetterCodes(VersionRows(df, 10.0)), CategoryLetters(ref).value;
      && Merge(left, right, "letter_code", "_x", "_y").Ok?
      && "category" in Merge(left, right, "letter_code", "_x", "_y").value.names
      && var merged := Merge(left, right, "letter_code", "_x", "_y").value;
         && Preprocess(df, ref) == FinishJoin(merged)
         && |Preprocess(df, ref).value.rows| == |merged.rows|
  {
  }

  /** No label made by the join's suffixes is 'category'. */
  lemma NotSuffixed(s: string)
    ensures s + "_x" != "category" && s + "_y" != "category"
  {
    assert (s + "_x")[|s| + 1] == 'x' && "category"[7] == 'y';
    assert (s + "_y")[|s|] == '_' && "category"[6] == 'r';
  }

  /** Lines 28-32 and 50: an input that already has a 'category' column gets
      'category_x' and 'category_y' from the join, so line 50 finds no
      'category' column. */
  lemma ClashHidesCategory(left: Table, right: Table)
    requires WF(left) && WF(right) && right.names == JoinColumns()
    requires Merge(left, right, "letter_code", "_x", "_y").Ok?
    ensures "category" in left.names ==> "category" !in Merge(left, right, "letter_code", "_x", "_y").value.names
  {
    hide *;
    var m := Merge(left, right, "letter_code", "_x", "_y").value.names;
    if "category" in left.names {
      forall c | c in m ensures c != "category" {
        MergedNameSource(left.names, right.names, "letter_code", "_x", "_y", c);
        forall l | l in left.names ensures LeftLabel(l, right.names, "letter_code", "_x") != "category" {
          ClashLeftLabel(l, right.names);
        }
        forall r | r in right.names && r != "letter_code" ensures RightLabel(r, left.names, "_y") != "category" {
          ClashRightLabel(r, left.names);
        }
      }
    }
  }

  /** With 'category' on both sides, no left column keeps the bare label. */
  lemma ClashLeftLabel(l: string, right: seq<string>)
    requires right == JoinColumns()
    ensures LeftLabel(l, right, "letter_code", "_x") != "category"
  {
    NotSuffixed(l);
  }

  /** With 'category' on the left, no right column keeps the bare label. */
  lemma ClashRightLabel(r: string, left: seq<string>)
    requires "category" in left
    ensures RightLabel(r, left, "_y") != "category"
  {
    NotSuffixed(r);
  }

  /** A label that no suffix can produce is in the join only if the left side has it. */
  lemma LeftOnlyName(left: Table, right: Table, c: string)
    requires WF(left) && WF(right) && right.names == JoinColumns()
    requires Merge(left, right, "letter_code", "_x", "_y").Ok?
    requires c != "category" && c != "category_y" && |c| > 0 && c[|c| - 1] != 'x'
    ensures c in Merge(left, right, "letter_code", "_x", "_y").value.names ==> c in left.names
  {
    hide *;
    forall l | l in left.names && LeftLabel(l, right.names, "letter_code", "_x") == c ensures l == c {
      UnsuffixedLeftLabel(l, right.names, c);
    }
    forall r | r in right.names && r != "letter_code" ensures RightLabel(r, left.names, "_y") != c {
      UnsuffixedRightLabel(r, left.names, c);
    }
    if c in Merge(left, right, "letter_code", "_x", "_y").value.names {
      MergedNameSource(left.names, right.names, "letter_code", "_x", "_y", c);
    }
  }

  /** A left label not ending in 'x' is the left column's own label. */
  lemma UnsuffixedLeftLabel(l: string, right: seq<string>, c: string)
    requires |c| > 0 && c[|c| - 1] != 'x' && LeftLabel(l, right, "letter_code", "_x") == c
    ensures l == c
  {
    assert (l + "_x")[|l| + 1] == 'x';
  }

  /** The right side of the join only contributes 'category' or 'category_y'. */
  lemma UnsuffixedRightLabel(r: string, left: seq<string>, c: string)
    requires r in JoinColumns() && r != "letter_code" && c != "category" && c != "category_y"
    ensures RightLabel(r, left, "_y") != c
  {
    assert "category" + "_y" == "category_y";
  }

  /** Lines 25 and 29: a category table without 'block_code' or 'category' raises. */
  lemma PreprocessErrors(df: Table, ref: Table)
    requires WF(df) && WF(ref)
    ensures "icd_version" in df.names && "icd_code" in df.names && "block_code" !in ref.names ==>
              Preprocess(df, ref) == Err(KeyError("block_code"))
    ensures "icd_version" in df.names && "icd_code" in df.names && "block_code" in ref.names && "category" !in ref.names ==>
              Preprocess(df, ref) == Err(KeyError("category"))
  {
  }

  /** The join and rewrite of lines 28-50, then the drop of line 54, succeed only
      if the input has no 'category' column and has the three dropped ones. */
  lemma JoinNeeds(left: Table, right: Table)
    requires WF(left) && WF(right) && right.names == JoinColumns()
    requires Merge(left, right, "letter_code", "_x", "_y").Ok?
    requires var merged := Merge(left, right, "letter_code", "_x", "_y").value;
      "category" in merged.names && FinishJoin(merged).Ok?
    ensures "category" !in left.names
    ensures "icd_title" in left.names && "icd_version" in left.names && "seq_num" in left.names
  {
    var merged := Merge(left, right, "letter_code", "_x", "_y").value;
    var t := Assign(merged, "category", Object, ShortCategoryColumn(merged));
    DropFound(t, FinalDrops(), "icd_title");
    DropFound(t, FinalDrops(), "icd_version");
    DropFound(t, FinalDrops(), "seq_num");
    ClashHidesCategory(left, right);
    LeftOnlyName(left, right, "icd_title");
    LeftOnlyName(left, right, "icd_version");
    LeftOnlyName(left, right, "seq_num");
  }

  /** The same, read back through the derived code columns to the ICD-10 rows. */
  lemma JoinNeedsRows(d10: Table, right: Table)
    requires WF(d10) && "icd_code" in d10.names && WF(right) && right.names == JoinColumns()
    requires Merge(LetterCodes(d10), right, "letter_code", "_x", "_y").Ok?
    requires var merged := Merge(LetterCodes(d10), right, "letter_code", "_x", "_y").value;
      "category" in merged.names && FinishJoin(merged).Ok?
    ensures "category" !in d10.names
    ensures "icd_title" in d10.names && "icd_version" in d10.names && "seq_num" in d10.names
  {
    JoinNeeds(LetterCodes(d10), right);
    assert "icd_title" != "category_code" && "icd_title" != "letter_code";
    assert "icd_version" != "category_code" && "icd_version" != "letter_code";
    assert "seq_num" != "category_code" && "seq_num" != "letter_code";
  }

  /** Lines 50 and 54: an input 'category' column makes the run raise, and so
      does an input lacking one of the three dropped columns. */
  lemma PreprocessNeeds(df: Table, ref: Table)
    requires WF(df) && WF(ref) && Preprocess(df, ref).Ok?
    ensures "category" !in df.names
    ensures "icd_title" in df.names && "icd_version" in df.names && "seq_num" in df.names
  {
    PreprocessSteps(df, ref);
    JoinNeedsRows(VersionRows(df, 10.0), CategoryLetters(ref).value);
  }

  /** Which ICD-10 row each output row came from. */
  ghost function Origin(df: Table, ref: Table): (o: seq<nat>)
    requires WF(df) && WF(ref) && Preprocess(df, ref).Ok?
    ensures |o| == |Preprocess(df, ref).value.rows| >= |VersionRows(df, 10.0).rows|
    ensures forall k :: 0 <= k < |o| ==> o[k] < |VersionRows(df, 10.0).rows|
  {
    OriginSteps(df, ref);
    MergeOrigin(LetterCodes(VersionRows(df, 10.0)), CategoryLetters(ref).value, "letter_code", "_x", "_y")
  }

  /** Lines 28-32: the output rows follow the order of the ICD-10 rows. */
  lemma OriginMonotone(df: Table, ref: Table)
    requires WF(df) && WF(ref) && Preprocess(df, ref).Ok?
    ensures var o := Origin(df, ref);
      forall k, k' :: 0 <= k <= k' < |o| ==> o[k] <= o[k']
  {
    OriginSteps(df, ref);
    hide Preprocess; hide LetterCodes; hide CategoryLetters; hide Merge; hide VersionRows;
    MergeOriginMonotone(LetterCodes(VersionRows(df, 10.0)), CategoryLetters(ref).value, "letter_code", "_x", "_y");
  }

  /** Lines 28-32: every ICD-10 row is the origin of at least one output row. */
  lemma OriginCovers(df: Table, ref: Table)
    requires WF(df) && WF(ref) && Preprocess(df, ref).Ok?
    ensures var o := Origin(df, ref);
      forall i :: 0 <= i < |VersionRows(df, 10.0).rows| ==> i in o
  {
    OriginSteps(df, ref);
    hide Preprocess; hide LetterCodes; hide CategoryLetters; hide Merge; hide VersionRows;
    MergeOriginCovers(LetterCodes(VersionRows(df, 10.0)), CategoryLetters(ref).value, "letter_code", "_x", "_y");
  }

  /** The join behind a successful run, with the row counts it fixes. */
  lemma OriginSteps(df: Table, ref: Table)
    requires WF(df) && WF(ref) && Preprocess(df, ref).Ok?
    ensures "icd_code" in VersionRows(df, 10.0).names && "block_code" in ref.names && CategoryLetters(ref).Ok?
    ensures var left, right := LetterCodes(VersionRows(df, 10.0)), CategoryLetters(ref).value;
      && Mergeable(left, right, "letter_code", "_x", "_y")
      && |left.rows| == |VersionRows(df, 10.0).rows|
      && |Preprocess(df, ref).value.rows| == |Merge(left, right, "letter_code", "_x", "_y").value.rows|
  {
    PreprocessSteps(df, ref);
    hide Preprocess; hide Merge; hide Drop; hide Assign; hide LetterCodes; hide CategoryLetters;
  }

  /** Lines 50 and 54 on one row: the category is rewritten, the other kept columns are untouched. */
  lemma FinishGet(merged: Table, k: nat, c: string)
    requires WF(merged) && "category" in merged.names
    requires FinishJoin(merged).Ok?
    requires k < |merged.rows| && c in merged.names && c !in FinalDrops()
    ensures var out := FinishJoin(merged).value;
      && |out.rows| == |merged.rows| && c in out.names
      && Get(out, k, c) == if c == "category" then ShortCategory(Get(merged, k, "category")) else Get(merged, k, c)
  {
  }

  /** One output cell of a left column: the cell of the origin row. */
  lemma JoinedLeft(left: Table, right: Table, k: nat, c: string)
    requires WF(left) && WF(right) && right.names == JoinColumns()
    requires Merge(left, right, "letter_code", "_x", "_y").Ok?
    requires var merged := Merge(left, right, "letter_code", "_x", "_y").value;
      "category" in merged.names && FinishJoin(merged).Ok?
    requires k < |Merge(left, right, "letter_code", "_x", "_y").value.rows|
    requires c in left.names && c != "category" && c !in FinalDrops()
    ensures var merged := Merge(left, right, "letter_code", "_x", "_y").value;
      var out, o := FinishJoin(merged).value,
                    MergeOrigin(left, right, "letter_code", "_x", "_y");
      c in out.names && Get(out, k, c) == Get(left, o[k], c)
  {
    hide Merge; hide MergeOrigin; hide Drop; hide Assign; hide ShortCategoryColumn;
    MergeLeftGet(left, right, "letter_code", "_x", "_y", k, c);
    FinishGet(Merge(left, right, "letter_code", "_x", "_y").value, k, c);
  }

  /** One output cell of an input column: the cell of the origin ICD-10 row. */
  lemma JoinedRows(d10: Table, right: Table, k: nat, c: string)
    requires WF(d10) && "icd_code" in d10.names && WF(right) && right.names == JoinColumns()
    requires Merge(LetterCodes(d10), right, "letter_code", "_x", "_y").Ok?
    requires var merged := Merge(LetterCodes(d10), right, "letter_code", "_x", "_y").value;
      "category" in merged.names && FinishJoin(merged).Ok?
    requires k < |Merge(LetterCodes(d10), right, "letter_code", "_x", "_y").value.rows|
    requires c in d10.names && c !in FinalDrops() && c != "category_code" && c != "letter_code"
    ensures var left := LetterCodes(d10);
      var merged := Merge(left, right, "letter_code", "_x", "_y").value;
      var out, o := FinishJoin(merged).value,
                    MergeOrigin(left, right, "letter_code", "_x", "_y");
      c in out.names && Get(out, k, c) == Get(d10, o[k], c)
  {
    assert c != "category" by { JoinNeedsRows(d10, right); }
    JoinedLeft(LetterCodes(d10), right, k, c);
  }

  /** Every output row repeats the input cells of the ICD-10 row it came from,
      outside the derived, joined and dropped columns. */
  lemma PreprocessKeeps(df: Table, ref: Table, k: nat, c: string)
    requires WF(df) && WF(ref) && Preprocess(df, ref).Ok? && k < |Preprocess(df, ref).value.rows|
    requires c in df.names && c !in FinalDrops() && c != "category_code" && c != "letter_code"
    ensures var out, d10, o := Preprocess(df, ref).value, VersionRows(df, 10.0), Origin(df, ref);
      c in out.names && Get(out, k, c) == Get(d10, o[k], c)
  {
    PreprocessSteps(df, ref);
    JoinedRows(VersionRows(df, 10.0), CategoryLetters(ref).value, k, c);
  }

  /** The two derived code columns survive the join and the drop. */
  lemma JoinedCodes(left: Table, right: Table, k: nat)
    requires WF(left) && WF(right) && right.names == JoinColumns()
    requires Merge(left, right, "letter_code", "_x", "_y").Ok?
    requires var merged := Merge(left, right, "letter_code", "_x", "_y").value;
      "category" in merged.names && FinishJoin(merged).Ok?
    requires k < |Merge(left, right, "letter_code", "_x", "_y").value.rows|
    requires "category_code" in left.names && "letter_code" in left.names
    ensures var merged := Merge(left, right, "letter_code", "_x", "_y").value;
      var out, o := FinishJoin(merged).value,
                    MergeOrigin(left, right, "letter_code", "_x", "_y");
      && "category_code" in out.names && Get(out, k, "category_code") == Get(left, o[k], "category_code")
      && "letter_code" in out.names && Get(out, k, "letter_code") == Get(left, o[k], "letter_code")
  {
    CodeColumnsKept();
    var merged := Merge(left, right, "letter_code", "_x", "_y").value;
    var out, o := FinishJoin(merged).value,
                  MergeOrigin(left, right, "letter_code", "_x", "_y");
    assert "category_code" in out.names && Get(out, k, "category_code") == Get(left, o[k], "category_code") by {
      JoinedLeft(left, right, k, "category_code");
    }
    assert "letter_code" in out.names && Get(out, k, "letter_code") == Get(left, o[k], "letter_code") by {
      JoinedLeft(left, right, k, "letter_code");
    }
  }

  lemma CodeColumnsKept()
    ensures "category_code" != "category" && "category_code" !in FinalDrops()
    ensures "letter_code" != "category" && "letter_code" !in FinalDrops()
  {
  }

  /** Lines 15-16: the category code is the first three characters of the row's
      ICD code and the letter code its first character. */
  lemma PreprocessCodes(df: Table, ref: Table, k: nat)
    requires WF(df) && WF(ref) && Preprocess(df, ref).Ok? && k < |Preprocess(df, ref).value.rows|
    ensures "icd_code" in df.names
    ensures var out, d10, o := Preprocess(df, ref).value, VersionRows(df, 10.0), Origin(df, ref);
      var code := Get(d10, o[k], "icd_code");
      && "category_code" in out.names && Get(out, k, "category_code") == StrSlice(code, 0, 3)
      && "letter_code" in out.names && Get(out, k, "letter_code") == StrAt(code, 0)
  {
    PreprocessSteps(df, ref);
    JoinedCodes(LetterCodes(VersionRows(df, 10.0)), CategoryLetters(ref).value, k);
  }

  /** Every category is one of the twelve simplified names or 'Other'. */
  lemma ShortCategoryRange(c: Cell)
    ensures ShortCategory(c) == Str("Other") ||
            exists i :: 0 <= i < |ShortTable()| && ShortCategory(c) == Str(Label(ShortTable()[i].1))
  {
    hide ShortTable; hide Lookup;
    if c.Str? && Lookup(ShortTable(), c.s).Some? {
      var i :| 0 <= i < |ShortTable()| && ShortTable()[i] == (c.s, Lookup(ShortTable(), c.s).value);
    }
  }

  /** One output category: the simplified category of a right row with the
      same letter, or 'Other' when no right row has it. */
  lemma JoinedCategory(left: Table, right: Table, k: nat)
    requires WF(left) && WF(right) && right.names == JoinColumns() && "category" !in left.names
    requires Merge(left, right, "letter_code", "_x", "_y").Ok?
    requires var merged := Merge(left, right, "letter_code", "_x", "_y").value;
      "category" in merged.names && FinishJoin(merged).Ok?
    requires k < |Merge(left, right, "letter_code", "_x", "_y").value.rows|
    ensures var merged := Merge(left, right, "letter_code", "_x", "_y").value;
      var out, o := FinishJoin(merged).value,
                    MergeOrigin(left, right, "letter_code", "_x", "_y");
      var v := Get(left, o[k], "letter_code");
      && "category" in out.names
      && ((forall j :: 0 <= j < |right.rows| ==> Get(right, j, "letter_code") != v) ==>
            Get(out, k, "category") == Str("Other"))
      && ((exists j :: 0 <= j < |right.rows| && Get(right, j, "letter_code") == v) ==>
            exists j :: 0 <= j < |right.rows| && Get(right, j, "letter_code") == v &&
                        Get(out, k, "category") == ShortCategory(Get(right, j, "category")))
  {
    hide *;
    JoinColumnsHave();
    var merged := Merge(left, right, "letter_code", "_x", "_y").value;
    FinishGet(merged, k, "category");
    MergeOkMergeable(left, right, "letter_code", "_x", "_y");
    MergeLookup(left, right, "letter_code", "_x", "_y", k, "category", "category");
    ShortCategoryMissing();
  }

  /** The category table keeps both its columns through line 29, and line 50 drops neither. */
  lemma JoinColumnsHave()
    ensures "category" in JoinColumns() && "letter_code" in JoinColumns()
    ensures "category" !in FinalDrops() && "letter_code" !in FinalDrops()
  {
  }

  /** A category the join did not find is mapped to 'Other'. */
  lemma ShortCategoryMissing()
    ensures ShortCategory(Null) == Str("Other")
  {
  }

  /** What the join found among the rows of the two-column table, said of the category table itself. */
  lemma LookupInReference(ref: Table, letter: Cell, cat: Cell)
    requires WF(ref) && "block_code" in ref.names && CategoryLetters(ref).Ok?
    requires var right := CategoryLetters(ref).value;
      && ((forall j :: 0 <= j < |right.rows| ==> Get(right, j, "letter_code") != letter) ==> cat == Str("Other"))
      && ((exists j :: 0 <= j < |right.rows| && Get(right, j, "letter_code") == letter) ==>
            exists j :: 0 <= j < |right.rows| && Get(right, j, "letter_code") == letter &&
                        cat == ShortCategory(Get(right, j, "category")))
    ensures "category" in ref.names
    ensures (forall j :: 0 <= j < |ref.rows| ==> BlockLetter(ref, j) != letter) ==> cat == Str("Other")
    ensures (exists j :: 0 <= j < |ref.rows| && BlockLetter(ref, j) == letter) ==>
              exists j :: 0 <= j < |ref.rows| && BlockLetter(ref, j) == letter && cat == ShortCategory(Get(ref, j, "category"))
  {
    var right := CategoryLetters(ref).value;
    if exists j :: 0 <= j < |ref.rows| && BlockLetter(ref, j) == letter {
      var j0 :| 0 <= j0 < |ref.rows| && BlockLetter(ref, j0) == letter;
      CategoryLettersRow(ref, j0);
      var j :| 0 <= j < |right.rows| && Get(right, j, "letter_code") == letter &&
               cat == ShortCategory(Get(right, j, "category"));
      CategoryLettersRow(ref, j);
    } else {
      forall j | 0 <= j < |right.rows| ensures Get(right, j, "letter_code") != letter {
        CategoryLettersRow(ref, j);
      }
    }
  }

  /** The category of one output row, read back to the ICD-10 rows and the category table. */
  lemma JoinedCategoryRows(d10: Table, ref: Table, k: nat)
    requires WF(d10) && "icd_code" in d10.names && "category" !in d10.names
    requires WF(ref) && "block_code" in ref.names && CategoryLetters(ref).Ok?
    requires var left, right := LetterCodes(d10), CategoryLetters(ref).value;
      && Merge(left, right, "letter_code", "_x", "_y").Ok?
      && var merged := Merge(left, right, "letter_code", "_x", "_y").value;
         "category" in merged.names && FinishJoin(merged).Ok?
    requires k < |Merge(LetterCodes(d10), CategoryLetters(ref).value, "letter_code", "_x", "_y").value.rows|
    ensures var left, right := LetterCodes(d10), CategoryLetters(ref).value;
      var merged := Merge(left, right, "letter_code", "_x", "_y").value;
      var out, o := FinishJoin(merged).value,
                    MergeOrigin(left, right, "letter_code", "_x", "_y");
      var letter := StrAt(Get(d10, o[k], "icd_code"), 0);
      && "category" in out.names
      && ((forall j :: 0 <= j < |ref.rows| ==> BlockLetter(ref, j) != letter) ==> Get(out, k, "category") == Str("Other"))
      && ((exists j :: 0 <= j < |ref.rows| && BlockLetter(ref, j) == letter) ==>
            exists j :: 0 <= j < |ref.rows| && BlockLetter(ref, j) == letter &&
                        Get(out, k, "category") == ShortCategory(Get(ref, j, "category")))
  {
    hide *;
    var left, right := LetterCodes(d10), CategoryLetters(ref).value;
    MergeOkMergeable(left, right, "letter_code", "_x", "_y");
    var merged := Merge(left, right, "letter_code", "_x", "_y").value;
    var out, o := FinishJoin(merged).value,
                  MergeOrigin(left, right, "letter_code", "_x", "_y");
    var letter := StrAt(Get(d10, o[k], "icd_code"), 0);
    LetterCodesFresh(d10, "category");
    assert Get(left, o[k], "letter_code") == letter;
    JoinedCategory(left, right, k);
    LookupInReference(ref, letter, Get(out, k, "category"));
  }

  /** A column the ICD-10 rows lack is not on the left side of the join. */
  lemma LetterCodesFresh(d10: Table, c: string)
    requires WF(d10) && "icd_code" in d10.names
    requires c !in d10.names && c != "category_code" && c != "letter_code"
    ensures c !in LetterCodes(d10).names
  {
  }

  /** Lines 28-32 and 50: an output row whose code's first letter starts no
      block code gets 'Other'; otherwise it gets the simplified category of a
      category-table row whose block code starts with that letter. */
  lemma PreprocessCategory(df: Table, ref: Table, k: nat)
    requires WF(df) && WF(ref) && Preprocess(df, ref).Ok? && k < |Preprocess(df, ref).value.rows|
    ensures "icd_code" in df.names && "block_code" in ref.names
    ensures var out, d10, o := Preprocess(df, ref).value, VersionRows(df, 10.0), Origin(df, ref);
      var letter := StrAt(Get(d10, o[k], "icd_code"), 0);
      && "category" in out.names
      && ((forall j :: 0 <= j < |ref.rows| ==> BlockLetter(ref, j) != letter) ==> Get(out, k, "category") == Str("Other"))
      && ((exists j :: 0 <= j < |ref.rows| && BlockLetter(ref, j) == letter) ==>
            exists j :: 0 <= j < |ref.rows| && BlockLetter(ref, j) == letter &&
                        Get(out, k, "category") == ShortCategory(Get(ref, j, "category")))
  {
    PreprocessSteps(df, ref);
    PreprocessNeeds(df, ref);
    JoinedCategoryRows(VersionRows(df, 10.0), ref, k);
  }

  /** The category column after the mapping holds only the twelve names or 'Other'. */
  lemma FinishedCategoryRange(merged: Table, k: nat)
    requires WF(merged) && "category" in merged.names
    requires FinishJoin(merged).Ok?
    requires k < |merged.rows|
    ensures var out := FinishJoin(merged).value;
      && "category" in out.names && k < |out.rows|
      && (Get(out, k, "category") == Str("Other") ||
          exists i :: 0 <= i < |ShortTable()| && Get(out, k, "category") == Str(Label(ShortTable()[i].1)))
  {
    hide *;
    JoinColumnsHave();
    FinishGet(merged, k, "category");
    ShortCategoryRange(Get(merged, k, "category"));
  }

  /** Line 50: every output category is one of the twelve simplified names or 'Other'. */
  lemma PreprocessCategoryRange(df: Table, ref: Table, k: nat)
    requires WF(df) && WF(ref) && Preprocess(df, ref).Ok? && k < |Preprocess(df, ref).value.rows|
    ensures var out := Preprocess(df, ref).value;
      && "category" in out.names
      && (Get(out, k, "category") == Str("Other") ||
          exists i :: 0 <= i < |ShortTable()| && Get(out, k, "category") == Str(Label(ShortTable()[i].1)))
  {
    PreprocessSteps(df, ref);
    var merged := Merge(LetterCodes(VersionRows(df, 10.0)), CategoryLetters(ref).value, "letter_code", "_x", "_y").value;
    FinishedCategoryRange(merged, k);
  }

  /** The category-table rows whose block code starts with `letter`, in order. */
  function LetterMatches(ref: Table, letter: Cell): (js: seq<nat>)
    requires WF(ref) && "block_code" in ref.names
    ensures forall m :: 0 <= m < |js| ==> js[m] < |ref.rows| && BlockLetter(ref, js[m]) == letter
    ensures forall j :: 0 <= j < |ref.rows| && BlockLetter(ref, j) == letter ==> j in js
  {
    TrueIndices(seq(|ref.rows|, j requires 0 <= j < |ref.rows| => BlockLetter(ref, j) == letter))
  }

  /** The join's matches for a letter are the category-table rows with that letter. */
  lemma MatchesAreLetterMatches(ref: Table, letter: Cell)
    requires WF(ref) && "block_code" in ref.names && CategoryLetters(ref).Ok?
    ensures var right := CategoryLetters(ref).value;
      Matches(right.rows, IndexOf(right.names, "letter_code"), letter) == LetterMatches(ref, letter)
  {
    var right := CategoryLetters(ref).value;
    var rkey := IndexOf(right.names, "letter_code");
    forall j | 0 <= j < |right.rows| ensures right.rows[j][rkey] == BlockLetter(ref, j) {
      assert Get(right, j, "letter_code") == BlockLetter(ref, j);
    }
    MatchesByMask(right.rows, rkey, letter, seq(|ref.rows|, j requires 0 <= j < |ref.rows| => BlockLetter(ref, j) == letter));
  }

  /** Lines 28-32: each ICD-10 row appears once per category-table row whose
      block code starts with the first letter of its code, or once when there
      is none. */
  lemma PreprocessRepeats(df: Table, ref: Table, i: nat)
    requires WF(df) && WF(ref) && Preprocess(df, ref).Ok? && i < |VersionRows(df, 10.0).rows|
    ensures "icd_code" in df.names && "block_code" in ref.names
    ensures var n := |LetterMatches(ref, StrAt(Get(VersionRows(df, 10.0), i, "icd_code"), 0))|;
      multiset(Origin(df, ref))[i] == if n == 0 then 1 else n
  {
    PreprocessSteps(df, ref);
    var left, right := LetterCodes(VersionRows(df, 10.0)), CategoryLetters(ref).value;
    MergeOriginCount(left, right, "letter_code", "_x", "_y", i);
    MatchesAreLetterMatches(ref, Get(left, i, "letter_code"));
  }
}
