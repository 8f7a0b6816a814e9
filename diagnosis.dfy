/** `preprocess_diagnosis`: diagnosis rows are split by ICD version, ICD-9 rows are
    left-joined on their three-character category against the ICD-9 reference,
    ICD-10 rows on their two-character block prefix against the deduplicated
    ICD-10 block table, and the two halves are stacked and given a coarse
    chapter bucket and a subcategory. The reference tables are parameters. */
module Diagnosis {
  import opened Frames

  /** The 22 coarse buckets the chapter titles are sent to. */
  datatype Chapter =
    | InfectiousParasitic
    | Neoplasms
    | BloodImmune
    | EndocrineMetabolic
    | MentalBehavioral
    | NervousSystem
    | EyeAdnexa
    | EarMastoid
    | Circulatory
    | Respiratory
    | Digestive
    | SkinSubcutaneous
    | Musculoskeletal
    | Genitourinary
    | Pregnancy
    | Perinatal
    | Congenital
    | Symptoms
    | InjuryPoisoning
    | ExternalCauses
    | HealthFactors
    | SpecialPurposes

  /** The text each bucket is written as. */
  function Label(b: Chapter): string {
    match b
    case InfectiousParasitic => "Infectious & Parasitic"
    case Neoplasms => "Neoplasms"
    case BloodImmune => "Blood & Immune System"
    case EndocrineMetabolic => "Endocrine & Metabolic"
    case MentalBehavioral => "Mental & Behavioral"
    case NervousSystem => "Nervous System"
    case EyeAdnexa => "Eye & Adnexa"
    case EarMastoid => "Ear & Mastoid"
    case Circulatory => "Circulatory System"
    case Respiratory => "Respiratory System"
    case Digestive => "Digestive System"
    case SkinSubcutaneous => "Skin & Subcutaneous"
    case Musculoskeletal => "Musculoskeletal & Connective"
    case Genitourinary => "Genitourinary System"
    case Pregnancy => "Pregnancy & Childbirth"
    case Perinatal => "Perinatal Conditions"
    case Congenital => "Congenital & Chromosomal"
    case Symptoms => "Symptoms & Abnormal Findings"
    case InjuryPoisoning => "Injury & Poisoning"
    case ExternalCauses => "External Causes"
    case HealthFactors => "Health Factors & Services"
    case SpecialPurposes => "Special Purposes"
  }

  /** The chapter-title table: WHO ICD-10 chapters I-XXII, then ICD-9-CM chapters
      1-17. 'Neoplasms' is written twice, with the same bucket. */
  const CategoryTable: seq<(string, Chapter)> := [
    ("Certain infectious and parasitic diseases", InfectiousParasitic),
    ("Neoplasms", Neoplasms),
    ("Diseases of the blood and blood-forming organs and certain disorders involving the immune mechanism", BloodImmune),
    ("Endocrine, nutritional and metabolic diseases", EndocrineMetabolic),
    ("Mental and behavioural disorders", MentalBehavioral),
    ("Diseases of the nervous system", NervousSystem),
    ("Diseases of the eye and adnexa", EyeAdnexa),
    ("Diseases of the ear and mastoid process", EarMastoid),
    ("Diseases of the circulatory system", Circulatory),
    ("Diseases of the respiratory system", Respiratory),
    ("Diseases of the digestive system", Digestive),
    ("Diseases of the skin and subcutaneous tissue", SkinSubcutaneous),
    ("Diseases of the musculoskeletal system and connective tissue", Musculoskeletal),
    ("Diseases of the genitourinary system", Genitourinary),
    ("Pregnancy, childbirth and the puerperium", Pregnancy),
    ("Certain conditions originating in the perinatal period", Perinatal),
    ("Congenital malformations, deformations and chromosomal abnormalities", Congenital),
    ("Symptoms, signs and abnormal clinical and laboratory findings, not elsewhere classified", Symptoms),
    ("Injury, poisoning and certain other consequences of external causes", InjuryPoisoning),
    ("External causes of morbidity and mortality", ExternalCauses),
    ("Factors influencing health status and contact with health services", HealthFactors),
    ("Codes for special purposes", SpecialPurposes),
    ("Infectious And Parasitic Diseases", InfectiousParasitic),
    ("Neoplasms", Neoplasms),
    ("Endocrine, Nutritional And Metabolic Diseases, And Immunity Disorders", EndocrineMetabolic),
    ("Diseases Of Blood And Blood-Forming Organs", BloodImmune),
    ("Mental Disorders", MentalBehavioral),
    ("Diseases Of The Nervous System And Sense Organs", NervousSystem),
    ("Diseases Of The Circulatory System", Circulatory),
    ("Diseases Of The Respiratory System", Respiratory),
    ("Diseases Of The Digestive System", Digestive),
    ("Diseases Of The Genitourinary System", Genitourinary),
    ("Complications Of Pregnancy, Childbirth, And The Puerperium", Pregnancy),
    ("Diseases Of The Skin And Subcutaneous Tissue", SkinSubcutaneous),
    ("Diseases Of The Musculoskeletal System And Connective Tissue", Musculoskeletal),
    ("Congenital Anomalies", Congenital),
    ("Certain Conditions Originating In The Perinatal Period", Perinatal),
    ("Symptoms, Signs, And Ill-Defined Conditions", Symptoms),
    ("Injury And Poisoning", InjuryPoisoning)
  ]

  /** The columns removed at the end. */
  const DroppedColumns: seq<string> := ["seq_num", "description", "subcategory_icd9", "subcategory_icd10", "icd_code_icd9"]

  /** The columns turned into categoricals before the drop; each must exist. */
  const CategoricalColumns: seq<string> := ["category_code", "icd_code", "category", "subcategory"]

  /** Every one of the 22 buckets is reached by some chapter title. */
  lemma CategoryTableOnto(b: Chapter)
    ensures exists i :: 0 <= i < |CategoryTable| && CategoryTable[i].1 == b
  {
    match b
    case InfectiousParasitic => assert CategoryTable[0].1 == b;
    case Neoplasms => assert CategoryTable[1].1 == b;
    case BloodImmune => assert CategoryTable[2].1 == b;
    case EndocrineMetabolic => assert CategoryTable[3].1 == b;
    case MentalBehavioral => assert CategoryTable[4].1 == b;
    case NervousSystem => assert CategoryTable[5].1 == b;
    case EyeAdnexa => assert CategoryTable[6].1 == b;
    case EarMastoid => assert CategoryTable[7].1 == b;
    case Circulatory => assert CategoryTable[8].1 == b;
    case Respiratory => assert CategoryTable[9].1 == b;
    case Digestive => assert CategoryTable[10].1 == b;
    case SkinSubcutaneous => assert CategoryTable[11].1 == b;
    case Musculoskeletal => assert CategoryTable[12].1 == b;
    case Genitourinary => assert CategoryTable[13].1 == b;
    case Pregnancy => assert CategoryTable[14].1 == b;
    case Perinatal => assert CategoryTable[15].1 == b;
    case Congenital => assert CategoryTable[16].1 == b;
    case Symptoms => assert CategoryTable[17].1 == b;
    case InjuryPoisoning => assert CategoryTable[18].1 == b;
    case ExternalCauses => assert CategoryTable[19].1 == b;
    case HealthFactors => assert CategoryTable[20].1 == b;
    case SpecialPurposes => assert CategoryTable[21].1 == b;
  }

  /** `.astype(str).map(category_mapping).fillna('Other')` for one title. */
  function Bucket(title: string): string {
    match Lookup(CategoryTable, title)
    case Some(b) => Label(b)
    case None => "Other"
  }

  /** A title the table lists lands in its bucket; any other title, including a
      missing one rendered as "nan", lands in 'Other'. */
  lemma BucketSpec(title: string)
    ensures (exists i :: 0 <= i < |CategoryTable| && CategoryTable[i].0 == title) ==>
              exists b :: Bucket(title) == Label(b) && (title, b) in CategoryTable
    ensures (forall i :: 0 <= i < |CategoryTable| ==> CategoryTable[i].0 != title) ==> Bucket(title) == "Other"
    ensures Bucket("nan") == "Other"
  {
    hide Lookup;
    NanUnlisted();
  }

  /** No chapter title reads "nan". */
  lemma NanUnlisted()
    ensures forall i :: 0 <= i < |CategoryTable| ==> CategoryTable[i].0 != "nan"
  {
    forall i | 0 <= i < |CategoryTable| ensures CategoryTable[i].0 != "nan" {
      assert |CategoryTable[i].0| > 3;
    }
  }

  /** `df['icd_version'] == v`: only a numeric cell equal to `v` qualifies. */
  function VersionMask(df: Table, v: real): (mask: seq<bool>)
    requires WF(df) && "icd_version" in df.names
    ensures |mask| == |df.rows|
    ensures forall i :: 0 <= i < |df.rows| ==> (mask[i] <==> Get(df, i, "icd_version") == Num(v))
  {
    seq(|df.rows|, i requires 0 <= i < |df.rows| => Get(df, i, "icd_version") == Num(v))
  }

  /** `df[df['icd_version'] == v]`: exactly the rows of that version, in order. */
  function VersionRows(df: Table, v: real): (r: Table)
    requires WF(df) && "icd_version" in df.names
    ensures WF(r) && r.names == df.names && r.dtypes == df.dtypes && |r.rows| <= |df.rows|
    ensures forall j :: 0 <= j < |r.rows| ==> Get(r, j, "icd_version") == Num(v) && r.rows[j] in df.rows
    ensures forall i :: 0 <= i < |df.rows| && Get(df, i, "icd_version") == Num(v) ==> df.rows[i] in r.rows
  {
    var mask := VersionMask(df, v);
    var r := FilterRows(df, mask);
    var ks := TrueIndices(mask);
    assert forall j :: 0 <= j < |r.rows| ==> Get(r, j, "icd_version") == Get(df, ks[j], "icd_version");
    assert forall i :: 0 <= i < |df.rows| && mask[i] ==> df.rows[i] in r.rows by {
      forall i | 0 <= i < |df.rows| && mask[i] ensures df.rows[i] in r.rows {
        var j :| 0 <= j < |ks| && ks[j] == i;
        assert r.rows[j] == df.rows[i];
      }
    }
    r
  }

  /** A reference row's code as `astype(str)` writes it. */
  function RefCode(ref9: Table, j: nat, render: Renderer): Cell
    requires WF(ref9) && "icd_code" in ref9.names && j < |ref9.rows|
  {
    Str(AsStr(Get(ref9, j, "icd_code"), DTypeOf(ref9, "icd_code"), render))
  }

  /** The ICD-9 reference with `category_code = icd_code.astype(str)`. */
  function Icd9Reference(ref9: Table, render: Renderer): (r: Result<Table>)
    requires WF(ref9)
    ensures r.Err? <==> "icd_code" !in ref9.names
    ensures r.Err? ==> r.error == KeyError("icd_code")
    ensures r.Ok? ==> WF(r.value) && |r.value.rows| == |ref9.rows| && "category_code" in r.value.names
    ensures r.Ok? ==> forall c :: c in ref9.names ==> c in r.value.names
    ensures r.Ok? ==> forall j :: 0 <= j < |ref9.rows| ==>
              Get(r.value, j, "category_code") == RefCode(ref9, j, render)
    ensures r.Ok? ==> forall j, c :: 0 <= j < |ref9.rows| && c in ref9.names && c != "category_code" ==>
              c in r.value.names && Get(r.value, j, c) == Get(ref9, j, c)
  {
    if "icd_code" !in ref9.names then Err(KeyError("icd_code"))
    else Ok(Assign(ref9, "category_code", Object, AsStrColumn(ref9, "icd_code", render)))
  }

  /** `d['category_code'] = d['icd_code'].str[:3]`, done alike on the ICD-9 and the ICD-10 rows. */
  function CategoryCoded(d: Table): (r: Table)
    requires WF(d) && "icd_code" in d.names
    ensures WF(r) && |r.rows| == |d.rows|
    ensures r.names == d.names + (if "category_code" in d.names then [] else ["category_code"])
    ensures forall i :: 0 <= i < |r.rows| ==> Get(r, i, "category_code") == StrSlice(Get(d, i, "icd_code"), 0, 3)
    ensures forall i, c :: 0 <= i < |r.rows| && c in d.names && c != "category_code" ==> Get(r, i, c) == Get(d, i, c)
  {
    Assign(d, "category_code", Object, StrSliceColumn(Column(d, "icd_code"), 0, 3))
  }

  /** Lines 15, 19-23: the ICD-9 half, joined to the reference on the category code. */
  function Icd9Part(df: Table, ref9: Table, render: Renderer): (r: Result<Table>)
    requires WF(df) && WF(ref9) && "icd_version" in df.names
    ensures "icd_code" !in df.names ==> r == Err(KeyError("icd_code"))
    ensures "icd_code" in df.names && "icd_code" !in ref9.names ==> r == Err(KeyError("icd_code"))
    ensures r.Ok? ==> WF(r.value)
  {
    if "icd_code" !in df.names then Err(KeyError("icd_code"))
    else
      var left := CategoryCoded(VersionRows(df, 9.0));
      var right :- Icd9Reference(ref9, render);
      var merged :- Merge(left, right, "category_code", "", "_icd9");
      Rename(merged, "subcategory", "subcategory_icd9")
  }

  /** `category_code = icd_code.str[:3]`, then `letter_code = category_code.str[0:2]`,
      on the ICD-10 rows: the letter code is the first two characters of the code. */
  function Icd10Rows(d10: Table): (r: Table)
    requires WF(d10) && "icd_code" in d10.names
    ensures WF(r) && |r.rows| == |d10.rows|
    ensures forall c :: c in r.names <==> c in d10.names || c == "category_code" || c == "letter_code"
    ensures forall i :: 0 <= i < |r.rows| ==> Get(r, i, "letter_code") == StrSlice(Get(d10, i, "icd_code"), 0, 2)
    ensures forall i, c :: 0 <= i < |r.rows| && c in d10.names && c != "category_code" && c != "letter_code" ==>
              Get(r, i, c) == Get(d10, i, c)
  {
    hide CategoryCoded; hide Assign; hide StrSliceColumn; hide Column; hide Get; hide StrSlice;
    var d1 := CategoryCoded(d10);
    var d2 := Assign(d1, "letter_code", Object, StrSliceColumn(Column(d1, "category_code"), 0, 2));
    Icd10RowsFacts(d10, d1, d2);
    d2
  }

  /** The two assignments of `Icd10Rows`: the columns they add, the letter code
      they write and the cells they keep. */
  lemma Icd10RowsFacts(d10: Table, d1: Table, d2: Table)
    requires WF(d10) && "icd_code" in d10.names && d1 == CategoryCoded(d10)
    requires d2 == Assign(d1, "letter_code", Object, StrSliceColumn(Column(d1, "category_code"), 0, 2))
    ensures forall c :: c in d2.names <==> c in d10.names || c == "category_code" || c == "letter_code"
    ensures forall i :: 0 <= i < |d2.rows| ==> Get(d2, i, "letter_code") == StrSlice(Get(d10, i, "icd_code"), 0, 2)
    ensures forall i, c :: 0 <= i < |d2.rows| && c in d10.names && c != "category_code" && c != "letter_code" ==>
              Get(d2, i, c) == Get(d10, i, c)
  {
    hide *;
    assert forall i :: 0 <= i < |d2.rows| ==> Get(d2, i, "letter_code") == StrSlice(Get(d10, i, "icd_code"), 0, 2) by {
      SlicedTwice(d10, d1, d2);
    }
    KeptTwice(d10, d1, d2);
  }

  /** Columns other than the two written ones pass through both assignments. */
  lemma KeptTwice(d10: Table, d1: Table, d2: Table)
    requires WF(d10) && WF(d1) && WF(d2) && |d1.rows| == |d10.rows| == |d2.rows|
    requires d1.names == d10.names + (if "category_code" in d10.names then [] else ["category_code"])
    requires d2.names == if "letter_code" in d1.names then d1.names else d1.names + ["letter_code"]
    requires forall i, d :: 0 <= i < |d1.rows| && d in d10.names && d != "category_code" ==> Get(d1, i, d) == Get(d10, i, d)
    requires forall i, d :: 0 <= i < |d2.rows| && d in d1.names && d != "letter_code" ==> Get(d2, i, d) == Get(d1, i, d)
    ensures forall c :: c in d2.names <==> c in d10.names || c == "category_code" || c == "letter_code"
    ensures forall i, c :: 0 <= i < |d2.rows| && c in d10.names && c != "category_code" && c != "letter_code" ==>
              Get(d2, i, c) == Get(d10, i, c)
  {
    assert d1.names == if "category_code" in d10.names then d10.names else d10.names + ["category_code"] by {
      assert d10.names + [] == d10.names;
    }
    forall c ensures c in d2.names <==> c in d10.names || c == "category_code" || c == "letter_code" {
      AssignedTwiceName(d10.names, d1.names, d2.names, "category_code", "letter_code", c);
    }
    forall i, c | 0 <= i < |d2.rows| && c in d10.names && c != "category_code" && c != "letter_code"
      ensures Get(d2, i, c) == Get(d10, i, c)
    {
      assert c in d1.names;
    }
  }

  /** Two characters of the first three are the first two. */
  lemma SlicedTwice(d10: Table, d1: Table, d2: Table)
    requires WF(d10) && WF(d1) && WF(d2) && |d1.rows| == |d10.rows| == |d2.rows|
    requires "icd_code" in d10.names && "category_code" in d1.names && "letter_code" in d2.names
    requires forall i :: 0 <= i < |d1.rows| ==> Get(d1, i, "category_code") == StrSlice(Get(d10, i, "icd_code"), 0, 3)
    requires forall i :: 0 <= i < |d2.rows| ==> Get(d2, i, "letter_code") == StrSlice(Get(d1, i, "category_code"), 0, 2)
    ensures forall i :: 0 <= i < |d2.rows| ==> Get(d2, i, "letter_code") == StrSlice(Get(d10, i, "icd_code"), 0, 2)
  {
    forall i | 0 <= i < |d2.rows| ensures Get(d2, i, "letter_code") == StrSlice(Get(d10, i, "icd_code"), 0, 2) {
      StrSlicePrefix(Get(d10, i, "icd_code"), 3, 2);
    }
  }

  /** The ICD-10 block table with `letter_code = block_code.str[0:2]`. */
  function Icd10Blocks(ref10: Table): (r: Table)
    requires WF(ref10) && "block_code" in ref10.names
    ensures WF(r) && |r.rows| == |ref10.rows|
    ensures r.names == ref10.names + (if "letter_code" in ref10.names then [] else ["letter_code"])
    ensures forall j :: 0 <= j < |r.rows| ==> Get(r, j, "letter_code") == StrSlice(Get(ref10, j, "block_code"), 0, 2)
    ensures forall j, c :: 0 <= j < |r.rows| && c in ref10.names && c != "letter_code" ==> Get(r, j, c) == Get(ref10, j, c)
  {
    Assign(ref10, "letter_code", Object, StrSliceColumn(Column(ref10, "block_code"), 0, 2))
  }

  /** The columns of the block table the join keeps. */
  const LookupColumns: seq<string> := ["category", "block_title", "letter_code"]

  lemma LookupColumnsPresent(names: seq<string>, names': seq<string>)
    requires names' == names + (if "letter_code" in names then [] else ["letter_code"])
    ensures (exists c :: c in LookupColumns && c !in names') <==> "category" !in names || "block_title" !in names
  {
    assert "letter_code" in names';
    assert "category" in names' <==> "category" in names;
    assert "block_title" in names' <==> "block_title" in names;
  }

  /** The block table deduplicated on its prefix and cut to the joined columns. */
  function Icd10Lookup(ref10: Table): (r: Result<Table>)
    requires WF(ref10) && "block_code" in ref10.names
    ensures r.Err? <==> "category" !in ref10.names || "block_title" !in ref10.names
    ensures r.Ok? ==> WF(r.value) && r.value.names == LookupColumns
  {
    hide Icd10Blocks; hide DropDuplicates; hide Select; hide FilterRows; hide Assign; hide Get;
    var blocks := Icd10Blocks(ref10);
    var dd := DropDuplicates(blocks, "letter_code");
    assert Distinct(LookupColumns);
    LookupColumnsPresent(ref10.names, dd.names);
    Select(dd, LookupColumns)
  }

  /** Lines 16, 26-40: the ICD-10 half, joined on the two-character block prefix. */
  function Icd10Part(df: Table, ref10: Table): (r: Result<Table>)
    requires WF(df) && WF(ref10) && "icd_version" in df.names
    ensures "icd_code" !in df.names ==> r == Err(KeyError("icd_code"))
    ensures "icd_code" in df.names && "block_code" !in ref10.names ==> r == Err(KeyError("block_code"))
    ensures r.Ok? ==> WF(r.value)
  {
    if "icd_code" !in df.names then Err(KeyError("icd_code"))
    else if "block_code" !in ref10.names then Err(KeyError("block_code"))
    else
      var left := Icd10Rows(VersionRows(df, 10.0));
      var right :- Icd10Lookup(ref10);
      var merged :- Merge(left, right, "letter_code", "", "_icd10");
      var renamed :- Rename(merged, "block_title", "subcategory_icd10");
      Drop(renamed, ["letter_code"])
  }

  /** `subcategory` as first written: the ICD-9 subcategory, else the ICD-10 one. */
  function MergedSubcategory(all: Table): (r: Table)
    requires WF(all) && "subcategory_icd9" in all.names && "subcategory_icd10" in all.names
    ensures WF(r) && |r.rows| == |all.rows| && "subcategory" in r.names
    ensures r.names == all.names + (if "subcategory" in all.names then [] else ["subcategory"])
    ensures forall i :: 0 <= i < |r.rows| ==>
              Get(r, i, "subcategory") == Coalesce(Get(all, i, "subcategory_icd9"), Get(all, i, "subcategory_icd10"))
    ensures forall c :: c in all.names && c != "subcategory" ==> DTypeOf(r, c) == DTypeOf(all, c)
    ensures forall i, c :: 0 <= i < |r.rows| && c in all.names && c != "subcategory" ==> Get(r, i, c) == Get(all, i, c)
  {
    hide Assign; hide Get; hide WF; hide Coalesce;
    var vals := seq(|all.rows|, i requires 0 <= i < |all.rows| =>
      Coalesce(Get(all, i, "subcategory_icd9"), Get(all, i, "subcategory_icd10")));
    Assign(all, "subcategory", Object, vals)
  }

  /** `category` replaced by the bucket of its text rendering, 'Other' when none. */
  function BucketedCategory(t: Table, render: Renderer): (r: Table)
    requires WF(t) && "category" in t.names
    ensures WF(r) && |r.rows| == |t.rows| && r.names == t.names
    ensures forall i :: 0 <= i < |r.rows| ==>
              Get(r, i, "category") == Str(Bucket(AsStr(Get(t, i, "category"), DTypeOf(t, "category"), render)))
    ensures forall i, c :: 0 <= i < |r.rows| && c in t.names && c != "category" ==> Get(r, i, c) == Get(t, i, c)
  {
    Assign(t, "category", Object,
      seq(|t.rows|, i requires 0 <= i < |t.rows| => Str(Bucket(AsStr(Get(t, i, "category"), DTypeOf(t, "category"), render)))))
  }

  /** `subcategory.fillna('Other')`. */
  function FilledSubcategory(t: Table): (r: Table)
    requires WF(t) && "subcategory" in t.names
    ensures WF(r) && |r.rows| == |t.rows| && r.names == t.names
    ensures forall i :: 0 <= i < |r.rows| ==> Get(r, i, "subcategory") == Coalesce(Get(t, i, "subcategory"), Str("Other"))
    ensures forall i, c :: 0 <= i < |r.rows| && c in t.names && c != "subcategory" ==> Get(r, i, c) == Get(t, i, c)
  {
    Assign(t, "subcategory", Object,
      seq(|t.rows|, i requires 0 <= i < |t.rows| => Coalesce(Get(t, i, "subcategory"), Str("Other"))))
  }

  /** Lines 46, 95 and 97 in order: the coalesced subcategory, the bucketed
      category and the 'Other' fill. */
  function Classify(all: Table, render: Renderer): (r: Table)
    requires WF(all) && "subcategory_icd9" in all.names && "subcategory_icd10" in all.names && "category" in all.names
    ensures WF(r) && |r.rows| == |all.rows| && "subcategory" in r.names
    ensures r.names == all.names + (if "subcategory" in all.names then [] else ["subcategory"])
    ensures forall i :: 0 <= i < |r.rows| ==>
              Get(r, i, "subcategory") ==
                Coalesce(Coalesce(Get(all, i, "subcategory_icd9"), Get(all, i, "subcategory_icd10")), Str("Other"))
    ensures forall i :: 0 <= i < |r.rows| ==>
              Get(r, i, "category") == Str(Bucket(AsStr(Get(all, i, "category"), DTypeOf(all, "category"), render)))
    ensures forall i, c :: 0 <= i < |r.rows| && c in all.names && c != "category" && c != "subcategory" ==>
              Get(r, i, c) == Get(all, i, c)
  {
    hide *;
    var a1 := MergedSubcategory(all);
    var a2 := BucketedCategory(a1, render);
    var a3 := FilledSubcategory(a2);
    ClassifySubcategory(all, render, a1, a2, a3);
    ClassifyCategory(all, render, a1, a2, a3);
    ClassifyKeeps(all, render, a1, a2, a3);
    a3
  }

  /** The subcategory after the three steps of `Classify`. */
  lemma ClassifySubcategory(all: Table, render: Renderer, a1: Table, a2: Table, a3: Table)
    requires WF(all) && "subcategory_icd9" in all.names && "subcategory_icd10" in all.names && "category" in all.names
    requires a1 == MergedSubcategory(all) && "category" in a1.names
    requires a2 == BucketedCategory(a1, render) && "subcategory" in a2.names && a3 == FilledSubcategory(a2)
    ensures forall i :: 0 <= i < |a3.rows| ==>
              Get(a3, i, "subcategory") ==
                Coalesce(Coalesce(Get(all, i, "subcategory_icd9"), Get(all, i, "subcategory_icd10")), Str("Other"))
  {
    hide *;
    forall i | 0 <= i < |a3.rows|
      ensures Get(a3, i, "subcategory") ==
                Coalesce(Coalesce(Get(all, i, "subcategory_icd9"), Get(all, i, "subcategory_icd10")), Str("Other"))
    {
      assert Get(a2, i, "subcategory") == Get(a1, i, "subcategory");
    }
  }

  /** The category after the three steps of `Classify`. */
  lemma ClassifyCategory(all: Table, render: Renderer, a1: Table, a2: Table, a3: Table)
    requires WF(all) && "subcategory_icd9" in all.names && "subcategory_icd10" in all.names && "category" in all.names
    requires a1 == MergedSubcategory(all) && "category" in a1.names
    requires a2 == BucketedCategory(a1, render) && "subcategory" in a2.names && a3 == FilledSubcategory(a2)
    ensures forall i :: 0 <= i < |a3.rows| ==>
              Get(a3, i, "category") == Str(Bucket(AsStr(Get(all, i, "category"), DTypeOf(all, "category"), render)))
  {
    hide *;
    assert DTypeOf(a1, "category") == DTypeOf(all, "category");
    forall i | 0 <= i < |a3.rows|
      ensures Get(a3, i, "category") == Str(Bucket(AsStr(Get(all, i, "category"), DTypeOf(all, "category"), render)))
    {
      assert Get(a3, i, "category") == Get(a2, i, "category");
      assert Get(a1, i, "category") == Get(all, i, "category");
    }
  }

  /** The other columns after the three steps of `Classify`. */
  lemma ClassifyKeeps(all: Table, render: Renderer, a1: Table, a2: Table, a3: Table)
    requires WF(all) && "subcategory_icd9" in all.names && "subcategory_icd10" in all.names && "category" in all.names
    requires a1 == MergedSubcategory(all) && "category" in a1.names
    requires a2 == BucketedCategory(a1, render) && "subcategory" in a2.names && a3 == FilledSubcategory(a2)
    ensures forall i, c :: 0 <= i < |a3.rows| && c in all.names && c != "category" && c != "subcategory" ==>
              Get(a3, i, c) == Get(all, i, c)
  {
    hide *;
    forall i, c | 0 <= i < |a3.rows| && c in all.names && c != "category" && c != "subcategory"
      ensures Get(a3, i, c) == Get(all, i, c)
    {
      assert c in a1.names && c in a2.names;
      assert Get(a3, i, c) == Get(a2, i, c);
      assert Get(a2, i, c) == Get(a1, i, c);
    }
  }

  /** Lines 46-107 on the stacked table: classify, check the categorical
      columns exist, and drop the helper columns. */
  function Finish(all: Table, render: Renderer): (r: Result<Table>)
    requires WF(all)
    ensures "subcategory_icd9" !in all.names ==> r == Err(KeyError("subcategory_icd9"))
    ensures r.Ok? ==> WF(r.value) && |r.value.rows| == |all.rows|
  {
    if "subcategory_icd9" !in all.names then Err(KeyError("subcategory_icd9"))
    else if "subcategory_icd10" !in all.names then Err(KeyError("subcategory_icd10"))
    else if "category" !in all.names then Err(KeyError("category"))
    else
      var t := Classify(all, render);
      if exists c :: c in CategoricalColumns && c !in t.names then
        Err(KeyError(FirstMissing(CategoricalColumns, t.names)))
      else
        Drop(t, DroppedColumns)
  }

  /** Line 43 then the rest: the ICD-9 rows stacked above the ICD-10 rows. */
  function Combine(p9: Table, p10: Table, render: Renderer): (r: Result<Table>)
    requires WF(p9) && WF(p10)
    ensures r.Ok? ==> WF(r.value) && |r.value.rows| == |p9.rows| + |p10.rows|
  {
    Finish(Concat(p9, p10), render)
  }

  /** `preprocess_diagnosis(df, icd9_codes, icd10_codes)`. */
  function PreprocessDiagnosis(df: Table, ref9: Table, ref10: Table, render: Renderer): (r: Result<Table>)
    requires WF(df) && WF(ref9) && WF(ref10)
    ensures "icd_version" !in df.names ==> r == Err(KeyError("icd_version"))
    ensures r.Ok? ==> WF(r.value)
  {
    if "icd_version" !in df.names then Err(KeyError("icd_version"))
    else
      var p9 :- Icd9Part(df, ref9, render);
      var p10 :- Icd10Part(df, ref10);
      Combine(p9, p10, render)
  }

  /** A successful finish ran on a stacked table holding both subcategories and
      the category, and is the drop applied to its classification. */
  lemma FinishIsDrop(all: Table, render: Renderer)
    requires WF(all) && Finish(all, render).Ok?
    ensures "subcategory_icd9" in all.names && "subcategory_icd10" in all.names && "category" in all.names
    ensures Finish(all, render) == Drop(Classify(all, render), DroppedColumns)
  {
  }

  /** The finished table has a row per stacked row, a category and a
      subcategory, and none of the five dropped columns. */
  lemma FinishShape(all: Table, render: Renderer)
    requires WF(all) && Finish(all, render).Ok?
    ensures var out := Finish(all, render).value;
      && |out.rows| == |all.rows|
      && "category" in out.names && "subcategory" in out.names
      && (forall c :: c in DroppedColumns ==> c !in out.names)
      && forall c :: c in all.names && c !in DroppedColumns ==> c in out.names
  {
    hide Finish; hide Classify; hide Drop; hide MergedSubcategory; hide BucketedCategory; hide FilledSubcategory; hide Assign;
    FinishIsDrop(all, render);
    assert "category" !in DroppedColumns && "subcategory" !in DroppedColumns;
  }

  /** The subcategory is the ICD-9 one, else the ICD-10 one, else 'Other', and
      is never missing. */
  lemma FinishSubcategory(all: Table, render: Renderer, i: nat)
    requires WF(all) && Finish(all, render).Ok? && i < |all.rows|
    ensures "subcategory_icd9" in all.names && "subcategory_icd10" in all.names
    ensures var out := Finish(all, render).value;
      && "subcategory" in out.names && i < |out.rows|
      && Get(out, i, "subcategory") ==
           Coalesce(Coalesce(Get(all, i, "subcategory_icd9"), Get(all, i, "subcategory_icd10")), Str("Other"))
      && Get(out, i, "subcategory") != Null
  {
    FinishIsDrop(all, render);
    FinishShape(all, render);
    var t := Classify(all, render);
    assert Get(Drop(t, DroppedColumns).value, i, "subcategory") == Get(t, i, "subcategory");
  }

  /** The category is the bucket of the chapter title's text rendering. */
  lemma FinishCategory(all: Table, render: Renderer, i: nat)
    requires WF(all) && Finish(all, render).Ok? && i < |all.rows|
    ensures "category" in all.names
    ensures var out := Finish(all, render).value;
      && "category" in out.names && i < |out.rows|
      && Get(out, i, "category") == Str(Bucket(AsStr(Get(all, i, "category"), DTypeOf(all, "category"), render)))
  {
    FinishIsDrop(all, render);
    FinishShape(all, render);
    var t := Classify(all, render);
    assert Get(Drop(t, DroppedColumns).value, i, "category") == Get(t, i, "category");
  }

  /** Every other column that is not dropped keeps its cell. */
  lemma FinishKeeps(all: Table, render: Renderer, i: nat, c: string)
    requires WF(all) && Finish(all, render).Ok? && i < |all.rows|
    requires c in all.names && c != "category" && c != "subcategory" && c !in DroppedColumns
    ensures var out := Finish(all, render).value;
      c in out.names && i < |out.rows| && Get(out, i, c) == Get(all, i, c)
  {
    FinishIsDrop(all, render);
    FinishShape(all, render);
    var t := Classify(all, render);
    assert Get(Drop(t, DroppedColumns).value, i, c) == Get(t, i, c);
  }

  /** Once the stacked table has the columns the earlier steps read, the final
      drop fails exactly when one of the five dropped columns is absent. */
  lemma FinishDropFails(all: Table, render: Renderer)
    requires WF(all)
    requires "subcategory_icd9" in all.names && "subcategory_icd10" in all.names && "category" in all.names
    requires "category_code" in all.names && "icd_code" in all.names
    ensures var r := Finish(all, render);
      && (r.Err? <==> exists c :: c in DroppedColumns && c !in all.names)
      && (r.Err? ==> r.error.KeyError? && r.error.column in DroppedColumns && r.error.column !in all.names)
  {
    var t := Classify(all, render);
    assert Finish(all, render) == Drop(t, DroppedColumns) by {
      assert forall c :: c in CategoricalColumns ==> c in t.names;
    }
    DroppedPresence(all.names, t.names);
  }

  lemma DroppedPresence(names: seq<string>, names': seq<string>)
    requires names' == names + (if "subcategory" in names then [] else ["subcategory"])
    ensures forall c :: c in DroppedColumns ==> (c in names' <==> c in names)
  {
    assert "subcategory" !in DroppedColumns;
  }


  /** A successful ICD-9 half is the renamed merge of the coded ICD-9 rows with
      the prepared reference. */
  lemma Icd9PartSteps(df: Table, ref9: Table, render: Renderer)
    requires WF(df) && WF(ref9) && "icd_version" in df.names && Icd9Part(df, ref9, render).Ok?
    ensures "icd_code" in df.names && Icd9Reference(ref9, render).Ok?
    ensures var left, right := CategoryCoded(VersionRows(df, 9.0)), Icd9Reference(ref9, render).value;
      && Merge(left, right, "category_code", "", "_icd9").Ok?
      && Icd9Part(df, ref9, render) == Rename(Merge(left, right, "category_code", "", "_icd9").value, "subcategory", "subcategory_icd9")
  {
  }

  /** Which ICD-9 row each row of the ICD-9 half came from. */
  ghost function Icd9Origin(df: Table, ref9: Table, render: Renderer): (o: seq<nat>)
    requires WF(df) && WF(ref9) && "icd_version" in df.names && Icd9Part(df, ref9, render).Ok?
    ensures |o| == |Icd9Part(df, ref9, render).value.rows| >= |VersionRows(df, 9.0).rows|
    ensures forall k :: 0 <= k < |o| ==> o[k] < |VersionRows(df, 9.0).rows|
  {
    Icd9PartSteps(df, ref9, render);
    MergeOrigin(CategoryCoded(VersionRows(df, 9.0)), Icd9Reference(ref9, render).value, "category_code", "", "_icd9")
  }

  /** The rows of the ICD-9 half follow the order of the ICD-9 rows. */
  lemma Icd9OriginMonotone(df: Table, ref9: Table, render: Renderer)
    requires WF(df) && WF(ref9) && "icd_version" in df.names && Icd9Part(df, ref9, render).Ok?
    ensures var o := Icd9Origin(df, ref9, render);
      forall k, k' :: 0 <= k <= k' < |o| ==> o[k] <= o[k']
  {
    Icd9PartSteps(df, ref9, render);
    hide Icd9Part; hide Merge; hide VersionRows; hide CategoryCoded; hide Icd9Reference; hide Rename;
    MergeOriginMonotone(CategoryCoded(VersionRows(df, 9.0)), Icd9Reference(ref9, render).value, "category_code", "", "_icd9");
  }

  /** Every ICD-9 row is the origin of at least one row of the ICD-9 half. */
  lemma Icd9OriginCovers(df: Table, ref9: Table, render: Renderer)
    requires WF(df) && WF(ref9) && "icd_version" in df.names && Icd9Part(df, ref9, render).Ok?
    ensures var o := Icd9Origin(df, ref9, render);
      forall i :: 0 <= i < |VersionRows(df, 9.0).rows| ==> i in o
  {
    Icd9PartSteps(df, ref9, render);
    hide Icd9Part; hide Merge; hide VersionRows; hide CategoryCoded; hide Icd9Reference; hide Rename;
    MergeOriginCovers(CategoryCoded(VersionRows(df, 9.0)), Icd9Reference(ref9, render).value, "category_code", "", "_icd9");
  }

  /** Every row of the ICD-9 half repeats the input columns of the ICD-9 row it
      came from; in particular its version is 9. */
  lemma Icd9Keeps(df: Table, ref9: Table, render: Renderer, k: nat, c: string)
    requires WF(df) && WF(ref9) && "icd_version" in df.names && Icd9Part(df, ref9, render).Ok?
    requires k < |Icd9Part(df, ref9, render).value.rows|
    requires c in df.names && c != "category_code" && c != "subcategory"
    ensures var out, d9, o := Icd9Part(df, ref9, render).value, VersionRows(df, 9.0), Icd9Origin(df, ref9, render);
      c in out.names && Get(out, k, c) == Get(d9, o[k], c)
    ensures var out := Icd9Part(df, ref9, render).value;
      "icd_version" in out.names && Get(out, k, "icd_version") == Num(9.0)
  {
    hide Icd9Part; hide Merge; hide MergedNames; hide JoinRows; hide VersionRows; hide CategoryCoded; hide Icd9Reference; hide Rename; hide Assign; hide FilterRows; hide TrueIndices;
    Icd9PartSteps(df, ref9, render);
    var d9 := VersionRows(df, 9.0);
    var left, right := CategoryCoded(d9), Icd9Reference(ref9, render).value;
    var merged := Merge(left, right, "category_code", "", "_icd9").value;
    var o := Icd9Origin(df, ref9, render);
    LeftLabelNoSuffix(c, right.names, "category_code");
    LeftLabelNoSuffix("icd_version", right.names, "category_code");
    MergeLeftGet(left, right, "category_code", "", "_icd9", k, c);
    MergeLeftGet(left, right, "category_code", "", "_icd9", k, "icd_version");
    assert Get(left, o[k], "icd_version") == Get(d9, o[k], "icd_version");
  }

  /** Lines 19-23: an ICD-9 row whose first three characters equal no reference
      code rendered as text gets a missing category and subcategory; otherwise
      it gets the category and subcategory of one reference row whose rendered
      code equals those three characters. */
  lemma Icd9Match(df: Table, ref9: Table, render: Renderer, k: nat)
    requires WF(df) && WF(ref9) && "icd_version" in df.names && Icd9Part(df, ref9, render).Ok?
    requires k < |Icd9Part(df, ref9, render).value.rows|
    requires "category" in ref9.names && "subcategory" in ref9.names
    requires "category" !in df.names && "subcategory" !in df.names
    ensures "icd_code" in df.names && "icd_code" in ref9.names
    ensures var out, d9, o := Icd9Part(df, ref9, render).value, VersionRows(df, 9.0), Icd9Origin(df, ref9, render);
      var code := StrSlice(Get(d9, o[k], "icd_code"), 0, 3);
      && "category" in out.names && "subcategory_icd9" in out.names
      && ((forall j :: 0 <= j < |ref9.rows| ==> RefCode(ref9, j, render) != code) ==>
            Get(out, k, "category") == Null && Get(out, k, "subcategory_icd9") == Null)
      && ((exists j :: 0 <= j < |ref9.rows| && RefCode(ref9, j, render) == code) ==>
            exists j :: (0 <= j < |ref9.rows| && RefCode(ref9, j, render) == code &&
                         Get(out, k, "category") == Get(ref9, j, "category") &&
                         Get(out, k, "subcategory_icd9") == Get(ref9, j, "subcategory")))
  {
    hide Icd9Part; hide Icd9Origin; hide VersionRows; hide CategoryCoded; hide Rename; hide Get; hide WF; hide StrSlice; hide RefCode;
    Icd9PartSteps(df, ref9, render);
    var d9 := VersionRows(df, 9.0);
    var left, right := CategoryCoded(d9), Icd9Reference(ref9, render).value;
    var key := "category_code";
    var merged := Merge(left, right, key, "", "_icd9").value;
    var out, o := Icd9Part(df, ref9, render).value, Icd9Origin(df, ref9, render);
    var code := StrSlice(Get(d9, o[k], "icd_code"), 0, 3);
    Icd9MatchSetup(df, ref9, render, k);
    MergeLookup(left, right, key, "", "_icd9", k, "category", "subcategory");
    hide Merge; hide MergeOrigin; hide Icd9Reference;
    if exists j :: 0 <= j < |ref9.rows| && RefCode(ref9, j, render) == code {
      var j :| 0 <= j < |ref9.rows| && RefCode(ref9, j, render) == code;
      Icd9RightRow(ref9, render, j);
      var j' :| 0 <= j' < |right.rows| && Get(right, j', key) == code &&
                Get(merged, k, "category") == Get(right, j', "category") &&
                Get(merged, k, "subcategory") == Get(right, j', "subcategory");
      Icd9RightRow(ref9, render, j');
    } else {
      forall j | 0 <= j < |right.rows| ensures Get(right, j, key) != code {
        Icd9RightRow(ref9, render, j);
      }
    }
  }

  /** The pieces `Icd9Match` joins: the left key of merged row `k` is its code's
      first three characters, and the two reference columns are right-only. */
  lemma Icd9MatchSetup(df: Table, ref9: Table, render: Renderer, k: nat)
    requires WF(df) && WF(ref9) && "icd_version" in df.names && Icd9Part(df, ref9, render).Ok?
    requires k < |Icd9Part(df, ref9, render).value.rows|
    requires "category" in ref9.names && "subcategory" in ref9.names
    requires "category" !in df.names && "subcategory" !in df.names
    ensures "icd_code" in df.names && "icd_code" in ref9.names && Icd9Reference(ref9, render).Ok?
    ensures var d9 := VersionRows(df, 9.0);
      var left, right := CategoryCoded(d9), Icd9Reference(ref9, render).value;
      var o := Icd9Origin(df, ref9, render);
      && Mergeable(left, right, "category_code", "", "_icd9")
      && k < |Merge(left, right, "category_code", "", "_icd9").value.rows|
      && o == MergeOrigin(left, right, "category_code", "", "_icd9")
      && Get(left, o[k], "category_code") == StrSlice(Get(d9, o[k], "icd_code"), 0, 3)
      && "category" in right.names && "category" != "category_code" && "category" !in left.names
      && "subcategory" in right.names && "subcategory" != "category_code" && "subcategory" !in left.names
    ensures var left, right := CategoryCoded(VersionRows(df, 9.0)), Icd9Reference(ref9, render).value;
      var merged, out := Merge(left, right, "category_code", "", "_icd9").value, Icd9Part(df, ref9, render).value;
      && "category" in out.names && "subcategory_icd9" in out.names
      && Get(out, k, "category") == Get(merged, k, "category")
      && Get(out, k, "subcategory_icd9") == Get(merged, k, "subcategory")
  {
    hide Get; hide WF; hide StrSlice; hide RefCode;
    Icd9PartSteps(df, ref9, render);
    var d9 := VersionRows(df, 9.0);
    var left, right := CategoryCoded(d9), Icd9Reference(ref9, render).value;
    Icd9LeftFresh(df, "category");
    Icd9LeftFresh(df, "subcategory");
    hide CategoryCoded; hide VersionRows;
    Icd9MatchRename(left, right, k);
  }

  /** A column the input lacks is not on the left side of the ICD-9 join. */
  lemma Icd9LeftFresh(df: Table, c: string)
    requires WF(df) && "icd_version" in df.names && "icd_code" in df.names
    requires c !in df.names && c != "category_code"
    ensures c !in CategoryCoded(VersionRows(df, 9.0)).names
  {
  }

  /** Line 23: after the join, the rename moves the subcategory and leaves the
      category where it is. */
  lemma Icd9MatchRename(left: Table, right: Table, k: nat)
    requires WF(left) && WF(right) && Mergeable(left, right, "category_code", "", "_icd9")
    requires "category" in right.names && "category" !in left.names
    requires "subcategory" in right.names && "subcategory" !in left.names
    requires k < |Merge(left, right, "category_code", "", "_icd9").value.rows|
    requires Rename(Merge(left, right, "category_code", "", "_icd9").value, "subcategory", "subcategory_icd9").Ok?
    ensures var merged := Merge(left, right, "category_code", "", "_icd9").value;
      var out := Rename(merged, "subcategory", "subcategory_icd9").value;
      && "category" in out.names && "subcategory_icd9" in out.names
      && Get(out, k, "category") == Get(merged, k, "category")
      && Get(out, k, "subcategory_icd9") == Get(merged, k, "subcategory")
  {
    hide Merge; hide RightLabel;
    MergeRightLabel(left, right, "category_code", "", "_icd9", "category");
    MergeRightLabel(left, right, "category_code", "", "_icd9", "subcategory");
    RightLabelFresh("category", left.names, "_icd9");
    RightLabelFresh("subcategory", left.names, "_icd9");
  }

  /** One row of the ICD-9 reference after its key is rendered. */
  lemma Icd9RightRow(ref9: Table, render: Renderer, j: nat)
    requires WF(ref9) && Icd9Reference(ref9, render).Ok? && "category" in ref9.names && "subcategory" in ref9.names
    requires j < |ref9.rows|
    ensures var right := Icd9Reference(ref9, render).value;
      && |right.rows| == |ref9.rows|
      && Get(right, j, "category_code") == RefCode(ref9, j, render)
      && Get(right, j, "category") == Get(ref9, j, "category")
      && Get(right, j, "subcategory") == Get(ref9, j, "subcategory")
  {
  }

  /** The two-character prefixes of the block codes, in reference order. */
  function BlockPrefixes(ref10: Table): (bp: seq<Cell>)
    requires WF(ref10) && "block_code" in ref10.names
    ensures |bp| == |ref10.rows|
    ensures forall j :: 0 <= j < |bp| ==> bp[j] == StrSlice(Get(ref10, j, "block_code"), 0, 2)
  {
    StrSliceColumn(Column(ref10, "block_code"), 0, 2)
  }

  /** One row of the deduplicated block table is the first block row with its prefix. */
  lemma Icd10LookupRow(ref10: Table, j: nat)
    requires WF(ref10) && "block_code" in ref10.names && Icd10Lookup(ref10).Ok?
    requires j < |Icd10Lookup(ref10).value.rows|
    ensures var lookup, bp := Icd10Lookup(ref10).value, BlockPrefixes(ref10);
      var v := Get(lookup, j, "letter_code");
      && v in bp
      && Get(lookup, j, "category") == Get(ref10, IndexOf(bp, v), "category")
      && Get(lookup, j, "block_title") == Get(ref10, IndexOf(bp, v), "block_title")
  {
    hide Icd10Blocks; hide DropDuplicates; hide Assign; hide TrueIndices; hide FilterRows;
    var blocks := Icd10Blocks(ref10);
    var dd := DropDuplicates(blocks, "letter_code");
    var lookup := Icd10Lookup(ref10).value;
    var bp := BlockPrefixes(ref10);
    assert Column(blocks, "letter_code") == bp;
    assert "category" in LookupColumns && "block_title" in LookupColumns && "letter_code" in LookupColumns;
    assert Get(lookup, j, "letter_code") == Get(dd, j, "letter_code");
    DropDuplicatesRow(blocks, "letter_code", j);
    var p := IndexOf(bp, Get(dd, j, "letter_code"));
    assert dd.rows[j] == blocks.rows[p];
    assert Get(lookup, j, "category") == Get(dd, j, "category") == Get(blocks, p, "category");
    assert Get(lookup, j, "block_title") == Get(dd, j, "block_title") == Get(blocks, p, "block_title");
  }

  /** The deduplicated block table has one row per block prefix: its prefixes
      are distinct and every prefix of the reference occurs. */
  lemma Icd10LookupKeys(ref10: Table)
    requires WF(ref10) && "block_code" in ref10.names && Icd10Lookup(ref10).Ok?
    ensures var lookup, bp := Icd10Lookup(ref10).value, BlockPrefixes(ref10);
      && (forall j, j' :: 0 <= j < j' < |lookup.rows| ==> Get(lookup, j, "letter_code") != Get(lookup, j', "letter_code"))
      && (forall v :: v in bp ==> exists j :: 0 <= j < |lookup.rows| && Get(lookup, j, "letter_code") == v)
  {
    hide Icd10Blocks; hide DropDuplicates; hide Select; hide FilterRows; hide Assign; hide Get;
    var blocks := Icd10Blocks(ref10);
    var dd := DropDuplicates(blocks, "letter_code");
    var lookup := Icd10Lookup(ref10).value;
    var bp := BlockPrefixes(ref10);
    assert Column(blocks, "letter_code") == bp;
    assert "letter_code" in LookupColumns;
    assert forall j :: 0 <= j < |lookup.rows| ==> Get(lookup, j, "letter_code") == Get(dd, j, "letter_code");
    DropDuplicatesUnique(blocks, "letter_code");
    forall v | v in bp ensures exists j :: 0 <= j < |lookup.rows| && Get(lookup, j, "letter_code") == v {
      DropDuplicatesHasKey(blocks, "letter_code", v);
    }
  }

  /** Against the deduplicated block table every row matches at most one block. */
  lemma Icd10SingleMatch(left: Table, ref10: Table)
    requires WF(left) && WF(ref10) && "block_code" in ref10.names && Icd10Lookup(ref10).Ok?
    requires "letter_code" in left.names
    ensures var right := Icd10Lookup(ref10).value;
      forall i :: 0 <= i < |left.rows| ==>
        |Matches(right.rows, IndexOf(right.names, "letter_code"), Get(left, i, "letter_code"))| <= 1
  {
    hide Icd10Lookup; hide Icd10Blocks; hide DropDuplicates; hide Select; hide Matches; hide TrueIndices; hide Assign;
    var right := Icd10Lookup(ref10).value;
    var rkey := IndexOf(right.names, "letter_code");
    Icd10LookupKeys(ref10);
    assert forall j :: 0 <= j < |right.rows| ==> right.rows[j][rkey] == Get(right, j, "letter_code");
    forall i | 0 <= i < |left.rows| ensures |Matches(right.rows, rkey, Get(left, i, "letter_code"))| <= 1 {
      MatchesAtMostOne(right.rows, rkey, Get(left, i, "letter_code"));
    }
  }

  /** A successful ICD-10 half is the merge, rename and drop of lines 33-40. */
  lemma Icd10PartSteps(df: Table, ref10: Table)
    requires WF(df) && WF(ref10) && "icd_version" in df.names && Icd10Part(df, ref10).Ok?
    ensures "icd_code" in df.names && "block_code" in ref10.names && Icd10Lookup(ref10).Ok?
    ensures var left, right := Icd10Rows(VersionRows(df, 10.0)), Icd10Lookup(ref10).value;
      && Merge(left, right, "letter_code", "", "_icd10").Ok?
      && Rename(Merge(left, right, "letter_code", "", "_icd10").value, "block_title", "subcategory_icd10").Ok?
      && Icd10Part(df, ref10) ==
           Drop(Rename(Merge(left, right, "letter_code", "", "_icd10").value, "block_title", "subcategory_icd10").value, ["letter_code"])
  {
  }

  /** Each ICD-10 row yields exactly one row of the ICD-10 half. */
  lemma Icd10RowCount(df: Table, ref10: Table)
    requires WF(df) && WF(ref10) && "icd_version" in df.names && Icd10Part(df, ref10).Ok?
    ensures |Icd10Part(df, ref10).value.rows| == |VersionRows(df, 10.0).rows|
  {
    Icd10PartSteps(df, ref10);
    var left, right := Icd10Rows(VersionRows(df, 10.0)), Icd10Lookup(ref10).value;
    Icd10SingleMatch(left, ref10);
    MergeRowsSingle(left, right, "letter_code", "", "_icd10");
  }

  /** The join of lines 33-36 against the deduplicated block table: each row
      gets the category and title of the first block with its prefix, or
      missing values when no block has it. */
  lemma Icd10JoinLookup(left: Table, ref10: Table, k: nat)
    requires WF(left) && WF(ref10) && "block_code" in ref10.names && Icd10Lookup(ref10).Ok?
    requires "letter_code" in left.names && "category" !in left.names && "block_title" !in left.names
    requires Merge(left, Icd10Lookup(ref10).value, "letter_code", "", "_icd10").Ok? && k < |left.rows|
    ensures var merged, bp := Merge(left, Icd10Lookup(ref10).value, "letter_code", "", "_icd10").value, BlockPrefixes(ref10);
      var pre := Get(left, k, "letter_code");
      && |merged.rows| == |left.rows|
      && "category" in merged.names && "block_title" in merged.names
      && (pre !in bp ==> Get(merged, k, "category") == Null && Get(merged, k, "block_title") == Null)
      && (pre in bp ==> Get(merged, k, "category") == Get(ref10, IndexOf(bp, pre), "category") &&
                        Get(merged, k, "block_title") == Get(ref10, IndexOf(bp, pre), "block_title"))
  {
    var right := Icd10Lookup(ref10).value;
    var key := "letter_code";
    var bp := BlockPrefixes(ref10);
    var pre := Get(left, k, key);
    Icd10LookupKeys(ref10);
    MergeUniqueLookup(left, right, key, "", "_icd10", k, "category");
    MergeUniqueLookup(left, right, key, "", "_icd10", k, "block_title");
    if pre in bp {
      var j :| 0 <= j < |right.rows| && Get(right, j, key) == pre;
      Icd10LookupRow(ref10, j);
    } else {
      forall j | 0 <= j < |right.rows| ensures Get(right, j, key) != pre {
        Icd10LookupRow(ref10, j);
      }
    }
  }

  /** Lines 26-37: the ICD-10 half has exactly one row per ICD-10 row, in order,
      and each gets the category and block title of the first reference block
      whose two-character prefix equals the first two characters of its code,
      or missing values when no block has that prefix. */
  lemma Icd10Match(df: Table, ref10: Table, k: nat)
    requires WF(df) && WF(ref10) && "icd_version" in df.names && Icd10Part(df, ref10).Ok?
    requires "category" !in df.names && "block_title" !in df.names
    requires k < |VersionRows(df, 10.0).rows|
    ensures "icd_code" in df.names && "block_code" in ref10.names
    ensures |Icd10Part(df, ref10).value.rows| == |VersionRows(df, 10.0).rows|
    ensures var out, bp := Icd10Part(df, ref10).value, BlockPrefixes(ref10);
      var pre := StrSlice(Get(VersionRows(df, 10.0), k, "icd_code"), 0, 2);
      && "category" in out.names && "subcategory_icd10" in out.names
      && (pre !in bp ==> Get(out, k, "category") == Null && Get(out, k, "subcategory_icd10") == Null)
      && (pre in bp ==> Get(out, k, "category") == Get(ref10, IndexOf(bp, pre), "category") &&
                        Get(out, k, "subcategory_icd10") == Get(ref10, IndexOf(bp, pre), "block_title"))
  {
    hide Get; hide WF; hide StrSlice;
    Icd10PartSteps(df, ref10);
    Icd10RowCount(df, ref10);
    var d10 := VersionRows(df, 10.0);
    var left := Icd10Rows(d10);
    var merged := Merge(left, Icd10Lookup(ref10).value, "letter_code", "", "_icd10").value;
    assert Get(left, k, "letter_code") == StrSlice(Get(d10, k, "icd_code"), 0, 2);
    Icd10LeftFresh(df, "category");
    Icd10LeftFresh(df, "block_title");
    hide Icd10Part; hide Icd10Rows; hide VersionRows;
    Icd10JoinLookup(left, ref10, k);
    hide Merge; hide Icd10Lookup;
    Icd10TailKeeps(merged, k, "category");
    Icd10TailTitle(merged, k);
  }

  /** A column the input lacks is not on the left side of the ICD-10 join, which
      does hold the letter code. */
  lemma Icd10LeftFresh(df: Table, c: string)
    requires WF(df) && "icd_version" in df.names && "icd_code" in df.names
    requires c !in df.names && c != "category_code" && c != "letter_code"
    ensures "letter_code" in Icd10Rows(VersionRows(df, 10.0)).names
    ensures c !in Icd10Rows(VersionRows(df, 10.0)).names
  {
  }

  /** The join of lines 33-36 leaves each row's own cells in place. */
  lemma Icd10JoinKeeps(left: Table, ref10: Table, k: nat, c: string)
    requires WF(left) && WF(ref10) && "block_code" in ref10.names && Icd10Lookup(ref10).Ok?
    requires "letter_code" in left.names
    requires Merge(left, Icd10Lookup(ref10).value, "letter_code", "", "_icd10").Ok? && k < |left.rows|
    requires c in left.names
    ensures var merged := Merge(left, Icd10Lookup(ref10).value, "letter_code", "", "_icd10").value;
      |merged.rows| == |left.rows| && c in merged.names && Get(merged, k, c) == Get(left, k, c)
  {
    var right := Icd10Lookup(ref10).value;
    LeftLabelNoSuffix(c, right.names, "letter_code");
    Icd10SingleMatch(left, ref10);
    hide Icd10Lookup; hide Matches; hide LeftLabel;
    MergeLeftGetSingle(left, right, "letter_code", "", "_icd10", k, c);
  }

  /** Lines 26-40: each ICD-10 row keeps its input columns and version 10. */
  lemma Icd10Keeps(df: Table, ref10: Table, k: nat, c: string)
    requires WF(df) && WF(ref10) && "icd_version" in df.names && Icd10Part(df, ref10).Ok?
    requires k < |VersionRows(df, 10.0).rows|
    requires c in df.names && c != "category_code" && c != "letter_code" && c != "block_title"
    ensures |Icd10Part(df, ref10).value.rows| == |VersionRows(df, 10.0).rows|
    ensures var out := Icd10Part(df, ref10).value;
      && c in out.names && Get(out, k, c) == Get(VersionRows(df, 10.0), k, c)
      && "icd_version" in out.names && Get(out, k, "icd_version") == Num(10.0)
  {
    Icd10PartSteps(df, ref10);
    Icd10RowCount(df, ref10);
    var d10 := VersionRows(df, 10.0);
    var left := Icd10Rows(d10);
    var merged := Merge(left, Icd10Lookup(ref10).value, "letter_code", "", "_icd10").value;
    assert Get(left, k, c) == Get(d10, k, c);
    assert Get(left, k, "icd_version") == Get(d10, k, "icd_version") == Num(10.0);
    hide Icd10Part; hide Icd10Rows; hide VersionRows;
    Icd10JoinKeeps(left, ref10, k, c);
    Icd10JoinKeeps(left, ref10, k, "icd_version");
    hide Merge; hide Icd10Lookup;
    Icd10TailKeeps(merged, k, c);
    Icd10TailKeeps(merged, k, "icd_version");
  }

  /** Lines 37-38: renaming the block title and dropping the letter code leave
      every other column's cell of a row in place. */
  lemma Icd10TailKeeps(merged: Table, k: nat, c: string)
    requires WF(merged) && "letter_code" in merged.names && k < |merged.rows|
    requires Rename(merged, "block_title", "subcategory_icd10").Ok?
    requires c in merged.names && c != "letter_code" && c != "block_title"
    ensures var renamed := Rename(merged, "block_title", "subcategory_icd10").value;
      && Drop(renamed, ["letter_code"]).Ok?
      && var out := Drop(renamed, ["letter_code"]).value;
      && |out.rows| == |merged.rows| && c in out.names && Get(out, k, c) == Get(merged, k, c)
  {
    var renamed := Rename(merged, "block_title", "subcategory_icd10").value;
    assert "letter_code" in renamed.names && c in renamed.names;
    assert Get(renamed, k, c) == Get(merged, k, c);
  }

  /** Lines 37-38: the block title reaches the result as the ICD-10 subcategory. */
  lemma Icd10TailTitle(merged: Table, k: nat)
    requires WF(merged) && "letter_code" in merged.names && "block_title" in merged.names && k < |merged.rows|
    requires Rename(merged, "block_title", "subcategory_icd10").Ok?
    ensures var renamed := Rename(merged, "block_title", "subcategory_icd10").value;
      && Drop(renamed, ["letter_code"]).Ok?
      && var out := Drop(renamed, ["letter_code"]).value;
      && "subcategory_icd10" in out.names && Get(out, k, "subcategory_icd10") == Get(merged, k, "block_title")
  {
    var renamed := Rename(merged, "block_title", "subcategory_icd10").value;
    assert "letter_code" in renamed.names && "subcategory_icd10" in renamed.names;
    assert Get(renamed, k, "subcategory_icd10") == Get(merged, k, "block_title");
  }

  /** Two ICD-10 codes sharing their first two characters get the same category
      and the same ICD-10 subcategory. */
  lemma Icd10SamePrefix(df: Table, ref10: Table, k: nat, k': nat)
    requires WF(df) && WF(ref10) && "icd_version" in df.names && Icd10Part(df, ref10).Ok?
    requires "category" !in df.names && "block_title" !in df.names
    requires "icd_code" in df.names && k < |VersionRows(df, 10.0).rows| && k' < |VersionRows(df, 10.0).rows|
    requires StrSlice(Get(VersionRows(df, 10.0), k, "icd_code"), 0, 2) == StrSlice(Get(VersionRows(df, 10.0), k', "icd_code"), 0, 2)
    ensures |Icd10Part(df, ref10).value.rows| == |VersionRows(df, 10.0).rows|
    ensures var out := Icd10Part(df, ref10).value;
      && "category" in out.names && "subcategory_icd10" in out.names
      && Get(out, k, "category") == Get(out, k', "category")
      && Get(out, k, "subcategory_icd10") == Get(out, k', "subcategory_icd10")
  {
    Icd10Match(df, ref10, k);
    Icd10Match(df, ref10, k');
  }

  /** A successful run is the finish of the stacked ICD-9 and ICD-10 halves. */
  lemma PreprocessDiagnosisSteps(df: Table, ref9: Table, ref10: Table, render: Renderer)
    requires WF(df) && WF(ref9) && WF(ref10) && PreprocessDiagnosis(df, ref9, ref10, render).Ok?
    ensures "icd_version" in df.names && Icd9Part(df, ref9, render).Ok? && Icd10Part(df, ref10).Ok?
    ensures PreprocessDiagnosis(df, ref9, ref10, render) ==
              Finish(Concat(Icd9Part(df, ref9, render).value, Icd10Part(df, ref10).value), render)
  {
  }

  /** The ICD-9 half keeps the version column. */
  lemma Icd9Names(df: Table, ref9: Table, render: Renderer)
    requires WF(df) && WF(ref9) && "icd_version" in df.names && Icd9Part(df, ref9, render).Ok?
    ensures "icd_version" in Icd9Part(df, ref9, render).value.names
  {
    hide Icd9Part; hide Merge; hide MergedNames; hide JoinRows; hide VersionRows; hide CategoryCoded; hide Icd9Reference; hide Rename; hide Assign; hide FilterRows; hide TrueIndices;
    Icd9PartSteps(df, ref9, render);
    var left, right := CategoryCoded(VersionRows(df, 9.0)), Icd9Reference(ref9, render).value;
    LeftLabelNoSuffix("icd_version", right.names, "category_code");
    MergeLeftName(left, right, "category_code", "", "_icd9", "icd_version");
  }

  /** The ICD-10 half keeps the version column. */
  lemma Icd10Names(df: Table, ref10: Table)
    requires WF(df) && WF(ref10) && "icd_version" in df.names && Icd10Part(df, ref10).Ok?
    ensures "icd_version" in Icd10Part(df, ref10).value.names
  {
    hide Icd10Part; hide Merge; hide MergedNames; hide JoinRows; hide VersionRows; hide Icd10Rows; hide Icd10Lookup; hide Icd10Blocks; hide Rename; hide Drop; hide Assign; hide FilterRows; hide TrueIndices; hide DropDuplicates; hide Select;
    Icd10PartSteps(df, ref10);
    var left, right := Icd10Rows(VersionRows(df, 10.0)), Icd10Lookup(ref10).value;
    LeftLabelNoSuffix("icd_version", right.names, "letter_code");
    MergeLeftName(left, right, "letter_code", "", "_icd10", "icd_version");
    var merged := Merge(left, right, "letter_code", "", "_icd10").value;
    assert "icd_version" in merged.names;
    var renamed := Rename(merged, "block_title", "subcategory_icd10").value;
    assert "icd_version" in renamed.names;
  }

  /** Number of rows of the ICD-9 half: at least one per ICD-9 row. */
  ghost function Icd9Count(df: Table, ref9: Table, render: Renderer): (n: nat)
    requires WF(df) && WF(ref9) && "icd_version" in df.names && Icd9Part(df, ref9, render).Ok?
    ensures n == |Icd9Part(df, ref9, render).value.rows| >= |VersionRows(df, 9.0).rows|
  {
    var o := Icd9Origin(df, ref9, render);
    |o|
  }

  /** Finishing the stack of two halves keeps a row per stacked row and the version column. */
  lemma StackShape(p9: Table, p10: Table, render: Renderer)
    requires WF(p9) && WF(p10) && Finish(Concat(p9, p10), render).Ok? && "icd_version" in p9.names
    ensures var out := Finish(Concat(p9, p10), render).value;
      |out.rows| == |p9.rows| + |p10.rows| && "icd_version" in out.names
  {
    hide *;
    VersionKept();
    FinishShape(Concat(p9, p10), render);
  }

  /** The finish neither rewrites nor drops the version column. */
  lemma VersionKept()
    ensures "icd_version" != "category" && "icd_version" != "subcategory" && "icd_version" !in DroppedColumns
  {
  }

  /** The version of a finished stacked row is the one of the half it came from. */
  lemma StackVersion(p9: Table, p10: Table, render: Renderer, i: nat)
    requires WF(p9) && WF(p10) && Finish(Concat(p9, p10), render).Ok?
    requires "icd_version" in p9.names && "icd_version" in p10.names && i < |p9.rows| + |p10.rows|
    ensures var out := Finish(Concat(p9, p10), render).value;
      "icd_version" in out.names &&
      Get(out, i, "icd_version") == if i < |p9.rows| then Get(p9, i, "icd_version") else Get(p10, i - |p9.rows|, "icd_version")
  {
    hide *;
    VersionKept();
    ConcatColumnAt(p9, p10, i, "icd_version");
    FinishKeeps(Concat(p9, p10), render, i, "icd_version");
  }

  /** The final table has one row per stacked row, and the version column. */
  lemma DiagnosisShape(df: Table, ref9: Table, ref10: Table, render: Renderer)
    requires WF(df) && WF(ref9) && WF(ref10) && PreprocessDiagnosis(df, ref9, ref10, render).Ok?
    ensures "icd_version" in df.names && Icd9Part(df, ref9, render).Ok?
    ensures var out := PreprocessDiagnosis(df, ref9, ref10, render).value;
      && "icd_version" in out.names
      && |out.rows| == Icd9Count(df, ref9, render) + |VersionRows(df, 10.0).rows|
  {
    hide *;
    PreprocessDiagnosisSteps(df, ref9, ref10, render);
    Icd10RowCount(df, ref10);
    Icd9Names(df, ref9, render);
    StackShape(Icd9Part(df, ref9, render).value, Icd10Part(df, ref10).value, render);
  }

  /** The version of one output row: 9 in the first `Icd9Count` rows, 10 below. */
  lemma DiagnosisVersionAt(df: Table, ref9: Table, ref10: Table, render: Renderer, i: nat)
    requires WF(df) && WF(ref9) && WF(ref10) && PreprocessDiagnosis(df, ref9, ref10, render).Ok?
    requires i < |PreprocessDiagnosis(df, ref9, ref10, render).value.rows|
    ensures "icd_version" in df.names && Icd9Part(df, ref9, render).Ok?
    ensures var out := PreprocessDiagnosis(df, ref9, ref10, render).value;
      "icd_version" in out.names &&
      Get(out, i, "icd_version") == if i < Icd9Count(df, ref9, render) then Num(9.0) else Num(10.0)
  {
    hide *;
    PreprocessDiagnosisSteps(df, ref9, ref10, render);
    var p9, p10 := Icd9Part(df, ref9, render).value, Icd10Part(df, ref10).value;
    Icd10RowCount(df, ref10);
    Icd9Names(df, ref9, render);
    Icd10Names(df, ref10);
    StackVersion(p9, p10, render, i);
    if i < |p9.rows| {
      Icd9Keeps(df, ref9, render, i, "icd_version");
    } else {
      Icd10Keeps(df, ref10, i - |p9.rows|, "icd_version");
    }
  }

  /** Lines 15-16 and 43: only ICD-9 and ICD-10 rows reach the output, every
      ICD-9 row at least once and every ICD-10 row exactly once, all ICD-9 rows
      before all ICD-10 rows. */
  lemma DiagnosisVersions(df: Table, ref9: Table, ref10: Table, render: Renderer)
    requires WF(df) && WF(ref9) && WF(ref10) && PreprocessDiagnosis(df, ref9, ref10, render).Ok?
    ensures "icd_version" in df.names && Icd9Part(df, ref9, render).Ok?
    ensures var out, n9 := PreprocessDiagnosis(df, ref9, ref10, render).value, Icd9Count(df, ref9, render);
      && |VersionRows(df, 9.0).rows| <= n9
      && |out.rows| == n9 + |VersionRows(df, 10.0).rows|
      && "icd_version" in out.names
      && forall i :: 0 <= i < |out.rows| ==> Get(out, i, "icd_version") == if i < n9 then Num(9.0) else Num(10.0)
  {
    DiagnosisShape(df, ref9, ref10, render);
    var out := PreprocessDiagnosis(df, ref9, ref10, render).value;
    forall i | 0 <= i < |out.rows|
      ensures Get(out, i, "icd_version") == if i < Icd9Count(df, ref9, render) then Num(9.0) else Num(10.0)
    {
      DiagnosisVersionAt(df, ref9, ref10, render, i);
    }
  }

  /** Lines 46 and 95-97: every output row has a subcategory, and a category
      that is one of the 22 bucket labels or 'Other', obtained from the chapter
      title of the stacked row. */
  lemma DiagnosisClassified(df: Table, ref9: Table, ref10: Table, render: Renderer, i: nat)
    requires WF(df) && WF(ref9) && WF(ref10) && PreprocessDiagnosis(df, ref9, ref10, render).Ok?
    requires i < |PreprocessDiagnosis(df, ref9, ref10, render).value.rows|
    ensures var out := PreprocessDiagnosis(df, ref9, ref10, render).value;
      && "category" in out.names && "subcategory" in out.names
      && Get(out, i, "subcategory") != Null
      && (Get(out, i, "category") == Str("Other") || exists b :: Get(out, i, "category") == Str(Label(b)))
      && forall c :: c in DroppedColumns ==> c !in out.names
  {
    hide *;
    PreprocessDiagnosisSteps(df, ref9, ref10, render);
    var all := Concat(Icd9Part(df, ref9, render).value, Icd10Part(df, ref10).value);
    FinishShape(all, render);
    FinishSubcategory(all, render, i);
    FinishCategory(all, render, i);
    BucketRange(AsStr(Get(all, i, "category"), DTypeOf(all, "category"), render));
  }

  /** Every title lands in one of the 22 buckets or in 'Other'. */
  lemma BucketRange(title: string)
    ensures Bucket(title) == "Other" || exists b :: Bucket(title) == Label(b)
  {
    match Lookup(CategoryTable, title)
    case Some(b) => assert Bucket(title) == Label(b);
    case None =>
  }
}
