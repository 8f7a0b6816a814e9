# Clinical-table preprocessing, modelled in Dafny

This project models the table transformations a MIMIC-IV preprocessing
pipeline applies to its clinical tables, and proves what they guarantee.
The pipeline is written in Python over pandas data frames. The modelled parts are:

- **Diagnosis classification.** There are two variants.
  - `preprocess_diagnosis` splits the diagnoses by ICD version. It left-joins ICD-9 codes on their
    three-character prefix and ICD-10 codes on a two-character block prefix of a deduplicated
    block table. It stacks the halves and maps chapter titles to 22 coarse buckets or 'Other'.
  - `DiagnosisPreprocessor.preprocess` keeps the ICD-10 rows only, joins them on the first letter
    without deduplication, and maps to a 12-entry table.
- **Vital-sign cleaning.** Six vitals are range-checked in place (an out-of-range value becomes
  missing), rows missing a vital are dropped, and `pain` is forward-filled.
- **Admissions and ED stays.** Timestamp parsing with coercion, length of stay in hours, race
  bucketing through `race_mapping`, the category casts, the `admit_provider_id` drop and the
  `is_dead` / `admitted` flags.
- **The `Utils` helpers.** These are `convert_to_datetime`, `compute_length_of_stay`, `map_to_group`
  and `filter_outliers` (IQR filtering), plus the `PreprocessMIMIC` variants: strict parsing that
  skips absent columns, and clamping to the IQR band instead of filtering.
- **`nunique_per_cat`.**

A data frame is a `Frames.Table`: a list of distinct column labels, a dtype per column, and rows of
cells (`Null` for NaN/NaT/None, numbers as `real`, strings, timestamps as whole seconds, booleans).
The pandas operations the pipeline calls are modelled once in module `Frames`:

- `df[c] = …` (`Assign`)
- `drop`, column selection, `rename`, boolean masks, `dropna`
- `merge(how='left')`, including suffixes and the rule that missing keys match missing keys
- `concat`, `drop_duplicates`
- `.str[…]`, `astype(str)`, `fillna`

An exception the pipeline can raise is a value: `Result.Err(e)` for a function that returns a
frame, and `Outcome(frame, Some(e))` for a step that changes the caller's frame in place and then
stops. Code that changes the caller's frame in place is a method on a `Frames.Frame` object. Each
such method is proved to leave exactly the state a specification function computes. The properties
are proved about those functions.

Several source files repeat the same code. Each such piece is modelled once:

- the two `Utils` classes (`src/preprocessing/utils.py` and `src/utils/utils.py`);
- the two `PreprocessMIMIC` classes (`src/preprocess.py` and `preprocess.py`);
- `preprocess_admissions` and `AdmissionsPreprocessor.preprocess`;
- `preprocess_vitalsigns` and `VitalSignsPreprocessor.preprocess`.

The table cites one copy; the module comments name the others.

Three facts about the code shape the model:

- The diagnosis category table maps its 39 written entries (38 distinct titles, 'Neoplasms' twice) to
  **22** buckets (`Diagnosis.CategoryTableOnto`).
- `EDStayPreprocessor.preprocess` adds no `admitted` column; only `preprocess_ed_stay` does.
- `PreprocessMIMIC.convert_to_datetime` does not coerce, so an unparseable value raises.

## Model

| member | source | states |
|---|---|---|
| Frames.FilterRows | src/preprocessing/utils.py:115-116 | `df[mask]` keeps exactly the rows where the mask holds, in their order, with the same columns |
| Frames.Assign | src/preprocessing/admissions_preprocessor.py:29 | `df[c] = vals` overwrites or appends column `c` with `vals` and its dtype; every other column keeps its cells and dtype; the row count is unchanged |
| Frames.Frame.SetColumn | src/preprocessing/utils.py:95 | the in-place `df[c] = vals` leaves the caller's frame equal to `Assign` of its old contents |
| Frames.NotNA | src/preprocessing/admissions_preprocessor.py:29 | `notna()` is true exactly where the cell is present |
| Frames.Drop | src/preprocessing/admissions_preprocessor.py:27 | `drop(columns=…)` raises KeyError exactly when a listed label is absent, naming one; otherwise it removes exactly the listed columns and keeps every other cell and dtype |
| Frames.Select | src/preprocessing/preprocessing_functions.py:33 | `df[cols]` raises KeyError exactly when a label is absent; otherwise it gives the listed columns in the listed order, cells unchanged |
| Frames.Rename | src/preprocessing/preprocessing_functions.py:23 | renaming an absent label changes nothing; renaming onto an existing label is refused; otherwise the column is moved to the new label, and rows and other columns are unchanged |
| Frames.Concat | src/preprocessing/preprocessing_functions.py:43 | `concat` stacks the rows of the first frame over those of the second, over the union of the labels (first frame's order, then the new ones) |
| Frames.ConcatColumnAt | src/preprocessing/preprocessing_functions.py:43 | a column both frames have reads from the first frame in its rows and from the second below |
| Frames.ConcatGetFirst | src/preprocessing/preprocessing_functions.py:43 | a row of the first frame keeps its cells; columns only the second frame has are missing there |
| Frames.ConcatGetSecond | src/preprocessing/preprocessing_functions.py:43 | a row of the second frame keeps its cells; columns only the first frame has are missing there |
| Frames.DropDuplicatesUnique | src/preprocessing/preprocessing_functions.py:31 | after `drop_duplicates(subset=[c])` each key occurs once |
| Frames.DropDuplicatesKeepsFirst | src/preprocessing/preprocessing_functions.py:31 | `drop_duplicates` keeps, for every key, the first input row carrying it, and only input rows |
| Frames.DropDuplicatesRow | src/preprocessing/preprocessing_functions.py:31 | each kept row is the first input row with its key |
| Frames.DropDuplicatesHasKey | src/preprocessing/preprocessing_functions.py:31 | every key of the input survives `drop_duplicates` |
| Frames.DropNA | src/preprocessing/vitalsigns_preprocessor.py:34 | `dropna(subset=cols)` keeps exactly the rows with no missing value in `cols`, in order, unchanged |
| Frames.Merge | src/preprocessing/preprocessing_functions.py:22 | a left merge raises KeyError when either side lacks the key and MergeError when suffixes leave duplicate labels; otherwise its labels are the merged labels and its rows the left join (the row contents are stated by MergeLeftGet, MergeLookup and MergeRightCell, the row order by MergeOriginMonotone, MergeOriginCovers and MergeOriginCount) |
| Frames.MergeOrigin | src/preprocessing/preprocessing_functions.py:22 | every output row of a left merge has an origin among the left rows, and there are at least as many output rows as left rows |
| Frames.MergeOriginMonotone | src/preprocessing/preprocessing_functions.py:22 | the output rows of a left merge follow the order of the left rows |
| Frames.MergeOriginCovers | src/preprocessing/preprocessing_functions.py:22 | every left row is the origin of at least one output row of a left merge |
| Frames.MergeOriginCount | src/preprocessing/diagnosis_preprocessor.py:28-32 | each left row appears once per right row with an equal key, or once when there is none |
| Frames.MergeLeftGet | src/preprocessing/preprocessing_functions.py:22 | a left column reads, in each output row, the cell of the left row it came from |
| Frames.MergeRowRight | src/preprocessing/preprocessing_functions.py:22 | the right columns of an output row are all missing when no right row has its origin row's key; otherwise they hold the non-key cells of one right row with that key |
| Frames.MergeLookup | src/preprocessing/preprocessing_functions.py:22 | two right columns of an output row come from the same matching right row, or are both missing |
| Frames.MergeRowsSingle | src/preprocessing/preprocessing_functions.py:33-36 | when no left row matches two right rows, the merge has exactly one row per left row |
| Frames.MergeUniqueLookup | src/preprocessing/preprocessing_functions.py:33-36 | against distinct right keys a left merge is a lookup: one row per left row, carrying the matching right row's cell or a missing one |
| Frames.StrSlice | src/preprocessing/preprocessing_functions.py:19 | `.str[lo:hi]` is Python slicing of a string cell and missing for any other cell |
| Frames.StrSlicePrefix | src/preprocessing/preprocessing_functions.py:30 | `.str[0:2]` of `.str[:3]` is `.str[0:2]` of the code |
| Frames.StrAt | src/preprocessing/diagnosis_preprocessor.py:16 | `.str[0]` is the first character, or missing for a non-string or empty string |
| Frames.AsStr | src/preprocessing/preprocessing_functions.py:95 | `astype(str)` keeps strings and renders a missing value as 'nan' |
| Frames.AsStrWholeNumber | src/preprocessing/preprocessing_functions.py:21 | `astype(str)` renders a whole number of an integer column as a minus sign exactly when it is negative, then digits that read back as its magnitude; a whole float of magnitude below 10^16 renders the same way followed by '.0' |
| Frames.IntToDecimalValue | src/preprocessing/preprocessing_functions.py:21 | `str()` of an integer is a minus sign exactly when it is negative, then digits that read back as its magnitude |
| Frames.Coalesce | src/preprocessing/preprocessing_functions.py:46 | `a.fillna(b)` is missing only when both are, and is `a` when `a` is present |
| Frames.Lookup | src/preprocessing/preprocessing_functions.py:95 | a dict lookup finds nothing exactly when no entry has the key, and otherwise the value of an entry with that key |
| Frames.Column | src/preprocessing/utils.py:110 | `df[c]` has one cell per row, the row's cell under `c` |
| Frames.Project | src/preprocessing/preprocessing_functions.py:33 | picking distinct column positions keeps every row and reads each picked cell from its column |
| Frames.FirstMissing | src/preprocessing/admissions_preprocessor.py:27 | the label a KeyError names is listed and absent |
| Frames.KeptNames | src/preprocessing/preprocessing_functions.py:40 | the columns kept by `drop` are exactly those present and not listed |
| Frames.KeptGet | src/preprocessing/preprocessing_functions.py:40 | a kept column keeps its dtype and every cell |
| Frames.FirstOccurrences | src/preprocessing/preprocessing_functions.py:31 | `~duplicated()` holds exactly where the key has not occurred in an earlier row |
| Frames.DropDuplicates | src/preprocessing/preprocessing_functions.py:31 | `drop_duplicates` keeps the labels and dtypes and never adds rows |
| Frames.MergedNames | src/preprocessing/preprocessing_functions.py:22 | the merge's labels are the left labels, suffixed where a right label clashes, then one per non-key right label |
| Frames.MergedNameSource | src/preprocessing/diagnosis_preprocessor.py:28-32 | every merged label is a (possibly suffixed) left label or a (possibly suffixed) non-key right label |
| Frames.MergeLeftName | src/preprocessing/diagnosis_preprocessor.py:28-32 | every left column survives the merge under its (possibly suffixed) label |
| Frames.Matches | src/preprocessing/preprocessing_functions.py:22 | the right rows matching a key are exactly those whose key cell equals it, in order |
| Frames.MatchesAtMostOne | src/preprocessing/preprocessing_functions.py:31-36 | distinct right keys give every key at most one match |
| Frames.JoinRowsSingle | src/preprocessing/preprocessing_functions.py:33-36 | with at most one match per left row the join emits exactly one row per left row |
| Frames.CompleteRows | src/preprocessing/vitalsigns_preprocessor.py:34 | the rows without a missing value in the subset are exactly the listed ones, in order |
| Frames.StrSliceColumn | src/preprocessing/preprocessing_functions.py:19 | on a column of strings and missing values, `.str[lo:hi]` slices every string with Python's clamped bounds and leaves a missing cell missing |
| Frames.StrAtColumn | src/preprocessing/diagnosis_preprocessor.py:16 | on a column of strings and missing values, `.str[i]` takes the i-th character of every string long enough and gives a missing value for a shorter string or a missing cell |
| Frames.AsStrColumn | src/preprocessing/preprocessing_functions.py:21 | `astype(str)` renders every cell of the column as a string |
| Frames.NatToDecimalValue | src/preprocessing/preprocessing_functions.py:21 | the decimal rendering of a whole number (`astype(str)` of an integer code) is all digits, has no leading zero, and reads back (`DecimalValue`) as the number |
| Diagnosis.CategoryTableOnto | src/preprocessing/preprocessing_functions.py:49-92 | every one of the 22 buckets is the image of some chapter title |
| Diagnosis.BucketSpec | src/preprocessing/preprocessing_functions.py:95 | a listed title goes to its bucket; any other title, 'nan' included, goes to 'Other' |
| Diagnosis.VersionMask | src/preprocessing/preprocessing_functions.py:15 | the mask holds exactly where `icd_version` equals the number |
| Diagnosis.VersionRows | src/preprocessing/preprocessing_functions.py:15-16 | the split keeps exactly the rows of that version, and only input rows |
| Diagnosis.Icd9Reference | src/preprocessing/preprocessing_functions.py:21 | the reference gets `category_code`, its code as text; it raises KeyError without `icd_code` |
| Diagnosis.CategoryCoded | src/preprocessing/preprocessing_functions.py:18 | each row's `category_code` is the first three characters of its code; other columns are kept |
| Diagnosis.Icd9Part | src/preprocessing/preprocessing_functions.py:15-23 | the ICD-9 half raises KeyError without `icd_code` on either side (its rows are stated by Icd9PartSteps, Icd9Origin, Icd9Keeps and Icd9Match) |
| Diagnosis.Icd9PartSteps | src/preprocessing/preprocessing_functions.py:19-23 | a successful ICD-9 half is the rename of the merge of the coded rows with the prepared reference |
| Diagnosis.Icd9Origin | src/preprocessing/preprocessing_functions.py:22 | every ICD-9 half row has an origin among the ICD-9 rows, and there are at least as many half rows as ICD-9 rows |
| Diagnosis.Icd9OriginMonotone | src/preprocessing/preprocessing_functions.py:22 | the ICD-9 half rows follow the order of the ICD-9 rows |
| Diagnosis.Icd9OriginCovers | src/preprocessing/preprocessing_functions.py:22 | every ICD-9 row is the origin of at least one ICD-9 half row |
| Diagnosis.Icd9Keeps | src/preprocessing/preprocessing_functions.py:22 | each ICD-9 half row repeats the input cells of its origin ICD-9 row, version 9 included |
| Diagnosis.Icd9Match | src/preprocessing/preprocessing_functions.py:19-23 | a row whose three-character prefix equals no reference code as text gets missing category and subcategory; otherwise those of a reference row with that code |
| Diagnosis.Icd9Names | src/preprocessing/preprocessing_functions.py:22 | the ICD-9 half keeps the version column |
| Diagnosis.Icd9Count | src/preprocessing/preprocessing_functions.py:22 | the ICD-9 half has at least one row per ICD-9 row |
| Diagnosis.Icd10Rows | src/preprocessing/preprocessing_functions.py:26-30 | each ICD-10 row's `letter_code` is the first two characters of its code; other columns are kept |
| Diagnosis.Icd10Blocks | src/preprocessing/preprocessing_functions.py:28 | each block row's `letter_code` is the first two characters of its block code |
| Diagnosis.BlockPrefixes | src/preprocessing/preprocessing_functions.py:28 | the block prefixes in reference order |
| Diagnosis.Icd10Lookup | src/preprocessing/preprocessing_functions.py:31-33 | the deduplicated block table raises exactly when `category` or `block_title` is absent, and otherwise has the three joined columns |
| Diagnosis.Icd10LookupRow | src/preprocessing/preprocessing_functions.py:31 | a row of the deduplicated block table is the first block row with its prefix |
| Diagnosis.Icd10LookupKeys | src/preprocessing/preprocessing_functions.py:31 | the deduplicated prefixes are distinct and every block prefix occurs |
| Diagnosis.Icd10SingleMatch | src/preprocessing/preprocessing_functions.py:31-36 | against the deduplicated table every row matches at most one block |
| Diagnosis.Icd10Part | src/preprocessing/preprocessing_functions.py:16-40 | the ICD-10 half raises KeyError without `icd_code` or `block_code` |
| Diagnosis.Icd10PartSteps | src/preprocessing/preprocessing_functions.py:33-40 | a successful ICD-10 half is the merge, rename and drop in order |
| Diagnosis.Icd10RowCount | src/preprocessing/preprocessing_functions.py:26-40 | each ICD-10 row yields exactly one row of the ICD-10 half |
| Diagnosis.Icd10JoinLookup | src/preprocessing/preprocessing_functions.py:33-36 | each row gets the category and title of the first block with its prefix, or missing values when none has it |
| Diagnosis.Icd10Match | src/preprocessing/preprocessing_functions.py:26-37 | the ICD-10 half has one row per ICD-10 row, with the category and block title of the first block whose prefix equals the code's first two characters, or missing values |
| Diagnosis.Icd10JoinKeeps | src/preprocessing/preprocessing_functions.py:33-36 | the join leaves each row's own cells in place |
| Diagnosis.Icd10Keeps | src/preprocessing/preprocessing_functions.py:26-40 | each ICD-10 half row keeps its input cells and version 10 |
| Diagnosis.Icd10SamePrefix | src/preprocessing/preprocessing_functions.py:26-37 | two codes sharing their first two characters get the same category and ICD-10 subcategory |
| Diagnosis.Icd10Names | src/preprocessing/preprocessing_functions.py:33-40 | the ICD-10 half keeps the version column |
| Diagnosis.MergedSubcategory | src/preprocessing/preprocessing_functions.py:46 | `subcategory` is the ICD-9 subcategory, else the ICD-10 one |
| Diagnosis.BucketedCategory | src/preprocessing/preprocessing_functions.py:95 | `category` becomes the bucket of its text rendering |
| Diagnosis.FilledSubcategory | src/preprocessing/preprocessing_functions.py:97 | a missing subcategory becomes 'Other' |
| Diagnosis.Classify | src/preprocessing/preprocessing_functions.py:46-97 | the subcategory is ICD-9, else ICD-10, else 'Other'; the category is the bucket of the title; other columns are kept |
| Diagnosis.Finish | src/preprocessing/preprocessing_functions.py:46-107 | finishing raises KeyError without `subcategory_icd9` and keeps the row count (the cells are stated by FinishSubcategory, FinishCategory and FinishKeeps, the columns by FinishShape) |
| Diagnosis.FinishIsDrop | src/preprocessing/preprocessing_functions.py:100-107 | a successful finish is the drop of the five helper columns from the classified table |
| Diagnosis.FinishShape | src/preprocessing/preprocessing_functions.py:105-107 | the finished table keeps a row per stacked row, has category and subcategory, and none of the five dropped columns |
| Diagnosis.FinishSubcategory | src/preprocessing/preprocessing_functions.py:46-97 | the subcategory is ICD-9, else ICD-10, else 'Other', and is never missing |
| Diagnosis.FinishCategory | src/preprocessing/preprocessing_functions.py:95 | the category is the bucket of the title's text rendering |
| Diagnosis.FinishKeeps | src/preprocessing/preprocessing_functions.py:105-107 | every column not dropped or rewritten keeps its cell |
| Diagnosis.FinishDropFails | src/preprocessing/preprocessing_functions.py:100-107 | once the earlier columns exist, the finish fails exactly when one of the five dropped columns is absent |
| Diagnosis.Combine | src/preprocessing/preprocessing_functions.py:43 | stacking then finishing gives as many rows as the two halves together |
| Diagnosis.PreprocessDiagnosis | src/preprocessing/preprocessing_functions.py:11-109 | the whole function raises KeyError without `icd_version` |
| Diagnosis.PreprocessDiagnosisSteps | src/preprocessing/preprocessing_functions.py:43-107 | a successful run is the finish of the stacked ICD-9 and ICD-10 halves |
| Diagnosis.StackShape | src/preprocessing/preprocessing_functions.py:43 | finishing a stack keeps a row per stacked row and the version column |
| Diagnosis.StackVersion | src/preprocessing/preprocessing_functions.py:43 | a stacked row's version is the one of the half it came from |
| Diagnosis.DiagnosisShape | src/preprocessing/preprocessing_functions.py:43 | the output has the ICD-9 half's rows plus one per ICD-10 row |
| Diagnosis.DiagnosisVersionAt | src/preprocessing/preprocessing_functions.py:15-16 | an output row has version 9 in the ICD-9 block and 10 below it |
| Diagnosis.DiagnosisVersions | src/preprocessing/preprocessing_functions.py:15-16 | only versions 9 and 10 reach the output; every ICD-9 row at least once, every ICD-10 row exactly once, ICD-9 rows first |
| Diagnosis.DiagnosisClassified | src/preprocessing/preprocessing_functions.py:95-107 | every output row has a present subcategory and a category that is one of the 22 bucket labels or 'Other'; the five helper columns are gone |
| DiagnosisPreprocessor.ShortCategorySpec | src/preprocessing/diagnosis_preprocessor.py:35-50 | a listed title becomes its simplified name; anything else becomes 'Other'; never missing |
| DiagnosisPreprocessor.ShortCategoryRange | src/preprocessing/diagnosis_preprocessor.py:50 | each category is one of the twelve names or 'Other' |
| DiagnosisPreprocessor.ShortCategoryColumn | src/preprocessing/diagnosis_preprocessor.py:50 | the category column is mapped cell by cell |
| DiagnosisPreprocessor.LetterCodes | src/preprocessing/diagnosis_preprocessor.py:15-16 | `category_code` is the code's first three characters, `letter_code` its first character; other columns are kept |
| DiagnosisPreprocessor.StrAtSlice | src/preprocessing/diagnosis_preprocessor.py:16 | the first character of the three-character prefix is the code's first character |
| DiagnosisPreprocessor.BlockLetters | src/preprocessing/diagnosis_preprocessor.py:25 | each category-table row's `letter_code` is its block code's first character; nothing is deduplicated |
| DiagnosisPreprocessor.CategoryLetters | src/preprocessing/diagnosis_preprocessor.py:29 | the two joined columns raise KeyError exactly without `category`, and keep every row |
| DiagnosisPreprocessor.CategoryLettersRow | src/preprocessing/diagnosis_preprocessor.py:25-29 | one row of the joined table holds that category-table row's letter and category |
| DiagnosisPreprocessor.Preprocess | src/preprocessing/diagnosis_preprocessor.py:9-56 | the run raises KeyError without `icd_version` or `icd_code` (a successful run is stated by PreprocessSteps, PreprocessNeeds, PreprocessCodes, PreprocessCategory and PreprocessRepeats) |
| DiagnosisPreprocessor.PreprocessSteps | src/preprocessing/diagnosis_preprocessor.py:12-54 | a successful run is the join, the category rewrite and the drop in order |
| DiagnosisPreprocessor.PreprocessErrors | src/preprocessing/diagnosis_preprocessor.py:25-29 | a category table without `block_code` or `category` raises KeyError |
| DiagnosisPreprocessor.ClashHidesCategory | src/preprocessing/diagnosis_preprocessor.py:28-32 | an input with its own `category` gets `category_x`/`category_y` from the join, so line 50 finds no `category` |
| DiagnosisPreprocessor.LeftOnlyName | src/preprocessing/diagnosis_preprocessor.py:28-32 | a label no suffix can produce is in the join only if the input has it |
| DiagnosisPreprocessor.JoinNeeds | src/preprocessing/diagnosis_preprocessor.py:28-54 | the join, rewrite and drop succeed only without an input `category` and with the three dropped columns |
| DiagnosisPreprocessor.JoinNeedsRows | src/preprocessing/diagnosis_preprocessor.py:15-54 | the same, read back through the derived code columns |
| DiagnosisPreprocessor.PreprocessNeeds | src/preprocessing/diagnosis_preprocessor.py:50-54 | a successful run had no input `category` and had `icd_title`, `icd_version` and `seq_num` |
| DiagnosisPreprocessor.Origin | src/preprocessing/diagnosis_preprocessor.py:28-32 | each output row has an origin among the ICD-10 rows, and there are at least as many output rows as ICD-10 rows |
| DiagnosisPreprocessor.OriginMonotone | src/preprocessing/diagnosis_preprocessor.py:28-32 | the output rows follow the order of the ICD-10 rows |
| DiagnosisPreprocessor.OriginCovers | src/preprocessing/diagnosis_preprocessor.py:28-32 | every ICD-10 row is the origin of at least one output row |
| DiagnosisPreprocessor.FinishGet | src/preprocessing/diagnosis_preprocessor.py:50-54 | the rewrite and drop leave every kept column other than `category` untouched |
| DiagnosisPreprocessor.JoinedLeft | src/preprocessing/diagnosis_preprocessor.py:28-32 | a left column of an output row reads its origin row's cell |
| DiagnosisPreprocessor.JoinedRows | src/preprocessing/diagnosis_preprocessor.py:15-32 | an input column of an output row reads its origin ICD-10 row's cell |
| DiagnosisPreprocessor.PreprocessKeeps | src/preprocessing/diagnosis_preprocessor.py:12-54 | every output row repeats its origin ICD-10 row outside the derived, joined and dropped columns |
| DiagnosisPreprocessor.JoinedCodes | src/preprocessing/diagnosis_preprocessor.py:28-32 | the two derived code columns survive the join |
| DiagnosisPreprocessor.CodeColumnsKept | src/preprocessing/diagnosis_preprocessor.py:54 | neither derived code column is rewritten or dropped |
| DiagnosisPreprocessor.PreprocessCodes | src/preprocessing/diagnosis_preprocessor.py:15-16 | each output row's `category_code` is its origin code's first three characters, `letter_code` its first character |
| DiagnosisPreprocessor.JoinedCategory | src/preprocessing/diagnosis_preprocessor.py:28-50 | an output category is the simplified category of a right row with the same letter, or 'Other' when none has it |
| DiagnosisPreprocessor.LookupInReference | src/preprocessing/diagnosis_preprocessor.py:25-29 | what the join finds in the two-column table, said of the category table itself |
| DiagnosisPreprocessor.JoinedCategoryRows | src/preprocessing/diagnosis_preprocessor.py:15-50 | the category of an output row, read back to the ICD-10 row and the category table |
| DiagnosisPreprocessor.PreprocessCategory | src/preprocessing/diagnosis_preprocessor.py:28-50 | a row whose first letter starts no block code gets 'Other'; otherwise the simplified category of a block with that letter |
| DiagnosisPreprocessor.FinishedCategoryRange | src/preprocessing/diagnosis_preprocessor.py:50 | after the mapping the category is one of the twelve names or 'Other' |
| DiagnosisPreprocessor.PreprocessCategoryRange | src/preprocessing/diagnosis_preprocessor.py:50 | every output category is one of the twelve names or 'Other', never missing |
| DiagnosisPreprocessor.LetterMatches | src/preprocessing/diagnosis_preprocessor.py:25 | the category-table rows whose block code starts with a letter, all of them |
| DiagnosisPreprocessor.MatchesAreLetterMatches | src/preprocessing/diagnosis_preprocessor.py:25-32 | the join's matches for a letter are exactly those rows |
| DiagnosisPreprocessor.PreprocessRepeats | src/preprocessing/diagnosis_preprocessor.py:28-32 | each ICD-10 row appears once per category-table row with its first letter, or once when there is none |
| VitalSigns.VitalNamesAreKeys | src/preprocessing/vitalsigns_preprocessor.py:19-34 | the `dropna` subset is the six range keys, in order, distinct |
| VitalSigns.VitalKeysDistinct | src/preprocessing/vitalsigns_preprocessor.py:19-26 | no vital is given two ranges |
| VitalSigns.ClipCell | src/preprocessing/vitalsigns_preprocessor.py:31 | the value is kept when inside the inclusive range and becomes missing otherwise |
| VitalSigns.ClipColumn | src/preprocessing/vitalsigns_preprocessor.py:30-32 | one vital raises KeyError when absent and TypeError for a value that cannot be compared; otherwise every cell is clipped |
| VitalSigns.ClipAll | src/preprocessing/vitalsigns_preprocessor.py:29-32 | the loop keeps the labels and the rows |
| VitalSigns.ClipVitals | src/preprocessing/vitalsigns_preprocessor.py:29-32 | the loop over the six vitals keeps the labels and the rows |
| VitalSigns.ClipAllNames | src/preprocessing/vitalsigns_preprocessor.py:29-32 | a loop that did not raise found every vital it visited |
| VitalSigns.ClipAllGet | src/preprocessing/vitalsigns_preprocessor.py:29-32 | after the loop each visited vital holds its clipped values and every other column is unchanged |
| VitalSigns.ClipAllStep | src/preprocessing/vitalsigns_preprocessor.py:29-32 | one iteration clips and writes its column, or raises with the frame unchanged |
| VitalSigns.ClipAllOk | src/preprocessing/vitalsigns_preprocessor.py:29-32 | the loop completes exactly when every vital is present and comparable |
| VitalSigns.CheckableAfter | src/preprocessing/vitalsigns_preprocessor.py:29-32 | columns the loop has not reached are still the input's |
| VitalSigns.ClipAllError | src/preprocessing/vitalsigns_preprocessor.py:29-32 | the loop raises for the first vital absent (KeyError) or not comparable (TypeError) |
| VitalSigns.ClipAllStops | src/preprocessing/vitalsigns_preprocessor.py:29-32 | after an exception no later iteration runs |
| VitalSigns.ClipInPlace | src/preprocessing/vitalsigns_preprocessor.py:29-32 | the in-place loop leaves the caller's frame and the exception exactly as the specification loop |
| VitalSigns.VitalsGet | src/preprocessing/vitalsigns_preprocessor.py:29-32 | after the loop the six vitals of a row are clipped and its other columns unchanged |
| VitalSigns.Cleaned | src/preprocessing/vitalsigns_preprocessor.py:16-35 | the cleaned frame keeps the labels |
| VitalSigns.Survivors | src/preprocessing/vitalsigns_preprocessor.py:34 | one surviving input row per output row |
| VitalSigns.CompleteIffInRange | src/preprocessing/vitalsigns_preprocessor.py:29-34 | a row has all six vitals after the overwrite exactly when they were all in range |
| VitalSigns.CleanedRows | src/preprocessing/vitalsigns_preprocessor.py:33-34 | the cleaning keeps exactly the rows with all six vitals in range, in order, each unchanged |
| VitalSigns.SurvivorUnchanged | src/preprocessing/vitalsigns_preprocessor.py:29-32 | a row with all vitals in range comes through the overwrite unchanged |
| VitalSigns.CleanedInRange | src/preprocessing/vitalsigns_preprocessor.py:29-34 | every surviving row has all six vitals inside their inclusive bounds |
| VitalSigns.CallerFrameCleared | src/preprocessing/vitalsigns_preprocessor.py:29-32 | the caller's frame is overwritten for every row, dropped ones included |
| VitalSigns.CleanedErrors | src/preprocessing/vitalsigns_preprocessor.py:29-32 | the cleaning raises exactly when a vital is absent or not comparable, with KeyError or TypeError |
| VitalSigns.CleanVitalSigns | src/preprocessing/preprocessing_functions.py:192-206 | `_clean_vitalsigns` leaves the caller's frame overwritten and returns the cleaned rows, as the specification functions say |
| VitalSigns.ForwardFilled | src/preprocessing/vitalsigns_preprocessor.py:13 | the fill keeps the length |
| VitalSigns.FillForward | src/preprocessing/vitalsigns_preprocessor.py:13 | the left-to-right scan computes the forward fill |
| VitalSigns.ForwardFilledNearest | src/preprocessing/vitalsigns_preprocessor.py:13 | a present value is kept; a missing one takes the nearest present value above it; it stays missing exactly when all above are missing |
| VitalSigns.ForwardFilledIdempotent | src/preprocessing/vitalsigns_preprocessor.py:13 | filling twice is filling once |
| VitalSigns.LeadingMissing | src/preprocessing/vitalsigns_preprocessor.py:13 | leading missing values stay missing |
| VitalSigns.PreprocessedRows | src/preprocessing/vitalsigns_preprocessor.py:11-14 | the result has the cleaned rows; `pain` is the forward fill of the survivors' `pain`; other columns are the input's |
| VitalSigns.PreprocessedPain | src/preprocessing/vitalsigns_preprocessor.py:13 | `pain` is missing only where no surviving row at or above had one |
| VitalSigns.Preprocess | src/preprocessing/vitalsigns_preprocessor.py:9-14 | the preprocessor overwrites the caller's frame and returns the cleaned, filled rows |
| Utils.RaceMappingOnto | src/preprocessing/utils.py:13-47 | `race_mapping` has 33 labels and reaches each of the six buckets |
| Utils.GroupLabelsDistinct | src/preprocessing/utils.py:13-47 | the six bucket names are distinct |
| Utils.RaceOf | src/preprocessing/preprocessing_functions.py:115 | `.map(race_mapping)` gives a listed label's bucket and missing for anything else |
| Utils.RaceColumn | src/preprocessing/admissions_preprocessor.py:13 | the race column is mapped cell by cell |
| Utils.ToDatetimeSpec | src/preprocessing/utils.py:95 | a coerced cell is a timestamp or missing, unparseable values become missing, and converting again changes nothing |
| Utils.DatetimeColumn | src/preprocessing/utils.py:95 | the column is parsed cell by cell |
| Utils.ConvertAll | src/preprocessing/utils.py:93-95 | the loop keeps the labels and rows |
| Utils.ConvertAllGet | src/preprocessing/utils.py:93-95 | listed columns hold their parsed cells; other columns are untouched |
| Utils.ConvertAllTypes | src/preprocessing/utils.py:93-95 | listed columns become datetime; other columns keep their dtype |
| Utils.ConvertAllError | src/preprocessing/utils.py:93-95 | the loop raises exactly when a listed column is absent, KeyError for the first |
| Utils.ConvertAllStops | src/preprocessing/utils.py:93-95 | after an exception no later iteration runs |
| Utils.Converted | src/utils/utils.py:76-79 | the whole call raises KeyError exactly when a listed column is absent; otherwise listed columns are parsed datetimes and the rest unchanged |
| Utils.ConvertToDatetime | src/preprocessing/utils.py:93-95 | the in-place loop leaves the frame and exception the specification loop gives |
| Utils.HoursBetweenSpec | src/preprocessing/utils.py:98-100 | hours times 3600 are the seconds between the timestamps, negative when out precedes in, missing exactly when one is missing |
| Utils.LengthOfStaySpec | src/utils/utils.py:82-85 | the LOS column holds the hours between the two timestamps and nothing else changes; it fails exactly when a column is absent or not datetime |
| Utils.ComputeLengthOfStay | src/preprocessing/utils.py:98-100 | the in-place write leaves the frame the specification gives |
| Utils.MapToGroupSpec | src/preprocessing/utils.py:103-105 | the grouped value is the mapping's present value or the fill, never missing; the source column and others unchanged; ValueError exactly for a missing fill |
| Utils.MapToGroupInPlace | src/utils/utils.py:88-91 | the in-place mapping leaves the frame and exception the specification gives |
| Utils.IqrBandOrdered | src/preprocessing/utils.py:110-114 | with ordered quartiles the band contains both quartiles |
| Utils.BandMask | src/preprocessing/utils.py:115-116 | one mask entry per row |
| Utils.FilterOutliersRows | src/preprocessing/utils.py:109-116 | the IQR filter keeps exactly the rows whose value is in the band, in order, unchanged; missing values are excluded |
| Utils.FilterOutliersErrors | src/utils/utils.py:94-111 | the filter fails exactly for a non-IQR method, an absent column or a value not comparable with a number (a timestamp included, see Left out); an unknown method raises ValueError |
| Stays.Prepare | src/preprocessing/admissions_preprocessor.py:10-25 | the shared steps keep the row count |
| Stays.AfterConvert | src/preprocessing/ed_stay_preprocessor.py:11-19 | the steps after parsing keep the row count |
| Stays.PrepareOk | src/preprocessing/ed_stay_preprocessor.py:10-19 | the shared steps complete exactly when the parsed, `race` and cast columns are present; otherwise KeyError |
| Stays.AfterConvertFrame | src/preprocessing/ed_stay_preprocessor.py:11-14 | a successful run is the LOS write then the race bucketing |
| Stays.PrepareNames | src/preprocessing/ed_stay_preprocessor.py:10-14 | a successful run adds only the LOS column |
| Stays.PrepareGet | src/preprocessing/ed_stay_preprocessor.py:10-14 | per row: parsed timestamps, LOS between the parsed ends, bucketed race, other cells unchanged |
| Stays.PrepareInPlace | src/preprocessing/ed_stay_preprocessor.py:10-19 | the in-place steps leave the frame and exception the specification gives |
| Stays.AfterConvertInPlace | src/preprocessing/admissions_preprocessor.py:11-25 | the in-place LOS, race and cast loop leave the frame and exception the specification gives |
| Admissions.StepsFit | src/preprocessing/admissions_preprocessor.py:10-25 | the admissions step list meets the shared steps' assumptions and writes `admission_los_hours` |
| Admissions.FinishSpec | src/preprocessing/admissions_preprocessor.py:27-29 | drop and flag succeed exactly with `admit_provider_id` and `deathtime`; the frame loses `admit_provider_id` and gains `is_dead`, true exactly where `deathtime` is present |
| Admissions.AdmittedOk | src/preprocessing/admissions_preprocessor.py:8-30 | a run completes exactly when the parsed, cast and dropped columns are present; otherwise KeyError |
| Admissions.AdmittedShape | src/preprocessing/admissions_preprocessor.py:8-30 | rows are kept; `admit_provider_id` is removed and LOS and `is_dead` added |
| Admissions.AdmittedRow | src/preprocessing/admissions_preprocessor.py:8-30 | per row: parsed timestamps, LOS, bucketed race, `is_dead` from the parsed `deathtime`, other cells kept |
| Admissions.AdmissionsOk | src/preprocessing/preprocessing_functions.py:111-124 | the preprocessor completes exactly when the five timestamps, seven cast columns and `admit_provider_id` are present; otherwise KeyError |
| Admissions.AdmissionsRow | src/preprocessing/admissions_preprocessor.py:8-30 | rows and order kept; only `admit_provider_id` dropped; `admission_los_hours` and `is_dead` added with their per-row values |
| Admissions.CallerKeepsProvider | src/preprocessing/admissions_preprocessor.py:27 | the caller's frame keeps `admit_provider_id` and gets no `is_dead`; the returned one loses it |
| Admissions.Preprocess | src/preprocessing/admissions_preprocessor.py:8-30 | the method changes the caller's frame by the shared steps and returns the admissions result |
| EdStay.StepsFit | src/preprocessing/ed_stay_preprocessor.py:10-19 | the ED step list meets the shared steps' assumptions and writes `ed_los_hours` |
| EdStay.FlagSpec | src/preprocessing/preprocessing_functions.py:149 | the flag needs `hadm_id`, is true exactly where it is present, and changes nothing else |
| EdStay.EdStaysOk | src/preprocessing/ed_stay_preprocessor.py:8-21 | the class's preprocessor completes exactly when `intime`, `outtime` and the four cast columns are present; otherwise KeyError |
| EdStay.EdStaysRow | src/preprocessing/ed_stay_preprocessor.py:8-21 | rows kept, only `ed_los_hours` added (no `admitted`); per row parsed times, LOS and bucketed race |
| EdStay.FlaggedOk | src/preprocessing/preprocessing_functions.py:141-150 | with the flag, the run also needs `hadm_id`, still raising only KeyError |
| EdStay.FlaggedRows | src/preprocessing/preprocessing_functions.py:149 | the flagged run adds `admitted`, true exactly where `hadm_id` is present |
| EdStay.EdStaysAdmittedSpec | src/preprocessing/preprocessing_functions.py:141-150 | `preprocess_ed_stay` completes exactly when the class's version does and `hadm_id` is present, and only adds `admitted` |
| EdStay.Preprocess | src/preprocessing/ed_stay_preprocessor.py:8-21 | the method leaves the caller's frame and exception as specified |
| EdStay.PreprocessEdStay | src/preprocessing/preprocessing_functions.py:141-150 | the same with `admitted` |
| PreprocessMimic.StrictAll | src/preprocess.py:41-48 | the strict loop keeps labels and rows |
| PreprocessMimic.ParsedParses | src/preprocess.py:48 | a parsed cell parses again; a parseable present cell becomes a timestamp |
| PreprocessMimic.StrictAllGet | src/preprocess.py:45-48 | present listed columns hold their timestamps; others are untouched |
| PreprocessMimic.StrictAllOk | preprocess.py:35-37 | the loop raises exactly when a present listed column has an unparseable cell, and names one; absent columns are skipped |
| PreprocessMimic.SameParses | src/preprocess.py:45-48 | converting earlier columns does not change whether a later column parses |
| PreprocessMimic.StrictAllStops | src/preprocess.py:45-48 | after an exception no later iteration runs |
| PreprocessMimic.ConvertToDatetime | src/preprocess.py:41-48 | the in-place loop leaves the frame and exception the specification gives |
| PreprocessMimic.ComputeLengthOfStay | preprocess.py:39-43 | writes the same LOS column as `Utils.compute_length_of_stay`; `format_length` is ignored |
| PreprocessMimic.MapToGroupSpec | src/preprocess.py:57-61 | the grouped value is the mapping's present value or the fill, never missing; on ValueError nothing changes |
| PreprocessMimic.MapToGroupInPlace | preprocess.py:46-50 | the in-place mapping leaves the frame and exception the specification gives |
| PreprocessMimic.ClampOutliersSpec | src/preprocess.py:63-79 | fails exactly for an absent or non-numeric column with the frame unchanged; otherwise rows and other columns are kept, values are clamped into the band, in-band values and missing values unchanged |
| PreprocessMimic.ClampSpec | preprocess.py:61-70 | with ordered quartiles a clamped value lies in the band, in-band values are kept, missing stays missing, clamping is idempotent |
| PreprocessMimic.ClampOutliersInPlace | src/preprocess.py:63-79 | the in-place clamp leaves the frame and exception the specification gives |
| Nunique.CountSpec | src/utils.py:3 | `nunique` is at most the row count and zero exactly when the column has no present value |
| Nunique.NuniquePerCatSpec | src/utils.py:2-4 | one pair per object column and none for others, in column order, each with its count (at most the row count); at most as many pairs as columns |

## Left out

- Triage text processing and topic assignment (`preprocess_triage` and its helpers): tokenising, lemmatising and an LDA model from foreign libraries.
- The orchestrator `src/preprocessing/preprocessor.py`: file I/O and dispatch only.
- Reading CSV files: the reference and category tables are parameters.
- The date-string parser of `pd.to_datetime`: a parameter `parse` that maps a cell to seconds or nothing. `parse` also decides booleans and numbers.
- Quantiles: `quantile(0.25)` and `quantile(0.75)` are given as `q1` and `q3`.
- Utils.FilterOutliersErrors: the quartiles are numbers, so a column of timestamps is reported as TypeError. pandas computes timestamp quartiles for a datetime column and filters it to the rows inside the timestamp band; that case is not modelled.
- Frames.Concat: each output column keeps the dtype of the first frame that has it. pandas unifies the dtypes instead (an integer column that gains missing rows, or meets a float column, becomes float). Only the `str()` rendering of such a column would differ. The one rendering after a concat (`Diagnosis.BucketedCategory`) reads string or missing cells, whose rendering does not depend on the dtype.
- The Z-score branch of `filter_outliers`: it calls scipy, so the model returns `OutOfModel` for it.
- `impute_missing_values`, `encode_categorical`, `standardize_features`, `print_info`, `min_max_for_cols` and `display`: sklearn wrappers and console output.
- `src/config.py`: paths and settings.
- `astype('category')`: only the KeyError for an absent column is modelled. The cast changes storage, not values.
- Frames.Rename, Frames.Merge: duplicate column labels cannot be represented. A rename onto an existing label is reported as `DuplicateLabel`, where pandas would make a second column with that label. A merge whose suffixes collide is reported as `MergeError`, as pandas 2 itself raises.
- `str()` of timestamps, of floats that are not whole, and of floats of magnitude 10^16 or more (which Python writes in exponent form, '1e+16') is a parameter (`Frames.Renderer`).
- Frames.AsStr: a cell does not record whether a number in an object column is a Python int or a float. `str()` writes '401' for the int and '401.0' for the float, so the rendering of a number in an object column is a parameter (`Frames.Renderer.number`) and the model states nothing about it.
- Floating point: numbers are exact reals, so `/ 3600.0` and `1.5 * IQR` have no rounding.
- VitalSigns.ClippedDType: a clipped column is typed float when it received a missing value. It is otherwise kept, which is coarser than pandas' inference in `apply`.
- PreprocessMimic.ClampedDType: an integer column becomes float exactly when a value changed. This is coarser than pandas' inference in `apply`.
- Utils.LengthOfStay: a column that is not of datetime dtype is reported as TypeError. pandas' exact behaviour for object columns is not modelled.
- Stays.PrepareOk and the other shared-step lemmas are proved for any step list satisfying `Stays.Sound` (and `Fits` in the admissions and ED-stay modules). The literal lists are proved to satisfy them (`Admissions.StepsFit`, `EdStay.StepsFit`).
- Utils.MapToGroupSpec: a cell is a value or `Null`, and `Null` stands for NaN, NaT and `None` alike. A `Null` fill raises ValueError, as `fillna(None)` does. But `fillna(np.nan)` completes in pandas and leaves the unmapped values missing, and the model does not capture that case.
- PreprocessMimic.MapToGroupSpec: the same `Null` fill is ValueError here too. The completing `fillna(np.nan)` run is not modelled.
- VitalSigns.ClipColumn: a missing cell is kept missing, as NaN is. A Python `None` in an object column would make the comparison in the lambda raise TypeError, and the model does not capture that case.
- Frames.StrSliceColumn: pandas raises AttributeError when `.str` is used on a column that is not of object dtype (a numeric `icd_code` column, say). The model does not raise; it maps every non-string cell to a missing value. So this error path of Diagnosis.Icd9Part, Diagnosis.Icd10Part and DiagnosisPreprocessor.Preprocess is not modelled.
- Frames.StrAtColumn: the same AttributeError for `.str[i]` on a non-object column is not modelled (line 16 of `src/preprocessing/diagnosis_preprocessor.py`).
- Nunique.NuniquePerCatSpec: `nunique_per_cat` itself is a comprehension and is modelled as a function. Pandas' counting of unhashable values is not modelled.
