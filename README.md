# Girls Rock survey pipeline: a Dafny model of its table transformations

This project models the three table transformations at the heart of the Omaha Girls
Rock survey analysis and proves what each of them promises:

- **The raw-data cleaning** (`src/processing/raw_data_processing.py`):
  - `create_id` keeps the 2018 and 2019 rows, renumbers the 2018 client IDs by first
    appearance and rebuilds every ID as ID + zip prefix + year;
  - `remove_columns` keeps the first 37 columns and drops answer columns by position;
  - `rename_columns` standardises five headers in place;
  - `clean_data` works on the caller's frame in place. It truncates the zip code at its
    first `.`, strips an ordinal suffix off the years at camp and parses them, and
    lower-cases and rewrites the race/ethnicity text before grouping it four ways. It
    scores three Likert answer columns and fills the missing answers of columns 5..18
    with the column's mode. Finally it moves the last three columns, then `client`, to
    the front.
- **The pre/post reshaper** (`src/processing/prepost_transform.py`). It splits the
  survey table into its pre-test and post-test rows and drops three columns from each.
  It unpivots each side on its first five columns and inner-joins the two on (client,
  question). It then adds `delta = score_posttest - score_pretest` and shortens each
  question label to its number.
- **Fisher's LSD** (`src/stat_methods/lsd.py`). The `FishersLSD` class keeps the slice
  of a DataFrame whose `groupby` column equals `groupby_value`. `table()` numbers the
  treatment groups in order of first appearance and averages each group's responses.
  For every pair i < j it reports the label `"A vs. B"`, `|mean_i - mean_j|`, a
  critical value and a verdict. `plot()` gathers the rows of each compared pair,
  tagged with the comparison's number.

A DataFrame cell is a `Value`: text, integer, float (a `real`) or NaN. There are two
views of a DataFrame:

- the pre/post reshaper and the LSD class see a row-major `Tables.Table`;
- the column operations of the raw cleaning see a column-major `seq<Sheets.Column>`.

`clean_data` and `rename_columns` change the caller's frame, so they are methods of the
class `RawData.Frame` and write its `cols` field. Each method is proved equal to a
function of the old state. The proof goes loop by loop, with invariants, and the lemmas
state what those functions promise.

Inputs that come from outside the code modelled here are parameters:

- `floatText: real -> string` stands for Python's `str()` of a float. It is used by
  `astype(str)`, f-strings and `str(zip)`.
- `critical: (nat, nat) -> Option<real>` gives the critical value of a pair from its group
  sizes n_i and n_j. It stands for `t.ppf(1 - alpha/2, dof) * sqrt(mse * (1/n_i + 1/n_j))`,
  with the ANOVA's mse and dof fixed. `None` stands for a NaN critical value, which is what
  the fit gives when every group has a single row and the within-groups dof is 0.

Where the code's behaviour differs from what its comments or names suggest, the model
follows the code:

- The missing answers are filled with the column's **mode** (`mode()[0]`), not the median
  the comment announces.
- `rstrip('nd|th|st|rd')` strips a **set of characters**, not a list of suffixes, so the
  text `"nan"` of a missing cell loses its last `n`.
- A group whose treatment value is NaN is listed by `unique()`, but no row compares equal
  to NaN. Its size n is 0, so a pair that contains it divides by zero at `1/n_i`: not
  every listed group has a row.
- Splitting a label on `" vs. "` does not always give back the two group names (see
  "Findings").

## Model

| member | source | states |
|---|---|---|
| Seqs.Unique | src/stat_methods/lsd.py:58 | `unique()` lists every value of the column once, and nothing that is not in it |
| Seqs.UniqueFirstAppearance | src/stat_methods/lsd.py:58 | the groups are numbered in the order of their first appearance in the treatment column |
| Seqs.UniqueCountsSum | src/stat_methods/lsd.py:58 | summed over the distinct values, the occurrence counts cover every row exactly once |
| Text.BeforeFirst | src/processing/prepost_transform.py:39 | `split('.')[0]` is the longest prefix without `.`; it is followed by `.` unless it is the whole text |
| Text.BeforeFirstIdempotent | src/processing/prepost_transform.py:39 | truncating a question label twice is truncating it once; a label without `.` is unchanged |
| Text.SplitJoined | src/stat_methods/lsd.py:107-108 | `(a + sep + b).split(sep)` is `[a, b]` when sep first occurs where it was put and not in b |
| Text.ReplaceAbsent | src/processing/raw_data_processing.py:144-151 | `str.replace` leaves a text without the pattern unchanged |
| Text.Lower | src/processing/raw_data_processing.py:141 | `str.lower` maps each ASCII capital to its small letter, keeps every other character, and leaves no capital |
| Text.RStrip | src/processing/raw_data_processing.py:137 | `rstrip(chars)` removes the longest tail made of set characters; what is left does not end in one |
| Text.ParseNat | src/processing/raw_data_processing.py:138 | digits parse exactly when the text is a non-empty run of decimal digits |
| Text.ParseIntText | src/processing/raw_data_processing.py:138 | `int(str(i)) == i` |
| Text.ParseNatText | src/processing/raw_data_processing.py:138 | parsing the decimal text of a natural number gives the number back |
| Tables.ColumnIndex | src/processing/prepost_transform.py:30 | a label is found at its first position; KeyError exactly when no column carries it |
| Tables.Kept | src/processing/prepost_transform.py:7-9 | the positions kept by a drop are exactly the columns whose label is not dropped, in order |
| Tables.DropColumns | src/processing/prepost_transform.py:7-9 | after the drop no dropped label remains, every other label does, and the rows keep their number |
| Sheets.Find | src/processing/raw_data_processing.py:192 | `df[name]` finds a column carrying the label, or KeyError exactly when none does |
| Sheets.Clamp | src/processing/raw_data_processing.py:106 | a slice bound resolves as in Python: negative counts from the end, the result lies within 0..n |
| Sheets.Slice | src/processing/raw_data_processing.py:106-109 | `iloc[:, lo:hi]` is the clamped range of columns, or nothing when the range is reversed |
| Sheets.Without | src/processing/raw_data_processing.py:108 | `drop(columns=[name])` leaves no column with that label and never adds one |
| Sheets.WithoutAt | src/processing/raw_data_processing.py:108 | with distinct labels, dropping the label of column k removes exactly column k |
| Sheets.NamesWithout | src/processing/raw_data_processing.py:108 | the labels after a drop are the old labels with that one filtered out, in order |
| Sheets.WithoutMembers | src/processing/raw_data_processing.py:108 | a drop keeps exactly the columns that carry another label |
| Sheets.Where | src/processing/raw_data_processing.py:95-96 | `df[col] == v` selects exactly the positions holding v, ascending, as many as v occurs |
| Sheets.Pick | src/processing/raw_data_processing.py:95-96 | a row selection takes the cells at the selected positions, in that order |
| Modes.Mode | src/processing/raw_data_processing.py:182 | `mode()[0]` is a most frequent non-NaN value, first in pandas' order among ties; none when every cell is NaN |
| Modes.FillMissing | src/processing/raw_data_processing.py:182 | `fillna(m)` replaces every NaN by m and keeps every other cell |
| Modes.FillWithMode | src/processing/raw_data_processing.py:182 | after filling with the mode no cell is NaN and the present cells are unchanged |
| Modes.BeforeTotal | src/processing/raw_data_processing.py:182 | the order that breaks ties between modes is total on non-NaN values |
| Modes.BeforeTrans | src/processing/raw_data_processing.py:182 | that order is transitive, so the first mode is well defined |
| Recode.RaceText | src/processing/raw_data_processing.py:141-152 | a text cell comes out as lower-case text, and any other cell as NaN |
| Recode.RewriteLower | src/processing/raw_data_processing.py:142-152 | each substitution of the chain keeps a lower-case text lower-case |
| Recode.RaceChainOrder | src/processing/raw_data_processing.py:141-152 | the chain runs in order: "Korean, Caucasian" becomes "caucasian/asian" and is grouped multi-racial |
| Recode.ReplaceSingle | src/processing/raw_data_processing.py:144-151 | a single occurrence whose first character appears nowhere else is the only place replace changes |
| Recode.RaceGroup | src/processing/raw_data_processing.py:154-162 | 'caucasian' or 'black' only on an exact match, 'multi-racial' for any other text with '/', otherwise 'other' |
| Recode.Likert | src/processing/raw_data_processing.py:167-174 | `score_dict` gives a score within 1..6 to the six answers and none to any other text |
| Recode.LikertBijection | src/processing/raw_data_processing.py:167-174 | the table is a bijection between the six answers and 1..6, in both directions |
| Recode.LikertInjective | src/processing/raw_data_processing.py:167-174 | two answers with the same score are the same answer |
| Recode.Score | src/processing/raw_data_processing.py:176-178 | a listed answer, once lowered, becomes its score, an unlisted text stays lowered, and a non-text cell becomes NaN |
| Recode.ZipPrefix | src/processing/raw_data_processing.py:128-131 | the zip code keeps the prefix of its text up to the first `.`, and all of a text without `.` |
| Recode.ZipCellIdempotent | src/processing/raw_data_processing.py:128-131 | cleaning an already cleaned zip code changes nothing |
| Recode.ZipFloatExample | src/processing/raw_data_processing.py:128-131 | a zip code read as 68102.0 comes out as "68102" |
| Recode.RStripTail | src/processing/raw_data_processing.py:137 | a tail made only of stripped characters is removed, and the text before it is kept |
| Recode.YearsOrdinal | src/processing/raw_data_processing.py:134-138 | "2nd", "3rd", "4th", "11th" and any n followed by st/nd/rd/th parse to n |
| Recode.YearsMissing | src/processing/raw_data_processing.py:134-138 | a missing cell ("nan") does not parse: `int()` raises ValueError |
| PrePost.Side | src/processing/prepost_transform.py:5 | every row of a side has test_type exactly equal to that side's text |
| PrePost.SideRows | src/processing/prepost_transform.py:5 | a row feeds a side as often as it occurs when its test_type is exactly that text, and never otherwise |
| PrePost.MeltColumn | src/processing/prepost_transform.py:11-14 | each value column contributes one melted row per input row |
| PrePost.MeltSize | src/processing/prepost_transform.py:11-14 | melt yields rows x (columns - identifiers) rows |
| PrePost.MeltKeysCount | src/processing/prepost_transform.py:11-14 | a (client, question) key occurs (#columns with that label) x (#rows of that client) times among the melted keys |
| PrePost.MeltKeyShape | src/processing/prepost_transform.py:11-14 | every melted row carries the client of an input row and the label of a value column |
| PrePost.PreRowsSize | src/processing/prepost_transform.py:11-14 | the melted pre-test side has (pre-test rows) x (question columns) rows |
| PrePost.MatchesCount | src/processing/prepost_transform.py:29-33 | a pre-test row meets each post-test row with its key exactly once |
| PrePost.MatchesSize | src/processing/prepost_transform.py:29-33 | a pre-test row has as many matches as there are post-test rows with its key |
| PrePost.MatchesProvenance | src/processing/prepost_transform.py:29-33 | each match of a pre-test row comes from a post-test row with its key |
| PrePost.JoinCount | src/processing/prepost_transform.py:29-33 | a key occurs in the inner merge (#pre rows with it) x (#post rows with it) times |
| PrePost.JoinHasKey | src/processing/prepost_transform.py:29-33 | a (client, question) key is in the merge exactly when it is on both sides |
| PrePost.JoinProvenance | src/processing/prepost_transform.py:29-33 | every merged row is a pre-test row combined with a post-test row of the same key |
| PrePost.JoinSizeMatched | src/processing/prepost_transform.py:29-33 | when every pre-test key has exactly one post-test partner, the merge has one row per pre-test row |
| PrePost.MeltedKeyOnce | src/processing/prepost_transform.py:29-33 | with distinct labels and post-test clients, each melted pre-test key has exactly one post-test partner |
| PrePost.UniqueKeyCount | src/processing/prepost_transform.py:11-14 | with distinct labels and clients, a present (client, question) key occurs once among the melted keys |
| PrePost.PreKeysMatchedOnce | src/processing/prepost_transform.py:29-33 | when each client has one post-test row, every pre-test key meets exactly one post-test key |
| PrePost.MergeRowCount | src/processing/prepost_transform.py:29-33 | under that condition the merge has (pre-test rows) x (question columns) rows |
| PrePost.Delta | src/processing/prepost_transform.py:36 | delta is post - pre, NaN when either is NaN, and an integer exactly when both are |
| PrePost.MakePlan | src/processing/prepost_transform.py:5-30 | KeyError exactly when test_type, zip_code or years_at_camp is missing, or client is not an identifier; otherwise the positions found carry those labels |
| PrePost.SideTable | src/processing/prepost_transform.py:5-9 | a side keeps the input's columns less the three dropped ones |
| PrePost.Finished | src/processing/prepost_transform.py:36-39 | one output row per merged row, in order, each with its delta and truncated question |
| PrePost.ReshapeByPlan | src/processing/prepost_transform.py:3-41 | a successful transform is the merge of the melted sides, finished row by row |
| PrePost.DroppedColumnsAbsent | src/processing/prepost_transform.py:7-9 | zip_code, test_type and years_at_camp are not among the output columns |
| PrePost.DroppedNotAdded | src/processing/prepost_transform.py:29-36 | none of the three dropped labels is one of the columns the transform adds |
| PrePost.ReshapeRow | src/processing/prepost_transform.py:29-39 | each output row takes its identifiers and pre score from a pre-test row, and its post score from a post-test row with the same client and question; its question is truncated and its delta is post - pre |
| PrePost.ReshapeSize | src/processing/prepost_transform.py:29-39 | the output has exactly one row per merged row |
| PrePost.ReshapeRowCount | src/processing/prepost_transform.py:29-33 | with one post-test row per client, C clients answering Q questions give C x Q output rows |
| Lsd.RowsWhere | src/stat_methods/lsd.py:20 | every selected row is an input row whose cell compares equal to the value |
| Lsd.RowsWhereCount | src/stat_methods/lsd.py:20 | a row is kept as often as it occurs when its cell compares equal, and never otherwise |
| Lsd.RowsWhereOrder | src/stat_methods/lsd.py:20 | the selection keeps the rows' relative order |
| Lsd.GroupSizeCount | src/stat_methods/lsd.py:74-75 | n of a group is its number of occurrences in the treatment column, and 0 for NaN |
| Lsd.GroupSizePositive | src/stat_methods/lsd.py:74-75 | a listed group has no row exactly when it is NaN |
| Lsd.GroupSizesSum | src/stat_methods/lsd.py:74-75 | the group sizes add up to the slice size, less the rows whose treatment is NaN |
| Lsd.Mean | src/stat_methods/lsd.py:61 | the mean exists exactly when some response is present, and times their number it is their sum |
| Lsd.MeanBetween | src/stat_methods/lsd.py:61 | the mean lies within any bounds of the responses it averages |
| Lsd.GroupResponses | src/stat_methods/lsd.py:61 | a group's responses are one per row of the group |
| Lsd.AbsDiff | src/stat_methods/lsd.py:72 | the difference is NaN exactly when a mean is, otherwise non-negative and equal to one of the two differences |
| Lsd.AbsDiffSymmetric | src/stat_methods/lsd.py:72 | the difference does not depend on the order of the two means |
| Lsd.Verdict | src/stat_methods/lsd.py:80-85 | "significantly different" exactly when neither the difference nor the critical value is NaN and the difference is at least the critical value; otherwise "not significantly different" |
| Lsd.PairRow | src/stat_methods/lsd.py:68 | the inner loop for i emits (i, j) for j = i+1 .. k-1, in order |
| Lsd.PairsBefore | src/stat_methods/lsd.py:67-68 | the pairs emitted before row i all have i' < i and i' < j < k |
| Lsd.PairsOf | src/stat_methods/lsd.py:67-68 | every emitted pair has i < j < k |
| Lsd.PairsBeforeSize | src/stat_methods/lsd.py:67-68 | after i outer turns the loop has emitted i(2k - i - 1)/2 pairs |
| Lsd.PairsOfSize | src/stat_methods/lsd.py:67-68 | the loop emits k(k-1)/2 pairs |
| Lsd.PairsBeforeMembers | src/stat_methods/lsd.py:67-68 | (a, b) is emitted before row i exactly when a < i and a < b < k |
| Lsd.PairsOfMembers | src/stat_methods/lsd.py:67-68 | (a, b) is emitted exactly when a < b < k |
| Lsd.PairsBeforeOrdered | src/stat_methods/lsd.py:67-68 | the pairs before row i come in loop order |
| Lsd.PairsOfOrdered | src/stat_methods/lsd.py:67-68 | the pairs come ordered by i, then by j, so none is emitted twice |
| Lsd.SummaryEntries | src/stat_methods/lsd.py:64-95 | the four columns have k(k-1)/2 entries, and entry p of each is about the p-th pair: its label, |mean_i - mean_j|, critical(n_i, n_j) and the verdict |
| Lsd.NaNCriticalNeverSignificant | src/stat_methods/lsd.py:76-85 | with a NaN critical value for every pair (a within-groups dof of 0), every verdict is "not significantly different" |
| Lsd.ZeroDivisionExactly | src/stat_methods/lsd.py:74-76 | the table divides by zero exactly when some emitted pair has an empty group |
| Lsd.EmptyPairExists | src/stat_methods/lsd.py:67-76 | with a NaN group among at least two, some emitted pair contains it |
| Lsd.EmptyGroupInPair | src/stat_methods/lsd.py:74-76 | a pair with an empty group means there is a NaN group among at least two |
| Lsd.EntriesNoEmptyGroup | src/stat_methods/lsd.py:64-77 | once the loop has run over every pair, no group is NaN-only |
| Lsd.EntriesComplete | src/stat_methods/lsd.py:64-95 | once both loops have run over every pair, the four lists are those whose entry p describes the p-th pair |
| Lsd.PairLoop | src/stat_methods/lsd.py:64-77 | the nested loop either stops at a pair with an empty group (ZeroDivisionError) or has appended the entries of every pair, in loop order |
| Lsd.RowLoop | src/stat_methods/lsd.py:68-77 | the inner loop for i appends the entries of (i, i+1) .. (i, k-1), or stops at the first pair with an empty group |
| Lsd.VerdictLoop | src/stat_methods/lsd.py:80-85 | the second loop appends one verdict per (difference, critical value), in order |
| Lsd.VerdictStep | src/stat_methods/lsd.py:81-85 | appending the next verdict keeps the verdicts before it |
| Lsd.PairRowNext | src/stat_methods/lsd.py:68 | one more inner turn extends the emitted pairs by (i, j) |
| Lsd.PairsBeforeAll | src/stat_methods/lsd.py:67 | when the outer loop stops, it has emitted every pair |
| Lsd.EntriesSnoc | src/stat_methods/lsd.py:70-77 | appending the entry of a pair keeps the lists describing the pairs emitted so far |
| Lsd.LabelSplits | src/stat_methods/lsd.py:70 | every label that table() writes contains " vs. ", so the split in plot() has a second piece |
| Lsd.LabelRoundTrip | src/stat_methods/lsd.py:70 | the split gives back the two names when the first's earliest " vs. " is the separator and the second has none |
| Lsd.LabelSplitCounterexample | src/stat_methods/lsd.py:107-108 | names "x vs." and "y", neither containing " vs. ", come back from the split as "x" and "vs. y" |
| Lsd.OutcomeLabelsSplit | src/stat_methods/lsd.py:105-108 | every label of a successful table() can be split into two pieces |
| Lsd.Tagged | src/stat_methods/lsd.py:112 | each selected row gains the comparison number as its last cell |
| Lsd.TagsDiffer | src/stat_methods/lsd.py:112 | two comparisons get the same tag only when they are the same comparison |
| Lsd.TaggedFilter | src/stat_methods/lsd.py:112 | filtering rows tagged m by tag n keeps all of them when m = n and none otherwise |
| Lsd.TaggedConcat | src/stat_methods/lsd.py:112-114 | tagging distributes over concatenation |
| Lsd.BlocksByTag | src/stat_methods/lsd.py:114-116 | filtering the concatenated comparisons by tag n gives back the n-th block, tagged |
| Lsd.ChosenAllAt | src/stat_methods/lsd.py:105-114 | the n-th selection is the rows of the two names that label n splits into |
| Lsd.ChosenAllNext | src/stat_methods/lsd.py:105-114 | selecting for one more label appends that label's selection |
| Lsd.ChosenGroups | src/stat_methods/lsd.py:107-113 | when two names split back cleanly, a label selects exactly the rows of its two groups, the first group's first |
| Lsd.GatherLoop | src/stat_methods/lsd.py:105-114 | the loop runs once per label and gathers the tagged selections in label order |
| Lsd.PlotSelection | src/stat_methods/lsd.py:105-116 | in plot()'s frame, the rows tagged n are exactly the n-th selection, tagged; no row carries a larger number |
| Lsd.IntendedChosen | src/stat_methods/lsd.py:105-114 | the corrected selection has one block per emitted pair |
| Lsd.IntendedChosenAt | src/stat_methods/lsd.py:105-114 | the corrected p-th block is the rows of the p-th pair's two groups |
| Lsd.IntendedSelection | src/stat_methods/lsd.py:105-116 | with the corrected selection, the rows tagged n are the rows of the n-th pair's two groups, whatever their names |
| Lsd.IntendedSelectionSize | src/stat_methods/lsd.py:105-116 | ... and there are n_i + n_j of them |
| Lsd.FishersLsd.constructor | src/stat_methods/lsd.py:20-25 | the instance keeps the rows whose groupby cell equals groupby_value, and the given names |
| Lsd.FishersLsd.Create | src/stat_methods/lsd.py:13-25 | RuntimeError and no instance when the data is not a DataFrame, KeyError without the groupby column, otherwise an instance over the slice |
| Lsd.FishersLsd.Table | src/stat_methods/lsd.py:27-97 | the loops compute the table, or KeyError for a missing groupby column, the model fit's error for a missing treatment or response column or a non-numeric response, ZeroDivisionError for a pair with an empty group |
| Lsd.FishersLsd.Plot | src/stat_methods/lsd.py:99-116 | plot() gathers each label's tagged selection; table()'s errors pass through, and no label at all fails the concat |
| RawData.Ordinal | src/processing/raw_data_processing.py:98 | a 2018 ID maps to its 1-based position among the distinct 2018 IDs |
| RawData.OrdinalOrder | src/processing/raw_data_processing.py:98 | two IDs get the same number exactly when they are the same ID, and an earlier first appearance gets a smaller one |
| RawData.OrdinalOnto | src/processing/raw_data_processing.py:98 | every number 1..(distinct 2018 IDs) is given to some ID |
| RawData.YearRows | src/processing/raw_data_processing.py:95-100 | the kept rows are the "2018" rows and the "2019" rows, no others |
| RawData.CreateId | src/processing/raw_data_processing.py:94-102 | KeyError for the first of year, Client ID, Zip Code that is missing; otherwise the same columns over the 2018 and 2019 rows |
| RawData.CreateIdRows | src/processing/raw_data_processing.py:95-100 | row r of the result is a kept input row, 2018 rows first, and each column other than Client ID carries its cell |
| RawData.NewIdFormat | src/processing/raw_data_processing.py:98-101 | a 2018 ID becomes ordinal + zip prefix + "2018", a 2019 ID becomes its text + zip prefix + "2019" |
| RawData.CreateIdFormat | src/processing/raw_data_processing.py:98-101 | the Client ID cell of every result row has that format |
| RawData.DropName | src/processing/raw_data_processing.py:108 | dropping a label fails with KeyError exactly when no column carries it |
| RawData.DropEachStuck | src/processing/raw_data_processing.py:107-108 | once a drop of the loop has failed, the later labels are never reached |
| RawData.DropFourthFromEnd | src/processing/raw_data_processing.py:109 | with fewer than four columns `iloc[:, -4:-3]` is empty and nothing is dropped |
| RawData.RemoveColumns | src/processing/raw_data_processing.py:105-110 | the loop of drops computes remove_columns, stopping at the first KeyError |
| RawData.RemoveColumnsLayout | src/processing/raw_data_processing.py:105-110 | with 37 distinct leading labels the result is columns 0..4, 19..32 and 34..36: 22 columns |
| RawData.DropBlock | src/processing/raw_data_processing.py:107-108 | after k drops of the loop, columns 5 .. 5+k-1 are gone and the others kept |
| RawData.DropNext | src/processing/raw_data_processing.py:107-108 | the k-th drop removes the column that by then sits at position 5 |
| RawData.DistinctDrop | src/processing/raw_data_processing.py:107-109 | dropping columns keeps the labels distinct |
| RawData.Relabel | src/processing/raw_data_processing.py:115-122 | each label is mapped through the header table, and the cells are untouched |
| RawData.RelabelIdempotent | src/processing/raw_data_processing.py:115-122 | renaming twice is renaming once |
| RawData.NewLabelIdempotent | src/processing/raw_data_processing.py:116-121 | no new header is itself renamed |
| RawData.RelabelFinds | src/processing/raw_data_processing.py:116-121 | each of the five source headers is found under its new name afterwards |
| RawData.SetCells | src/processing/raw_data_processing.py:128 | `df[col] = ...` gives one column new cells and leaves the labels and every other column alone |
| RawData.MapCells | src/processing/raw_data_processing.py:130-131 | an element-wise operation gives cell i the image of cell i |
| RawData.ZipStep | src/processing/raw_data_processing.py:128-131 | KeyError exactly when there is no zip_code; otherwise only its cells change, each to its prefix before `.` |
| RawData.ParseYears | src/processing/raw_data_processing.py:134-138 | the column parses exactly when every cell does, each to its stripped integer; otherwise ValueError |
| RawData.ParseYearsError | src/processing/raw_data_processing.py:134-138 | the ValueError names the stripped text of a cell that does not parse |
| RawData.YearsStep | src/processing/raw_data_processing.py:134-138 | KeyError without years_at_camp; success means every cell parsed and only that column changed |
| RawData.RaceStep | src/processing/raw_data_processing.py:141-164 | KeyError exactly when there is no race/ethnicity; otherwise only its cells change, each to the group of its rewritten text |
| RawData.ScoreCols | src/processing/raw_data_processing.py:176-178 | the loop scores exactly the columns in its range and leaves the others alone |
| RawData.FillColumn | src/processing/raw_data_processing.py:182 | no mode exactly when every cell is NaN; otherwise no NaN is left and the present cells are kept |
| RawData.FillsAt | src/processing/raw_data_processing.py:182 | the fill of column j is that column filled with its own mode |
| RawData.FillCols | src/processing/raw_data_processing.py:181-182 | the fill loop keeps the layout and touches no column outside its range |
| RawData.FillColsFacts | src/processing/raw_data_processing.py:181-182 | no exception exactly when every column has a mode, and then each holds its fill; otherwise KeyError names the first column without one |
| RawData.FillStep | src/processing/raw_data_processing.py:182 | one turn of the fill loop fills column j, still as it came in, or raises for it |
| RawData.FillColsStuck | src/processing/raw_data_processing.py:181-182 | after the loop has raised, later columns change nothing |
| RawData.ClientFirst | src/processing/raw_data_processing.py:192-193 | moving client to the front fails with KeyError exactly when there is no client column |
| RawData.ClientFirstNames | src/processing/raw_data_processing.py:192-193 | with distinct labels, the move keeps the width, puts client first and the other labels in their order |
| RawData.ClientFirstMembers | src/processing/raw_data_processing.py:192-193 | with distinct labels, the move keeps every column |
| RawData.Rotated | src/processing/raw_data_processing.py:185-189 | part-way through the move loop the frame keeps its width |
| RawData.RotatedDistinct | src/processing/raw_data_processing.py:185-189 | the moves keep the labels distinct |
| RawData.RotatedStep | src/processing/raw_data_processing.py:187-188 | popping column m + i and inserting it at i advances the rotation by one |
| RawData.RotatedAll | src/processing/raw_data_processing.py:185-189 | when the loop ends, the last columns are at the front and the rest follow, each group in its order |
| RawData.MoveTo | src/processing/raw_data_processing.py:187-188 | `insert(i, name, pop(name))` keeps the width and puts the column at i |
| RawData.MoveStep | src/processing/raw_data_processing.py:185-189 | one turn of the loop pops the label of column m + i and inserts it at i |
| RawData.MovedNames | src/processing/raw_data_processing.py:185-189 | after the loop the labels are the last three followed by the others, still distinct |
| RawData.Recoded | src/processing/raw_data_processing.py:128-164 | the first three steps keep the layout and every other column; KeyError at the zip step exactly when there is no zip_code; success means all three columns exist |
| RawData.Answered | src/processing/raw_data_processing.py:176-182 | scoring and filling keep the layout |
| RawData.AnsweredFacts | src/processing/raw_data_processing.py:176-182 | they leave every other column alone, raise only for a missing mode, and leave no NaN in a filled column |
| RawData.Prepare | src/processing/raw_data_processing.py:128-182 | the steps before the moves change cells and never the layout |
| RawData.PrepareKeeps | src/processing/raw_data_processing.py:128-182 | they change only the columns they touch |
| RawData.PrepareLabels | src/processing/raw_data_processing.py:128-164 | an exception at the zip step means there is no zip_code; getting through means the zip, years and race columns exist |
| RawData.PrepareFilled | src/processing/raw_data_processing.py:181-182 | getting through leaves no NaN in columns 5..18 |
| RawData.FinishOrder | src/processing/raw_data_processing.py:185-193 | the moves raise only without client; otherwise client comes first and the other labels follow in the order the loop left them |
| RawData.FinishColumns | src/processing/raw_data_processing.py:185-193 | the moves keep the columns and only reorder them |
| RawData.CleanOrder | src/processing/raw_data_processing.py:126-195 | a cleaned frame has the same width, client first, then the last three labels and the rest in order; once the preparation is through only a missing client raises |
| RawData.PreparedAt | src/processing/raw_data_processing.py:128-182 | with distinct labels, the prepared column with the label of input column j is prepared column j |
| RawData.CleanFilled | src/processing/raw_data_processing.py:181-195 | a cleaned frame has no NaN in the columns that were at positions 5..18 |
| RawData.CleanKeeps | src/processing/raw_data_processing.py:126-195 | a column that clean_data does not rewrite comes out unchanged, only moved |
| RawData.Frame.Rename | src/processing/raw_data_processing.py:113-123 | rename_columns changes the frame's labels in place by the header table |
| RawData.Frame.RecodeColumns | src/processing/raw_data_processing.py:128-164 | the zip, years and race steps write their columns back, stopping at the first exception |
| RawData.Frame.ScoreAnswers | src/processing/raw_data_processing.py:176-178 | the score loop rewrites the columns at -6:-3 in place |
| RawData.Frame.FillAnswers | src/processing/raw_data_processing.py:181-182 | the fill loop fills columns 5..18 in place, stopping at the first KeyError |
| RawData.Frame.AnswerColumns | src/processing/raw_data_processing.py:176-182 | the score loop, then the fill loop |
| RawData.Frame.MoveLastToFront | src/processing/raw_data_processing.py:185-189 | the pop/insert loop with its moving start_idx puts the last three columns in front, in their order |
| RawData.Frame.MoveColumns | src/processing/raw_data_processing.py:185-193 | the move loop, then client to the front, or KeyError without client |
| RawData.Frame.CleanData | src/processing/raw_data_processing.py:126-195 | clean_data changes the frame step by step; an exception leaves the earlier steps done |

## Left out

- File and Excel I/O (`import_data`, `load_data`, `main`) and the module-level `os.chdir` are not part of this model. They are plumbing with nothing to state.
- The one-way ANOVA that yields mse and the within-groups dof, and `stats.t.ppf` with `sqrt` in the critical value, are floating-point library code. They enter as the parameter `critical(n_i, n_j)`, whose `None` stands for a NaN critical value. The verdict and the bookkeeping are proved for any such function.
- Lsd.FishersLsd.Table: failures of the ANOVA fit itself (`ols(...).fit()` and `anova_lm` at src/stat_methods/lsd.py:51-54, for example on a slice with no rows) are not modelled. Where the fit would raise on a slice with no rows, the model returns Success with an empty table.
- Python's `str()` of a float (shortest round-trip repr) enters as the parameter `floatText`. Float arithmetic is modelled on `real`.
- Text.Lower: lower-cases ASCII letters only. Python's `str.lower` also maps non-ASCII capitals.
- Text.ParseInt: accepts an optional sign and decimal digits. Python's `int()` also accepts surrounding whitespace and underscores between digits.
- Cross-type equality (`1 == 1.0` is true in pandas) is not modelled. Two cells compare equal only when they are the same kind of value.
- The dtype changes pandas makes when concatenating or assigning columns (int to float once a NaN appears, object columns) are not modelled. Cells keep their kind.
- Errors of the `.str` accessor on a column without any text, and `DataFrame.replace` with NaN keys, are not modelled. A non-text cell becomes NaN under `.str.lower()`.
- RawData.Frame.CleanData, RawData.Frame.RecodeColumns, RawData.Frame.AnswerColumns, RawData.Frame.ScoreAnswers, RawData.Frame.FillAnswers, RawData.Frame.MoveLastToFront and RawData.Frame.MoveColumns: require distinct column labels. With a repeated label, `df[col]` is a DataFrame, so `.str.lower()` raises AttributeError, `mode()[0]` is not a column's mode and `pop` removes several columns. That behaviour is not modelled.
- RawData.Recoded, RawData.ScoreCols, RawData.FillCols, RawData.Answered and RawData.Prepare: read `df[col]` as the one column at a position. They agree with the source only when the labels are distinct, which is what the Frame methods above require.
- Modes.Mode: pandas sorts the modes of a column that mixes kinds with Python's comparison. The model orders numbers before texts, which is one consistent order, but it is not derived from pandas.
- The Plotly figure in `plot()` (Violin traces, colours, legend, `fig.show()`) is not part of this model. Only the frame the figure is drawn from is modelled. The six-entry colour lists limit the plot to four groups, and that limit is not modelled.
- The trailing comma that makes `self.groupby_value` a tuple affects only the plot title, which is not modelled.
- Lsd.FishersLsd.Table: a missing treatment or response column, and a text response, are reported as MissingColumn and NonNumericResponse. In the source these are the error raised by the model fit at src/stat_methods/lsd.py:51, whose exception type is not modelled. When both columns are missing the model reports the treatment; which column the fit names first is left open.
- plot() writes the `comparison` column over an existing column of that name. The model assumes the slice has none and appends the column.
- RawData.FillCols: it computes each column's fill from the frame as the loop found it. This is equivalent to the source, because a column's fill depends only on its own cells, and the loop has not touched them before it reaches them.
- RawData.ScoreCols: the lower-casing and the `score_dict` replacement are applied as one element-wise map, which gives the same cells as the two statements.
- RawData.ParseYearsError: states that the ValueError names some cell that does not parse, not that it is the first such cell.

## Findings

| source | as written | input that shows it | evidently intended | confidence | as-written member | corrected member |
|---|---|---|---|---|---|---|
| src/stat_methods/lsd.py:70, src/stat_methods/lsd.py:107-111 | plot() recovers the two groups of comparison n by splitting the label `f'{A} vs. {B}'` on `' vs. '` and taking pieces 0 and 1 | groups named `"x vs."` and `"y"`: neither contains `" vs. "`, but the label `"x vs. vs. y"` splits into `"x"` and `"vs. y"`, so comparison n selects the rows of two groups that are not in the pair (here, none) | the rows tagged n are those of the n-th pair's two groups, whatever their names | not executed | Lsd.LabelSplitCounterexample | Lsd.IntendedSelection |

Lsd.FishersLsd.Plot models `plot()` as written. Lsd.PlotSelection states what that selection is, and Lsd.LabelRoundTrip states when it agrees with the intended one.
