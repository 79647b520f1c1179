# BITS HD 2024 admissions dashboard — a verified model of its data pipeline

`app.py` is a Streamlit dashboard over a JSON export of a community sheet
of BITS HD 2024 admissions. Underneath the Streamlit and Plotly calls is a
short data pipeline, and that pipeline is what this project models in Dafny:

- **Loading** (`load_data`). Every score cell is read with the regular
  expression `\d+\.?\d*`, keeping the leftmost greedy match. A cell with no
  match scores 0. The "HD Score" is the larger of the two HD paper scores.
  The branch and campus cells are converted to text and stripped.
- **Mode split** (`split_modes`):
  - the GATE admissions are the rows with a positive GATE score;
  - the BITS-HD test admissions are the rows with GATE score 0 and a
    positive HD score;
  - both subsets drop duplicate rows, keeping the first occurrence.
- **Sidebar selection** (`apply_filters`). The selection is a set of
  branches, a set of campuses and a drill-down branch ("All branches"
  means none). Here these are an explicit `Selection` value instead of
  globals.
- **Tab tables**:
  - the branch and campus cutoff table (min, max, mean, count per
    (branch, campus), in sorted key order);
  - the mean score per branch;
  - the entry counts per (campus, branch) and per branch.
- **Option lists**: the sidebar's sorted lists of distinct branches and
  campuses.
- **Raw-data view**: the filtered frame of the selected admission mode.

Modules:

- `Wrappers`: `Option`.
- `Text`: Python's `str.strip` and code-point string order.
- `Scores`: the regex scanner and the exact decimal value of a match.
- `Records`: raw and loaded rows, `Normalize`, and `LoadData` with its
  column-stripping loop.
- `Frames`: boolean-mask indexing, `drop_duplicates`, and subsequences.
- `Modes`: `split_modes`.
- `Filters`: `apply_filters`.
- `Groups`: `groupby` keys and the option lists.
- `Aggregates`: the tables.
- `Dashboard`: how the tabs and the raw-data view are put together.

A frame is the sequence of its rows. Scores are exact `real`s.

## Model

| member | source | states |
|---|---|---|
| Text.StripSpec | app.py:49-51 | `str.strip` leaves no whitespace (Python's `isspace` set) at either end and removes only leading and trailing whitespace |
| Text.StripIdempotent | app.py:49-51 | stripping a stripped field changes nothing |
| Scores.SearchSpec | app.py:33-41 | the scan finds no match exactly when the text has no digit; otherwise it finds a match of `\d+\.?\d*` that starts leftmost and is the longest there |
| Scores.CleanNumeric | app.py:33-41 | the cleaned score is never negative, and is 0 when the text has no digit (the `NaN` that `fillna(0.0)` replaces) |
| Scores.CleanNumericReadsDecimal | app.py:33-41 | a whole number written in decimal is read back as itself when the text before it has no digit and the text after it does not continue the numeral |
| Scores.CleanNumericReadsFraction | app.py:33-41 | a decimal number with a full stop and fraction digits is read back as the whole part plus the fraction digits over ten to their count, which is the digits without the full stop over that power of ten, when the text before it has no digit and the text after it does not start with one |
| Scores.NumeralValueOfFraction | app.py:35-38 | a matched numeral with a full stop is worth its whole digits plus its fraction digits over ten to their count, which equals all its digits, read without the full stop, over that power of ten |
| Scores.DigitsValueAppend | app.py:35-38 | the value of two digit strings written one after the other is the first value shifted left by the second's length plus the second value |
| Scores.CleanNumericExample | app.py:33-41 | "55.5 (General)" gives 55.5; "0" and "None" give 0 |
| Records.Max | app.py:47 | the row-wise `max(axis=1)` is at least both HD scores and equal to one of them |
| Records.NormalizeSpec | app.py:43-51 | a loaded row has non-negative scores, an HD score that is the larger HD paper score, and stripped branch and campus; digit-free score cells give 0; other columns are kept |
| Records.StripColumnSpec | app.py:49-51 | every cell of a stripped column is text with no whitespace at either end, cut out of the original cell's text by removing only leading and trailing whitespace; a missing cell becomes "None" |
| Records.LoadData | app.py:15-53 | the loaded frame has one row per raw row, in order, and each is that raw row normalised; the loop over the two text columns strips the branch column and then the campus column |
| Frames.SelectSpec | app.py:58-59 | boolean indexing keeps every masked row and only masked rows |
| Frames.SelectIsSubsequence | app.py:58-59 | boolean indexing keeps the frame's order |
| Frames.DropDuplicatesSpec | app.py:58-59 | `drop_duplicates()` leaves no row twice, loses no distinct row and adds none |
| Frames.DropDuplicatesKeepsFirst | app.py:58-59 | `drop_duplicates()` keeps exactly the first occurrence of each row, in order (`keep="first"`) |
| Frames.DropDuplicatesOfPrefix | app.py:58-59 | what is kept from a prefix of the frame is a prefix of what is kept from the whole frame |
| Frames.SelectExclusiveLength | app.py:58-59 | two masks that never hold at the same position select at most as many rows as the frame has |
| Modes.SplitModesSpec | app.py:56-60 | a row is in the GATE subset exactly when it is an input row with GATE > 0, and in the HD subset exactly when it has GATE = 0 and HD > 0; the subsets are disjoint; rows with both scores 0 are in neither; neither subset repeats a row |
| Modes.SplitModesOrder | app.py:56-60 | each subset is a subsequence of the input, and is the selected rows with exactly their first occurrences kept |
| Filters.ApplyFilters | app.py:108-112 | building the membership mask, narrowing it with `&=` to the drill-down branch, and indexing with it gives the rows that pass the selection, in order |
| Filters.FilteredSpec | app.py:108-112 | a row is kept exactly when it is an input row whose branch and campus are selected and whose branch is the drill-down branch unless that is "All branches"; the result is a subsequence of the input |
| Filters.FilteredCounts | app.py:108-112 | a row that passes the selection is kept as many times as it occurs in the input, and a row that does not pass is never kept |
| Filters.FilteredEmptySelection | app.py:82-93 | an empty branch or campus selection leaves no rows |
| Filters.FilteredIdempotent | app.py:108-112 | filtering twice with the same selection equals filtering once |
| Filters.Meet | app.py:108-112 | the combined selection passes exactly the rows that pass both selections |
| Filters.FilteredCompose | app.py:108-112 | filtering by one selection and then another equals filtering once by their combination |
| Filters.FilteredSamePasses | app.py:108-112 | selections that pass the same rows filter every frame alike |
| Filters.FilteredMonotone | app.py:445-450 | filtering a subsequence of a frame gives a subsequence of the filtered frame |
| Groups.Insert | app.py:209-213 | adding a key to a sorted, distinct key list keeps it sorted and distinct, and adds only that key |
| Groups.GroupKeys | app.py:209-213 | the `groupby` keys are strictly ascending in tuple order, and are exactly the keys of the frame's rows |
| Groups.Members | app.py:209-213 | a group holds exactly the frame's rows with its key |
| Groups.MembersCounts | app.py:209-213 | a group holds each row with its key as many times as the frame does, and no row with another key |
| Groups.KeyLessTransitive | app.py:213 | the tuple order used to sort keys is transitive |
| Groups.KeyLessTotal | app.py:213 | any two different keys are ordered one way or the other |
| Groups.BranchOptionsSpec | app.py:73 | `all_branches` is sorted in code-point order and holds exactly the branches that occur |
| Groups.CampusOptionsSpec | app.py:74 | `all_campuses` is sorted in code-point order and holds exactly the campuses that occur |
| Groups.OptionListSpec | app.py:73-74 | an option list is sorted, holds no value twice, and holds exactly the values the column takes |
| Aggregates.Lowest | app.py:210 | the group minimum is a score of the group and at most every score of it |
| Aggregates.Highest | app.py:210 | the group maximum is a score of the group and at least every score of it |
| Aggregates.MeanBetweenLowestAndHighest | app.py:210 | a group mean lies between the group's minimum and maximum |
| Aggregates.CutoffTableAscending | app.py:208-213 | the cutoff table is in strictly ascending (branch, campus) order, so each key appears once |
| Aggregates.CutoffTableCover | app.py:208-213 | the cutoff table has a row for every (branch, campus) pair that occurs |
| Aggregates.CutoffTableOccur | app.py:208-213 | the cutoff table has no row for a (branch, campus) pair that does not occur |
| Aggregates.CutoffTableStats | app.py:208-213 | each cutoff row has count ≥ 1 and min ≤ mean ≤ max; min and max are scores of rows in the group; every score of the group lies between them |
| Aggregates.CutoffTableTotal | app.py:208-213 | the cutoff counts add up to the number of rows; the table is empty exactly when the frame is |
| Aggregates.CutoffTablePositive | app.py:208-213 | when every score is positive, every cutoff minimum and mean is positive |
| Aggregates.CutoffExample | app.py:208-213 | (CS, Pilani) with 70 and 80 and (CS, Goa) with 60 give the rows (CS, Goa, 60, 60, 60, 1) then (CS, Pilani, 70, 80, 75, 2) |
| Aggregates.BranchMeansAscending | app.py:224-228 | the mean-per-branch table is in strictly ascending branch order |
| Aggregates.BranchMeansCover | app.py:224-228 | the mean-per-branch table has a row for every branch that occurs |
| Aggregates.BranchMeansOccur | app.py:224-228 | the mean-per-branch table has no row for a branch that does not occur |
| Aggregates.BranchMeansWithin | app.py:224-228 | each branch mean lies between the lowest and the highest score of that branch |
| Aggregates.BranchMeansPositive | app.py:224-228 | when every score is positive, every branch mean is positive |
| Aggregates.CountTablePositive | app.py:254-258 | every count of a `size()` table is at least 1 and its key occurs in the frame |
| Aggregates.CountTableKeys | app.py:278-282 | a `size()` table lists every occurring key once, in strictly ascending order |
| Aggregates.CountTableTotal | app.py:254-258 | the counts of a `size()` table add up to the number of rows; the table is empty exactly when the frame is |
| Aggregates.BranchCountsAddUp | app.py:254-282 | a branch's number of rows is the sum of the (campus, branch) counts for that branch |
| Aggregates.BranchTableMatchesCampusTable | app.py:254-282 | each per-branch count is the subtotal of the (campus, branch) table for that branch |
| Dashboard.ShowTab | app.py:155-160 | a tab shows only a notice when its filtered subset is empty, and otherwise its tables, whose counts each add up to the number of entries |
| Dashboard.ViewsDisjoint | app.py:155-301 | no row is shown in both the GATE tab and the HD tab |
| Dashboard.GateTabPositive | app.py:155-230 | every GATE-tab row is an input row that passes the selection and has positive GATE score, so every cutoff minimum, cutoff mean and branch mean there is positive |
| Dashboard.HdTabPositive | app.py:300-375 | every HD-tab row has GATE 0 and positive HD score, so every cutoff minimum, cutoff mean and branch mean there is positive |
| Dashboard.ShareWithinTotal | app.py:130-136 | the GATE and HD counts of the "GATE vs HD Share" metric together never exceed the total record count |
| Dashboard.RawViewWithinFiltered | app.py:445-450 | in every admission mode, the raw-data view is a subsequence of the filtered frame and shows only rows that pass the selection |

The HD tab repeats the GATE tab's tables with "HD Score" as the column
(app.py:353-358, 369-375, 399-403, 423-427). The same lemmas cover it with
`ScoreField.HdScore`.

## Left out

- Reading the JSON file, the missing-file check, and `st.error` /
  `st.stop` (app.py:17-18, 64-66) are I/O. `LoadData` starts from the
  parsed rows.
- The column-stripping and renaming of headers (app.py:20-31) is a fixed
  mapping with no logic. Rows have typed fields instead. The
  `if col in df_.columns` test (app.py:50) therefore always holds and is not modelled.
- Caching by `@st.cache_data` (app.py:14) is a performance feature.
- Charts, layout, histogram binning, hover templates and every `st.*` /
  `px.*` call (app.py:145-149, 167-204, 232-248, 260-295 and the HD copies)
  are UI and foreign-library calls.
- The four metrics at the head of each tab are not modelled (app.py:161-165,
  306-310): the entry count, the mean through `format_mean`'s
  `round(..., 2)` (app.py:141-142), and the `int(...)` of the highest and
  lowest score. They are floating-point presentation of the frame that
  `Dashboard.ShowTab` takes. The means in the tables stay exact.
- The summary metrics "Unique Branches" and "Unique Campuses"
  (app.py:131-132) are not modelled beyond the option lists.
- The re-sort of the mean-per-branch table by mean (app.py:230, 375) is
  display ordering on floats. `BranchMeans` is the table before it.
- `main.py` is a CSV-to-JSON conversion made only of pandas I/O calls.
- Scores.CleanNumeric: `\d` is read as the ASCII digits only. Python's
  regex also matches other Unicode decimal digits.
- Scores.CleanNumeric: `pd.to_numeric` yields a 64-bit integer or float.
  Here it is the exact decimal value, so width, rounding and overflow of
  very long numerals are not modelled.
- Records.Normalize: a score cell that JSON gives as a number is modelled
  by the text `str()` prints for it. A missing cell prints as "None".
- Groups.BranchOptions: `dropna()` follows `astype(str)`, so it drops
  nothing. A missing branch or campus is listed as the option "None".
  The model follows that.

## Notes on the source

The cutoff table is sorted by `["ME Branch", "Campus"]` (app.py:213), so
within one branch the campuses appear in code-point order: (CS, Goa) comes
before (CS, Pilani), whatever order the rows arrive in.
`Aggregates.CutoffExample` states that order.
