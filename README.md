# AI data analysis agent: cleaning and profiling core

This project models the two agents that sit between an uploaded CSV file and the report the
application shows:

- **The data cleaner** (`agents/data_cleaner.py`). It normalises the user's cleaning plan, which
  maps a column to "mean", "median", "mode" or anything else. It then processes the table in
  four passes:
  1. It drops every row with more than one missing cell.
  2. It fills the single gap of each remaining row according to the plan, logging each fill or
     missing plan.
  3. It fills every remaining gap with a sentinel: 0.0 in numeric columns, "Unknown" elsewhere.
  4. It renumbers the rows.

  It also converts the columns whose name mentions "date" to datetimes.
- **The EDA agent** (`agents/eda_agent.py`). It covers:
  - the "is EDA worth it" verdict;
  - the map of missing counts per column;
  - the duplicate count;
  - the per-column summary: distinct values, mode, cardinality ratio and dominance ratio;
  - the IQR outlier counts;
  - the JSON sanitiser;
  - which charts the report draws, and in what order.

A table (module `Frame`) is a list of column names, one dtype tag per column (numeric, object,
datetime) and the rows. A cell is missing (NaN/None/NaT), a number or a text. The tag is explicit
because pandas keeps a column's dtype when rows are dropped, whatever the remaining values are.

Modules:
- `Frame`: the table, column access and counting, and generic helpers for a dictionary or list
  built column by column.
- `Strings`: Python's `strip` (with the full `str.isspace` set of whitespace characters),
  `lower` restricted to the ASCII letters, and `in` on strings.
- `Stats`: mean, median, linear-interpolation quantiles, sorting and the mode.
- `DataCleaner`: `_compute_fill_value` and the passes of `clean_data`.
- `DateColumns`: `check_for_date`.
- `EdaProfile`: `needs_eda`, `get_missing_columns`, `detect_duplicates`, `get_data_summary` and
  `detect_outliers`.
- `Charts`: the chart list of `perform_eda`.
- `Sanitize`: `sanitize_for_json`.

Modelling choices:
- **Loops.** The loops that update state are methods with loop invariants:
  - `CleanData` updates the rows, the dtypes and the log in place.
  - `CheckForDate` reassigns one column at a time.
  - The chart loops append, then insert the heatmap at the front.
  - `get_data_summary` and `detect_outliers` run their loops through
    `Frame.CollectValues` and `EdaProfile.NumericColumns`. These are generic versions of the
    same loop, and the table-specific per-column computation is passed to them as a function.

  Each method is proved equal to a specification function. The properties are proved about
  that function.
- **Mode.** pandas sorts the modes and takes the first, so the mode is the least of the most
  frequent values under a fixed total order on cells. In this order numbers come before texts.
  pandas itself cannot sort a column that mixes both.
- **Mean or median with no numbers.** The mean or median of a numeric column without numbers is
  NaN. It is modelled as a missing cell, so the residual pass then fills it with 0.0.
- **Writing text into a column.** Writing a text into a numeric or datetime column makes that
  column an object column (the `.at` upcast).
- **Audit log.** The audit log holds structured entries (dropped count, fill, or no plan)
  rather than formatted strings.

## Model

| member | source | states |
|---|---|---|
| DataCleaner.NormalizeMethod | agents/data_cleaner.py:21 | a missing method becomes ""; the result has no surrounding whitespace and no upper-case letter |
| DataCleaner.NormalizeIsLoweredStrip | agents/data_cleaner.py:21 | a given method normalises to a stretch of it, each character lower-cased, with only whitespace before and after that stretch |
| DataCleaner.NormalizeIdempotent | agents/data_cleaner.py:21 | normalising an already normalised method changes nothing |
| DataCleaner.NormalizeExample | agents/data_cleaner.py:21 | " MeAn\t" is read as "mean" and a missing method as "" |
| DataCleaner.NormalizeNoBreakSpace | agents/data_cleaner.py:21 | a trailing no-break space is stripped like any other whitespace: "mean\u00a0" is read as "mean" |
| DataCleaner.NormalizePlan | agents/data_cleaner.py:21 | the normalised plan covers the same columns, each mapped to its normalised method |
| DataCleaner.FillValue | agents/data_cleaner.py:6-14 | the fill value is NaN only for the mean or median of a numeric column without numbers; a mean times the count of the numbers is their sum (so it lies within every bound of them); a median is their 0.5 quantile and splits them in half; the mode branches (every "mode", and "mean"/"median" on non-numeric columns) give a most frequent value, or "Unknown" for a column without values; any other method gives 0.0 or "Unknown" by dtype |
| DataCleaner.UnrecognisedFallback | agents/data_cleaner.py:13-14 | an unknown method, "drop" and the empty method give 0.0 in a numeric column and "Unknown" otherwise |
| DataCleaner.KindAfterWrite | agents/data_cleaner.py:40 | writing a text makes the column an object column; anything else keeps its dtype |
| DataCleaner.SurvivorsFrom | agents/data_cleaner.py:24-28 | every kept row has at most one gap and keeps its original index and cells, the kept rows are in ascending index order, and their number is the row count minus the dropped count |
| DataCleaner.DropThreshold | agents/data_cleaner.py:25-28 | a row survives the drop pass exactly when it has at most one missing cell |
| DataCleaner.OnlyGap | agents/data_cleaner.py:34-36 | for a row with one gap, the position of that gap, every other cell being present |
| DataCleaner.FillStep | agents/data_cleaner.py:33-43 | one loop iteration changes no other row, keeps the row's index and every present cell of the row, does nothing to a row without exactly one gap, keeps object-only text and never shortens the log (FillStepLog states what it appends) |
| DataCleaner.FillStepWrites | agents/data_cleaner.py:35-43 | for a row with one gap in a planned column, the iteration writes the fill value computed from the current column (with its original row labels) and method into the gap, updates that column's dtype as the write does, and appends a "filled" entry with the row index, column, value and method; for an unplanned column it changes no cell and no dtype and appends a "no plan" entry |
| DataCleaner.FillFrom | agents/data_cleaner.py:33-43 | the fill loop keeps the row count and the table shape, keeps object-only text and never shortens the log (FillFromLog states what it appends) |
| DataCleaner.FillFromFrame | agents/data_cleaner.py:33-43 | the loop from row `i` on leaves the rows before `i` alone, keeps every row's index and every present cell, and leaves every row without exactly one gap unchanged |
| DataCleaner.FillPrefix | agents/data_cleaner.py:33-43 | the state after the first `k` iterations keeps the shape, and the rows from `k` on are still those of the start |
| DataCleaner.FillPrefixThenRest | agents/data_cleaner.py:33-43 | running the first `k` iterations and then the rest is the whole loop |
| DataCleaner.FillPrefixFinal | agents/data_cleaner.py:33-43 | rows already visited after `k` iterations are final: the whole loop ends with the same first `k` rows |
| DataCleaner.FillPrefixSeen | agents/data_cleaner.py:33-43 | the final row `k` is what iteration `k` makes of it in the state left by the first `k` iterations |
| DataCleaner.FillFromWrites | agents/data_cleaner.py:33-43 | in the final table a planned single gap of row `k` holds the fill value of its column as it stood when the loop reached row `k`, after the earlier rows were filled; an unplanned gap leaves row `k` as it was |
| DataCleaner.ResidualKind | agents/data_cleaner.py:46 | a numeric column stays numeric; a non-numeric column with a gap becomes an object column; a column without gaps keeps its dtype |
| DataCleaner.ResidualKinds | agents/data_cleaner.py:46 | the residual dtype of each column, as ResidualKind gives it |
| DataCleaner.Residual | agents/data_cleaner.py:46-47 | each gap gets the sentinel of its column's dtype (0.0 numeric, "Unknown" otherwise), every other cell is kept, and no cell is missing afterwards; the rows are numbered by position |
| DataCleaner.ResidualWithoutGaps | agents/data_cleaner.py:46 | a table without gaps passes the residual fill unchanged |
| DataCleaner.DropLog | agents/data_cleaner.py:27-29 | the summary line is there exactly when some row was removed, and then it holds the number of rows removed |
| DataCleaner.AfterDrop | agents/data_cleaner.py:24-29 | the state entering the fill loop is well shaped, and only object columns hold text |
| DataCleaner.AfterFill | agents/data_cleaner.py:19-43 | the state leaving the fill loop is well shaped, only object columns hold text, there is one row per survivor, and its log starts with exactly the drop summary |
| DataCleaner.FillSingleGaps | agents/data_cleaner.py:33-43 | the imperative fill loop computes exactly the state the step-by-step specification FillFrom gives |
| DataCleaner.CleanData | agents/data_cleaner.py:17-47 | the imperative passes compute the same table and log as Clean; the output is well formed, has the input's names, has no missing cell, has as many rows as the input minus the dropped ones, and holds every present cell of the k-th surviving row at row k |
| DataCleaner.Clean | agents/data_cleaner.py:17-47 | the cleaned table keeps the names, has one dtype per column, one row per surviving row and no missing cell; its log starts with exactly the drop summary |
| DataCleaner.CleanKeepsSurvivors | agents/data_cleaner.py:24-47 | the k-th output row is built from the k-th surviving row: its present cells are kept, and a surviving row without gaps is output as it was |
| DataCleaner.CleanFillsGap | agents/data_cleaner.py:33-47 | the single gap of a surviving row ends up holding the fill value of its planned method computed when the loop reached that row, or the residual sentinel of the column's dtype when that value is NaN or the column has no plan |
| DataCleaner.ExampleSurvivors | agents/data_cleaner.py:24-28 | in a four-row table where row 2 has two gaps, that row alone is dropped |
| DataCleaner.ExampleMean | agents/data_cleaner.py:8 | the mean of 1, NaN, 3 is 2 |
| DataCleaner.ExampleFillRow1 | agents/data_cleaner.py:35-41 | the row with a gap in "A" gets the mean 2.0 and a "filled" log entry |
| DataCleaner.ExampleFillLoop | agents/data_cleaner.py:33-43 | the whole fill loop on the example fills that one gap and logs that one entry |
| DataCleaner.ExampleNormalizedPlan | agents/data_cleaner.py:21 | the plan {"A": "mean"} is already normalised |
| DataCleaner.ExampleAfterFill | agents/data_cleaner.py:19-43 | dropping then filling the example table gives the expected state and log |
| DataCleaner.ExampleResidual | agents/data_cleaner.py:46-47 | the residual pass leaves the gap-free example rows unchanged |
| DataCleaner.CleanExample | agents/data_cleaner.py:17-47 | the example table cleans to three rows with the gap filled by 2.0, and the log holds "dropped 1" and then the fill of row 1 |
| DataCleaner.CleanWellFormed | agents/data_cleaner.py:46-47 | the cleaned table is well formed, has no gaps and has one row per surviving row |
| DataCleaner.Tags | agents/data_cleaner.py:41-43 | one row-column-planned tag per log entry, in order |
| DataCleaner.OwedFor | agents/data_cleaner.py:35-43 | a row owes one audit line exactly when it has one gap, naming its index, the gap's column and whether the plan covers it |
| DataCleaner.FillStepLog | agents/data_cleaner.py:35-43 | one iteration appends exactly the line its row owes, and never a drop summary |
| DataCleaner.LogsExtend | agents/data_cleaner.py:19-43 | a log that extends one that extends a third also extends the third, and its new part splits at the middle log |
| DataCleaner.FillFromLog | agents/data_cleaner.py:33-43 | the fill loop appends exactly the owed lines of the rows it visits, in row order, with no drop summary |
| DataCleaner.CleanLog | agents/data_cleaner.py:27-43 | the drop summary comes first, with the dropped count, exactly when rows were dropped; the rest of the log is exactly the owed lines of the survivors |
| DataCleaner.GapTagsSound | agents/data_cleaner.py:35-43 | every owed line is owed by some row with one gap |
| DataCleaner.GapTagsAscending | agents/data_cleaner.py:33 | the owed lines follow the ascending order of row indices |
| DataCleaner.GapTagsComplete | agents/data_cleaner.py:35-43 | every row with one gap owes a line naming it |
| DataCleaner.GapTagsExact | agents/data_cleaner.py:33-43 | the owed lines are exactly one per row with a single gap, each naming that gap, "planned" exactly when the plan covers the column, in strictly ascending row order |
| DataCleaner.AuditCompleteness | agents/data_cleaner.py:27-43 | after the optional drop summary, the log has a line for a surviving row exactly when it has exactly one gap; each line names that row's gap, says "filled" exactly when the column is in the plan, and the lines are in strictly ascending row order |
| DateColumns.Coerce | agents/data_cleaner.py:54 | a missing cell stays missing and no converted cell is text |
| DateColumns.WithColumn | agents/data_cleaner.py:54 | only column `j` of each row is replaced |
| DateColumns.CoerceColumn | agents/data_cleaner.py:54 | the converted column holds each cell's conversion |
| DateColumns.CheckForDate | agents/data_cleaner.py:49-57 | exactly the columns whose lower-cased name contains "date" are converted and become datetime columns; every other column and every name is unchanged; the table stays well formed |
| DateColumns.IsDateName | agents/data_cleaner.py:52 | a name is selected exactly when some four consecutive characters of it lower-case to "date" |
| DateColumns.IsDateNameIgnoresCase | agents/data_cleaner.py:52 | a name and its lower-cased form are selected alike |
| DateColumns.SelectionExamples | agents/data_cleaner.py:52 | "Updated" and "ORDER_DATE" are selected and "Day" is not |
| EdaProfile.CountMissingPositive | agents/eda_agent.py:23 | a column's missing count is positive exactly when it has a missing cell |
| EdaProfile.TotalMissingPositive | agents/eda_agent.py:12 | the table's missing count is positive exactly when some cell is missing |
| EdaProfile.GetMissingColumns | agents/eda_agent.py:22-24 | the keys are exactly the columns with at least one missing cell, each mapped to its missing count, which is positive |
| EdaProfile.DuplicateCount | agents/eda_agent.py:34-35 | the count is at most the row count, and it is zero exactly when all rows are distinct |
| EdaProfile.DuplicateCountDistinct | agents/eda_agent.py:34-35 | the duplicate count equals the row count minus the number of distinct rows |
| EdaProfile.NeedsEda | agents/eda_agent.py:11-20 | the verdict is always true; the reason is "missing values" exactly when a cell is missing, and otherwise the first that applies among more than 20 columns (with the count), an object column, and more than 100 duplicate rows, and "clean" when none applies |
| EdaProfile.Decimal | agents/eda_agent.py:15 | the decimal rendering of a count is non-empty, all digits, has no leading zero unless the count is 0, and reads back as the count |
| EdaProfile.Message | agents/eda_agent.py:11-20 | the many-columns reason shows the column count, as decimal digits without a leading zero that read back as that count, between its fixed wording |
| EdaProfile.ColumnsMissingPositive | agents/eda_agent.py:23 | every column's missing count is positive exactly when one of its cells is missing |
| EdaProfile.MissingColumnsNonEmpty | agents/eda_agent.py:22-24 | the missing-column map is non-empty exactly when some cell is missing |
| EdaProfile.MissingReasonAgrees | agents/eda_agent.py:11-24 | the reason is "missing values" exactly when the missing-column map is not empty |
| EdaProfile.Percent | agents/eda_agent.py:50 | a share of `c` out of `n` values with `0 < c <= n` lies in (0, 100] |
| EdaProfile.PercentMonotone | agents/eda_agent.py:50-53 | a larger count has a larger or equal share |
| EdaProfile.Cardinality | agents/eda_agent.py:52 | distinct values over rows lies in (0, 1] for a column with values |
| EdaProfile.Dominance | agents/eda_agent.py:50-53 | the share of the modal value lies in (0, 100], no value has a larger share, and some value has exactly that share |
| EdaProfile.Summarize | agents/eda_agent.py:41-64 | an entry names its column and dtype and holds the number of distinct values, a most frequent value, a cardinality ratio in (0, 1] equal to distinct values over rows, and the largest value share in (0, 100] |
| Frame.CollectValues | agents/eda_agent.py:39-46 | the per-column loop returns, in column order, the entry of every position that has one; ValuesBelowAt and ValuesBelowContains characterise that list |
| EdaProfile.Entries | agents/eda_agent.py:40-46 | a column contributes an entry exactly when it has a non-missing value |
| EdaProfile.Emitted | agents/eda_agent.py:40-46 | every reported column exists and has a value |
| EdaProfile.EmittedExact | agents/eda_agent.py:39-46 | a column is reported exactly when it has a value, once, in column order |
| EdaProfile.GetDataSummary | agents/eda_agent.py:37-65 | the loop returns the list of entries of the columns with values, in column order |
| EdaProfile.SummariesExact | agents/eda_agent.py:39-65 | the k-th entry of the summary is the entry of the k-th reported column, and there is one entry per reported column |
| EdaProfile.Outside | agents/eda_agent.py:76 | the number of values beyond the bounds is at most the number of values |
| EdaProfile.OutsideMonotone | agents/eda_agent.py:76 | widening the bounds can only lower the count |
| EdaProfile.OutlierCount | agents/eda_agent.py:71-76 | the count lies between 0 and the number of present values |
| EdaProfile.OutliersBeyondQuartiles | agents/eda_agent.py:71-76 | every value beyond a fence lies below Q1 or above Q3, because Q1 <= Q3 places the fences outside the quartiles; so there are no more outliers than values outside [Q1, Q3] |
| EdaProfile.OutlierExample | agents/eda_agent.py:71-76 | for 1, 2, 3, 4, 5, 100 exactly one value is an outlier |
| EdaProfile.ExampleQuartiles | agents/eda_agent.py:71-72 | the quartiles of 1, 2, 3, 4, 5, 100 are 2.25 and 4.75 |
| EdaProfile.ExampleOutside | agents/eda_agent.py:74-76 | with fences -1.5 and 8.5 only 100 is outside |
| EdaProfile.ConstantNoOutliers | agents/eda_agent.py:71-76 | a column holding one repeated value has no outliers |
| EdaProfile.NumericPlan | agents/eda_agent.py:69-77 | a column gets a value exactly when it is numeric, namely the statistic of its numbers |
| EdaProfile.NumericColumns | agents/eda_agent.py:68-78 | the loop builds the dictionary with one key per numeric column |
| EdaProfile.DetectOutliers | agents/eda_agent.py:67-78 | returns the outlier dictionary |
| EdaProfile.OutliersExact | agents/eda_agent.py:67-78 | the keys are exactly the numeric columns, each mapped to the number of its values strictly below Q1-1.5·IQR or strictly above Q3+1.5·IQR |
| Stats.Mean | agents/data_cleaner.py:8 | the mean times the number of values is their sum, and the mean lies within any bounds of all the values |
| Stats.Median | agents/data_cleaner.py:10 | at least half the values are <= the median and at least half are >= it, and the median is the 0.5 quantile under linear interpolation |
| Stats.MiddleSplits | agents/data_cleaner.py:10 | the middle element of the sorted values (or the mean of the two middle ones) has at least half the values on each side |
| Stats.Quantile | agents/eda_agent.py:71-72 | a quantile by linear interpolation at position (n-1)·q of the sorted values lies within any bounds of all the values |
| Stats.SortReals | agents/eda_agent.py:71-72 | sorting gives a sorted permutation of the values |
| Stats.QuartilesOrdered | agents/eda_agent.py:71-73 | Q1 <= Q3, so the IQR is non-negative |
| Stats.MiddleIsHalfQuantile | agents/data_cleaner.py:10 | interpolating at the middle position (n-1)/2 gives the middle element, or the mean of the two middle elements |
| Stats.Mode | agents/data_cleaner.py:8-12 | no mode exactly for no values; otherwise a most frequent value, and the least of them under the cell order |
| Charts.WebPath | agents/eda_agent.py:91-140 | a histogram is reported as `/static/charts/<col>_hist.png`, and pie and bar charts as `/static/charts/<col>_cat.png` |
| Charts.CategoryDecision | agents/eda_agent.py:100-107 | as written, the division by zero happens exactly for a column without values; a drawn chart is a pie or bar chart of that column |
| Charts.CategoryChart | agents/eda_agent.py:100-107 | the chart of an object column, if any, is a pie or bar chart of it |
| Charts.CategoryRule | agents/eda_agent.py:100-107 | with values present: nothing beyond 20 distinct values or a distinct share above 0.9; otherwise a pie below 10 distinct values and a bar from 10 to 20 |
| Charts.Distinct | agents/eda_agent.py:100-101 | the distinct count is at most the value count |
| Charts.HistogramPlan | agents/eda_agent.py:87-96 | a column gets a histogram exactly when it is numeric |
| Charts.CategoryPlan | agents/eda_agent.py:99-129 | only object columns can get a categorical chart, decided by their distinct and value counts |
| Charts.HistogramCharts | agents/eda_agent.py:87-96 | the loop appends the histograms of the numeric columns in column order |
| Charts.CategoricalCharts | agents/eda_agent.py:99-129 | the loop raises ZeroDivisionError exactly when an object column has no values, at the first such column; otherwise it appends the planned categorical charts in column order |
| Charts.PerformEdaCharts | agents/eda_agent.py:87-140 | as written: raises exactly when an object column has no values, at the first one; otherwise returns the heatmap, then the histograms, then the categorical charts |
| Charts.IntendedCharts | agents/eda_agent.py:87-140 | the corrected list starts with the heatmap and holds at most one chart per column after it, so at most 1 + (number of columns) charts |
| Charts.HeatmapFirst | agents/eda_agent.py:140 | the heatmap is first and appears nowhere else |
| Charts.HistogramsExact | agents/eda_agent.py:87-96 | right after the heatmap come the histograms, one per numeric column, in column order |
| Charts.HistogramIffNumeric | agents/eda_agent.py:87 | a column has a histogram exactly when it is numeric |
| Charts.CategoryChartsExact | agents/eda_agent.py:99-129 | a column has a pie chart exactly when it is an object column with values, fewer than 10 distinct values and a distinct share of at most 0.9; it has a bar chart exactly when that holds with 10 to 20 distinct values |
| Charts.PlannedCategory | agents/eda_agent.py:99-129 | a pie or bar chart of a column is in the list exactly when that column plans it |
| Charts.EmptyObjectColumnRaises | agents/eda_agent.py:101-102 | a table with one object column and no rows makes the code as written divide by zero, while the intended list is just the heatmap |
| Sanitize.SanitizeForJson | agents/eda_agent.py:152-167 | lists keep their length, dictionaries keep their keys in order, and no other value becomes a list or dictionary |
| Sanitize.SanitizeMembers | agents/eda_agent.py:153-156 | each member of a list, and each value of a dictionary under its own key, is the sanitised member, so the scalar rules hold at every depth |
| Sanitize.NestedExample | agents/eda_agent.py:152-167 | in a dictionary of dictionaries, a nested NumPy mean becomes the native float and a nested NaN standard deviation becomes None |
| Sanitize.SanitizedIsSafe | agents/eda_agent.py:152-167 | the result holds no NumPy scalar and no NaN or infinite float, at any depth |
| Sanitize.SafeIsFixed | agents/eda_agent.py:152-167 | a value without NumPy scalars and non-finite floats is returned unchanged |
| Sanitize.Idempotent | agents/eda_agent.py:152-167 | sanitising twice gives what sanitising once gives |
| Sanitize.ScalarRules | agents/eda_agent.py:158-167 | NaN and infinities, NumPy or native, become None; NumPy integers, finite floats and booleans become the native value with the same content; with SanitizeMembers this holds for nested values too |
| Strings.Lower | agents/data_cleaner.py:21 | the result has the input's length and each character lower-cased, ASCII letters only |
| Strings.LowerIdempotent | agents/data_cleaner.py:21 | lower-casing twice is lower-casing once |
| Strings.Strip | agents/data_cleaner.py:21 | the result has no whitespace at either end and is no longer than the input |
| Strings.StripIsInnerSlice | agents/data_cleaner.py:21 | the result is a contiguous stretch of the input, and everything before and after it is whitespace |
| Strings.StripTrailingSpace | agents/data_cleaner.py:21 | one trailing whitespace character after a non-space is removed |
| Sanitize.OutlierCountsUnchanged | agents/eda_agent.py:147 | the outlier dictionary, already holding native integers, passes through unchanged |

## Left out

- Plotting and file output in `perform_eda` are not modelled. This covers the matplotlib and
  seaborn calls, `os.makedirs`, `savefig`, `df.describe()` and the returned `eda_summary`
  dictionary. Only the chart decisions and the list of paths are. The heatmap is listed
  unconditionally, as the code does. Whether seaborn can draw a heatmap for a table without
  numeric columns is library behaviour.
- The skewness and kurtosis (`get_skew_kurtosis`) are not modelled: they are floating-point
  library numerics. They are also not passed through the sanitiser, so the model makes no claim
  that the whole profile output is free of NaN.
- The entropy score and the `round(...)` calls in `get_data_summary` are not modelled. They need
  a logarithm and decimal rounding. `EdaProfile.Summarize` has no entropy field, and it carries
  unrounded ratios.
- `EdaProfile.Summarize` gives the dtype as the column's dtype class, not pandas' dtype string.
- `EdaProfile.Summarize` counts distinct cells. A number is one real, so `1` and `1.0` count as
  one value, as in pandas, and a text never equals a number, as in Python.
- Parsing in `check_for_date` is a parameter of `DateColumns.CheckForDate`: an abstract function
  from a cell to an optional timestamp. The exception and `print` path of lines 55-56 is not
  modelled.
- DataCleaner.NormalizeMethod: lower-cases only the ASCII letters. Python's `str.lower` also
  lower-cases non-ASCII letters (for example "É"), which the model leaves as they are. The
  whitespace stripped is the full `str.isspace` set.
- Strings.Lower: lower-cases only the ASCII letters, where Python's `str.lower` also
  lower-cases non-ASCII letters.
- EdaProfile.GetMissingColumns and EdaProfile.DetectOutliers return a map, which has no key
  order. The Python dictionaries list their columns in table order, which only the display shows.
- The `category` dtype is not modelled. Object columns stand for
  `select_dtypes(include=['object','category'])`, and boolean columns are not distinguished from
  numeric ones.
- Floating point is modelled by exact reals: means, medians, quantiles, fences and the ratios of
  `get_data_summary` and `perform_eda`. The chart comparison `unique/total > 0.9` is reached only
  with at most 20 distinct values. With so few, no ratio is within rounding distance of 0.9, so
  the exact comparison gives the same answer as the floating-point one.
- The audit log strings are not modelled: no float formatting of the fill value. Each entry
  keeps the row index, the column, the value and the method.
- The `DataType` field of a summary entry and the audit line wording are the only places where
  formatting would matter, and neither is modelled.
- `backend.py`, `frontend.py` and `agents/genai_agent.py` are not part of this model. They cover
  HTTP routing, the session store, the UI and the Gemini call. Only the list of methods the UI
  offers is cited below.

## Findings

| source | as written | input that shows it | evidently intended | confidence | as-written member | corrected member |
|---|---|---|---|---|---|---|
| agents/eda_agent.py:101-102 | `unique_vals/total_counts` is evaluated for every object column with at most 20 distinct values, including one without non-missing values, where both are 0 | a table with an object column `city` and no rows (for example after `clean_data` dropped every row): `ZeroDivisionError` at line 102 | skip a column without values, as `get_data_summary` does at lines 45-46 | not executed | Charts.CategoryDecision | Charts.CategoryChart |

The as-written code is `Charts.CategoryDecision` and `Charts.PerformEdaCharts`. Its behaviour is
shown by `Charts.EmptyObjectColumnRaises`. The corrected rule, `Charts.CategoryChart`, underlies
`Charts.IntendedCharts`. Its properties are proved in `Charts.CategoryRule`,
`Charts.CategoryChartsExact`, `Charts.HeatmapFirst` and `Charts.HistogramsExact`.
`Charts.PerformEdaCharts` returns `Charts.IntendedCharts` whenever it does not raise.

## Methods offered by the interface

`frontend.py:67` offers the methods "mean", "median", "mode" and "drop" for each column with
missing values. `_compute_fill_value` (agents/data_cleaner.py:6-14) has no branch for "drop". It
fills such a gap with 0.0 or "Unknown" by dtype, and the row is kept. `DataCleaner.UnrecognisedFallback`
states this.
