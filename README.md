# WeightRun in Dafny

WeightRun is a one-page Streamlit tracker for body weight and running. This project models the
data layer behind that page and proves properties of it. It covers five parts:

- **Daily records.** The page keeps a table of (date, weight, distance, calories) rows. The form
  appends a row, with calories estimated as `round(distance * 60, 2)`.
- **Annual goal weight.** One number is kept in its own file, with 60.0 as the fallback. Each
  render that gets past the monthly summary (line 143) rewrites that file and shows "remaining
  to goal": the latest recorded weight minus the goal, or the notice 記録が必要です when the
  records file has a header and no rows. A page with no records file, and a run that submits a
  record, stop at line 143 (see "Left out").
- **Monthly goals.** There is one weight target and one calorie target per month of the fixed
  window 2025-06 … 2025-12. They are loaded from a CSV file: the month column is fixed up,
  rows are filtered to the window, reindexed to it, and missing cells get the defaults 60.0 and
  0.0. The targets are then edited row by row in place and saved back.
- **Monthly summary.** Records are grouped by calendar month, giving the mean weight and the
  summed calories of each month.
- **Merge and melt.** The summary and the monthly goals are joined in a full outer join on the
  month label, sorted by label. The result is melted into the long weight and calorie series
  that the charts draw.

Modules:

- `Wrappers`: `Option` and `Result`.
- `Lex`: code-point lexicographic order on strings, the order of `sort_values` on labels.
- `Calendar`: dates, months, `YYYY-MM` labels and the goal window. `LabelOrder` proves that
  label order is chronological order.
- `SortedTable`: a sorted association list keyed by label, with an upsert. Both the group-by
  and the outer merge are built on it.
- `Records`: the record datatype, Python rounding, the calorie estimate, the date sort, and
  the `RecordStore` class.
- `AnnualGoal`: the goal file, the remaining-to-goal metric, and the `AnnualGoalStore` class.
- `MonthlyGoals`: the goals file as a table of cells, `load_monthly_goals`, the edit loop as
  the `GoalTable` class over an `array`, and the save. `IsFrame` describes the tables `read_csv`
  can produce (no cell outside the columns), and the load lemmas are stated for those.
- `Derivations`: the monthly summary, the outer merge, and the two melts.

How the code behaves in the cases that matter for the model:

- **The clamp below 30 kg.** `load_monthly_goals` returns a stored weight target unchanged,
  even below 30. Only the edit loop (lines 124-125) substitutes 60.0, as the value it hands to
  the number input. `MonthlyGoals.LoadKeepsStoredTargets` and
  `MonthlyGoals.ClampIsInTheEditLoop` state this.
- **A file without a month column.** The model's `RawTable` gives a frame the row-number index
  that `read_csv` gives a file whose header row is as long as its data rows. With that index,
  `reset_index()` (line 93) adds a new column of row numbers 0, 1, 2, … named "index", or keeps
  an existing "index" column and names the new one "level_0". Line 95 renames "index" to the
  month column. No row number is a window label, so a file without a month column or an "index"
  column gets the defaults for every month (`MonthlyGoals.LoadWithoutMonthColumn`). With this
  index the KeyError of line 99 is never the outcome: either "index" ends up renamed, or
  `reset_index` already failed. The index `read_csv` infers from a shorter header row is not
  modelled (see "Left out").
- **Errors on load.** Besides the KeyError, the load fails, through pandas, in two cases:
  - `reset_index` fails when the name it would insert is already a column (`ColumnExists`);
  - the reindex fails when a window month labels more than one row (`DuplicateMonth`).
- **The name of the month column after a load from a file.** `reindex(months)` at line 103
  gives the frame the index `months`, which has no name, so `reset_index` puts the month labels
  in a column named "index" ("level_0" if "index" is taken). Every other column of the file is
  carried along, and line 138 saves them all. The load result therefore records its label column
  and its carried columns (`MonthlyGoals.Goals`). Saved files stop loading from the third save
  on (see "Findings").
- **The records notice.** The notice 記録が必要です comes from the `except` around lines
  209-213. It is shown when the records file has a header and no rows (the `iloc[-1]` fails).
  It is not shown when there is no records file: the page stops at line 143 before it gets
  there (see "Left out"). It is also shown when writing the goal file fails, which the model
  does not represent.

## Model

| member | source | states |
|---|---|---|
| Calendar.LabelOrder | WeightRun.py:145-154 | Comparing two month labels as strings gives the same answer as comparing the months in time, and equal labels mean equal months. So sorting by label (line 154) is sorting by month. |
| Calendar.LabelInjective | WeightRun.py:145 | Distinct months get distinct `str(Period)` labels. |
| Calendar.MonthRange | WeightRun.py:86 | `date_range(..., freq='MS')` gives `last - first + 1` months, the i-th being i months after the first. |
| Calendar.Label | WeightRun.py:86 | `strftime("%Y-%m")` and `str(Period)`: a label is seven characters with '-' at position 4. `LabelOrder` and `LabelInjective` state its order and injectivity. |
| Calendar.Window | WeightRun.py:86 | The goal window has exactly 7 labels, in strictly increasing order. |
| Calendar.WindowLabels | WeightRun.py:86 | The window is exactly "2025-06", "2025-07", … "2025-12". |
| SortedTable.Get | WeightRun.py:144 | A lookup finds a key exactly when the key is present, and returns that key's value. |
| SortedTable.Upsert | WeightRun.py:144 | Inserting into or updating a group keeps the table sorted with unique keys. The key set gains `k`. `k` maps to `f` of its old value, and every other key keeps its value. |
| Records.RoundHalfEven | WeightRun.py:50 | The result is one of the two integers next to the input and within 1/2 of it. At a half it is the even one, as in Python's `round`. |
| Records.RoundTo2 | WeightRun.py:50 | `round(x, 2)` is within 1/200 of `x`. |
| Records.RoundTo2OfHundredths | WeightRun.py:50 | A value with at most two decimals is left unchanged. |
| Records.RoundTo2Idempotent | WeightRun.py:50 | Rounding an already rounded value changes nothing. |
| Records.RoundTo2Monotone | WeightRun.py:50 | Rounding preserves order. |
| Records.Calories | WeightRun.py:50 | The calorie estimate is within 0.005 of `distance * 60`. |
| Records.CaloriesNonNegative | WeightRun.py:46-50 | A non-negative distance (the input's minimum is 0.0) never gives negative calories. |
| Records.CaloriesMonotone | WeightRun.py:50 | A longer run never gets fewer calories. |
| Records.DayKey | WeightRun.py:63 | No contract of its own. `DayKeyOrder` states its meaning. |
| Records.DayKeyOrder | WeightRun.py:63 | Day keys compare as dates do: by year, then month, then day. Equal keys mean equal dates. |
| Records.DateLe | WeightRun.py:63 | The order of `sort_values("日付")`: dates by day, NaT after every date. No contract of its own; `DayKeyOrder` gives the day order, and `SortByDate` and `LatestRecord` state what is sorted by it. |
| Records.InsertByDate | WeightRun.py:63 | Inserting a row into a date-sorted table keeps it date-sorted, NaT last. The result is the old rows plus the new one, as a multiset. |
| Records.SortByDate | WeightRun.py:63 | `sort_values("日付")` returns a permutation of the rows, in date order with NaT last. |
| Records.SortedLastIsLatest | WeightRun.py:211 | The last row after sorting is one of the rows, and no row has a later date. |
| Records.LatestRecord | WeightRun.py:211 | `sort_values("日付").iloc[-1]` is a row of the table whose date is at least that of every row. |
| Records.RecordStore.Append | WeightRun.py:49-58 | A submission appends exactly one row, with the entered date, weight and distance and `Calories(distance)`. All earlier rows are kept, in order. |
| AnnualGoal.LoadGoalWeight | WeightRun.py:29-36 | The stored number is returned. 60.0 is returned when the file is missing or its text does not parse. |
| AnnualGoal.RemainingToGoal | WeightRun.py:208-215 | The notice is shown exactly when there are no records (in the source, a records file with a header and no rows; see "Left out"). Otherwise the metric is the latest record's weight minus the goal. |
| AnnualGoal.RemainingUsesLatestDay | WeightRun.py:211-212 | When every record has a date, the metric is taken from a record whose day is the latest. |
| AnnualGoal.RemainingFromLatestRecord | WeightRun.py:211-212 | When one record is strictly the latest, the metric is its weight minus the goal. For example, 68.0 kg against a goal of 65.0 gives 3.0. |
| AnnualGoal.AnnualGoalStore.Render | WeightRun.py:206-215 | A zero goal shows nothing and leaves the file alone. Any other goal is written to the file, loads back as itself, and the remaining-to-goal metric is shown for it. |
| MonthlyGoals.ResetColumnName | WeightRun.py:93 | The column `reset_index` inserts is the index's own name, or for an unnamed index "index", or "level_0" when "index" is taken. It fails exactly when that name is already a column. |
| MonthlyGoals.ResetIndex | WeightRun.py:93 | Fails exactly when both "index" and "level_0" are taken. Otherwise adds an "index" column holding the row numbers, or keeps the existing "index" column and puts the row numbers in "level_0". Every other cell is kept. |
| MonthlyGoals.RenameColumn | WeightRun.py:95 | The column `from` becomes `to`, with the same cells. Every other column and the row count are unchanged. |
| MonthlyGoals.NormaliseColumns | WeightRun.py:92-99 | A table that already has the month column is left as it is. On success the month column exists. Failure happens exactly when the month column is missing and "index" and "level_0" are both taken. So, for a file read with the row-number index, the KeyError is never the outcome. |
| MonthlyGoals.NormaliseRenamesIndex | WeightRun.py:92-95 | An existing "index" column becomes the month column, and the target cells are carried along. |
| MonthlyGoals.FindLabel | WeightRun.py:103 | A row with label `l` is found exactly when one exists, and the row found carries `l`. |
| MonthlyGoals.FilterWindow | WeightRun.py:102 | Keeps exactly the rows labelled with a window month, each as often as it occurs. Counts and lookups of window labels are unchanged. |
| MonthlyGoals.UniqueFind | WeightRun.py:103 | A label carried by at most one row is found at that row. |
| MonthlyGoals.TargetOr | WeightRun.py:104 | `fillna`: a stored number or the default. No contract of its own; `LoadKeepsStoredTargets` and `LoadDefaultsMissingMonths` state it. |
| MonthlyGoals.ReadRow | WeightRun.py:103-104 | One window row read from its stored row. No contract of its own; `LoadKeepsStoredTargets` states it. |
| MonthlyGoals.GoalFor | WeightRun.py:103-104 | The window row for one month, from its stored row or the defaults. No contract of its own; `LoadKeepsStoredTargets` and `LoadDefaultsMissingMonths` state it. |
| MonthlyGoals.WindowRows | WeightRun.py:103 | The reindex gives the window months in order, each row with a cell in every carried column. |
| MonthlyGoals.ReindexWindow | WeightRun.py:102-104 | A successful reindex is a well-formed window table that carries every column of the file except the month and target columns. Its labels are in 年月 exactly when the window index is named. Reindexing by the named window fails only on a duplicate month. |
| MonthlyGoals.LoadGoals | WeightRun.py:85-112 | The load, with line 103's window index unnamed or named 年月. With no file, the default table labelled in 年月. Every successful load is a well-formed window table, labelled in 年月 after a file load exactly when the index is named. For a file read with the row-number index, the result is never the KeyError. |
| MonthlyGoals.LoadMonthlyGoals | WeightRun.py:85-112 | With no file, the default table labelled in 年月. Every successful load is a well-formed window table: 7 rows, the window months in order. After a load from a file, the labels are never in 年月. For a file read with the row-number index, the result is never the KeyError. |
| MonthlyGoals.LoadMonthlyGoalsNamed | WeightRun.py:85-112 | The corrected load, with line 103 reindexing by a window named 年月. Every successful load is a well-formed window table labelled in 年月. |
| MonthlyGoals.LoadWithoutFile | WeightRun.py:107-112 | With no file, the result is the seven rows "2025-06" … "2025-12" in the column 年月, each with 60.0 kg and 0.0 kcal and no other column. |
| MonthlyGoals.LoadKeepsStoredTargets | WeightRun.py:102-104 | A window month found in the file keeps its stored targets, even below 30 kg, and its cells in the carried columns. A blank target cell gets the default. |
| MonthlyGoals.LoadDefaultsMissingMonths | WeightRun.py:103-104 | A window month missing from the file gets 60.0 kg, 0.0 kcal and blank carried cells. |
| MonthlyGoals.LoadFailsOnlyOnDuplicates | WeightRun.py:92-103 | With a month column, load fails with `DuplicateMonth` exactly when some window month labels two or more rows. The load as written fails exactly in that case or when "index" and "level_0" are both columns; the corrected load fails only on a duplicate. |
| MonthlyGoals.LoadWithoutMonthColumn | WeightRun.py:92-104 | A file with neither a month column nor "index" loads as the default table, with its labels in "index" and every other column of the file carried, blank. |
| MonthlyGoals.GoalsFile | WeightRun.py:138 | `to_csv(index=False)`. No contract of its own; `GoalsFileCells`, `GoalsFileIsFrame` and `SaveLoad` state it. |
| MonthlyGoals.GoalsFileIsFrame | WeightRun.py:138 | The saved file is a table `read_csv` can read back: no row has a cell outside the file's columns. |
| MonthlyGoals.GoalsFileCells | WeightRun.py:138 | Each saved row has a cell in exactly the file's columns: the label column under its own name ("index" after a load from a file), the two targets, and every carried column. |
| MonthlyGoals.MonthFileReloads | WeightRun.py:88-105 | A saved file with its labels in 年月 reads back row for row, carried cells included. Only the name of the label column is what line 103's `reset_index` picks. |
| MonthlyGoals.IndexFileReloads | WeightRun.py:88-105 | A saved file with its labels in "index" reloads with the same months and targets. Line 93 adds a "level_0" column holding each row's position, and that column is carried from then on. |
| MonthlyGoals.BlockedSaveLoad | WeightRun.py:92-93 | A saved file without 年月 that holds both "index" and "level_0" fails to load with `ColumnExists("level_0")`. |
| MonthlyGoals.SaveLoad | WeightRun.py:88-105 | Loading the file saved from any loaded table gives `Reloaded`. For a 年月 file, the corrected load gives back the table, and the load as written moves the labels to "index". An "index" file gains "level_0". A file holding "index" and "level_0" fails. |
| MonthlyGoals.ReloadKeepsTargets | WeightRun.py:88-138 | Whatever the label column, a reload that succeeds is a well-formed window table with every month and both of its targets unchanged. |
| MonthlyGoals.NamedSaveLoadRoundTrip | WeightRun.py:88-138 | With the corrected load, saving a table labelled in 年月 and loading the file gives back exactly that table, below-30 values and carried cells included. |
| MonthlyGoals.ShownLabel | WeightRun.py:119 | The month shown for a row is that row's month. This holds whether `row.get` finds 年月 or falls back to `f"2025-{6+i:02d}"`. |
| MonthlyGoals.ShownWeight | WeightRun.py:124-125 | The weight handed to the input is at least 30. It is the stored value when that is at least 30, and 60.0 otherwise. |
| MonthlyGoals.EditRow | WeightRun.py:124-135 | One pass of the loop body. No contract of its own; `EditKeepsWindow` and `EditedWeightsValid` state it. |
| MonthlyGoals.EditedGoals | WeightRun.py:118-135 | The rows after the loop. No contract of its own; `EditedWeightsValid`, `UntouchedKeepsValidTable` and `GoalTable.ApplyInputs` state it. |
| MonthlyGoals.Edit | WeightRun.py:118-135 | The table after the loop. No contract of its own; `EditKeepsWindow` and `GoalTable.ApplyInputs` state it. |
| MonthlyGoals.EditKeepsWindow | WeightRun.py:118-135 | The edit loop keeps the table well formed: the same label column, the same carried columns and cells, and the window months in order. |
| MonthlyGoals.EditedWeightsValid | WeightRun.py:124-129 | After the loop, every weight target is at least 30, given the input's minimum. An untouched calorie target keeps its value. |
| MonthlyGoals.UntouchedKeepsValidTable | WeightRun.py:118-135 | When all weight targets are valid, a loop in which nothing is changed leaves the table as it is. |
| MonthlyGoals.UntouchedIdempotent | WeightRun.py:118-135 | Running the untouched loop twice gives the same table as running it once. |
| MonthlyGoals.ClampIsInTheEditLoop | WeightRun.py:102-125 | A stored 20.0 for 2025-06 loads as 20.0 and is shown to the input as 60.0. |
| MonthlyGoals.SaveRun | WeightRun.py:114-138 | One page run that loads, edits and saves. No contract of its own; `RunReloads` and `ThirdSaveFails` state it. |
| MonthlyGoals.RunReloads | WeightRun.py:114-138 | A page run whose load succeeds saves the file of the edited table, and that file loads as `Reloaded` of the edited table. |
| MonthlyGoals.FirstSave | WeightRun.py:107-138 | The first save, made without a goals file, writes a 年月 file. Its load as written gives the edited table with the labels moved to "index". |
| MonthlyGoals.IndexSave | WeightRun.py:88-138 | A save from a table labelled in "index" with no other column writes a file whose load gives the same table with a "level_0" column of row positions. |
| MonthlyGoals.BlockedSave | WeightRun.py:88-138 | A save from a table that carries "level_0" writes a file that fails to load with `ColumnExists("level_0")`. |
| MonthlyGoals.ThirdSaveFails | WeightRun.py:88-138 | Three page runs that each save, starting without a goals file, all save, but the third file fails to load with `ColumnExists("level_0")`. |
| MonthlyGoals.NamedRunsKeepLoading | WeightRun.py:88-138 | With the corrected load, every run whose load succeeds saves a file that loads back as the edited table. The page therefore keeps loading after any number of saves. |
| MonthlyGoals.GoalTable.ApplyInputs | WeightRun.py:118-135 | Rewrites the array row by row in place. Afterwards it holds `Edit` of its old contents and is still a well-formed table. |
| MonthlyGoals.GoalTable.Save | WeightRun.py:137-138 | Writes the file of the current table, label column and carried columns included. As written, that file loads as `Reloaded`. With the corrected load, a table labelled in 年月 loads back unchanged. |
| Derivations.MonthKey | WeightRun.py:143 | `dt.to_period("M")` then `astype(str)`: None exactly for NaT, otherwise a seven-character label. |
| Derivations.MonthKeyGroupsByMonth | WeightRun.py:143-145 | Two dated records get the same label exactly when they fall in the same calendar month, so grouping by label is grouping by month. |
| Derivations.CaloriesIn | WeightRun.py:144 | The calories of one month, as many as its weights. |
| Derivations.DatedMonthsSnoc | WeightRun.py:143 | Adding a record adds its month, if it has a date, to the set of months. |
| Derivations.GroupSnoc | WeightRun.py:144 | Adding a record updates only its own month's running group. |
| Derivations.Accumulate | WeightRun.py:144 | The group-by table is sorted and has an entry exactly for each month with a dated record. That entry is the count, weight sum and calorie sum of the month's records, with a positive count. |
| Derivations.WeightsEmptyOutside | WeightRun.py:144 | A month with no dated record has no weights or calories. |
| Derivations.WeightsNonEmptyInside | WeightRun.py:144 | A month with a dated record has at least one weight. |
| Derivations.MonthlySummary | WeightRun.py:143-145 | The summary has one row per group. |
| Derivations.MonthlySummarySorted | WeightRun.py:144 | Summary labels are strictly increasing, so each month appears once. |
| Derivations.MonthlySummaryRows | WeightRun.py:143-145 | Each summary row is a month with a dated record, with the mean of that month's weights and the sum of its calories. |
| Derivations.MonthlySummaryComplete | WeightRun.py:143-145 | Every month with a dated record has a summary row. |
| Derivations.EmptySummary | WeightRun.py:144 | No records give an empty summary. In the source this case comes only from a records file with a header and no rows (see "Left out"). |
| Derivations.OneMonthSummary | WeightRun.py:143-145 | Records that all fall in one month give a one-row summary for that month. |
| Derivations.SummaryOfTwoRecords | WeightRun.py:143-145 | 70.0 kg / 300.0 kcal and 71.0 kg / 180.0 kcal in one month give the single row (that month, 70.5, 480.0). |
| Derivations.FindLast | WeightRun.py:154 | A row of either side is found exactly when one has the label, and the row found is one of them and carries the label. |
| Derivations.JoinActuals | WeightRun.py:154 | The left side of the join is sorted, with one entry per summary month holding its actual values. |
| Derivations.JoinAll | WeightRun.py:154 | The outer join is sorted, with an entry exactly for each month of either side. That entry holds the month's values from both sides, null where a side lacks the month. |
| Derivations.MergeOuter | WeightRun.py:154 | One merged row per joined month. |
| Derivations.MergeOuterSorted | WeightRun.py:154 | The merged rows are in strictly increasing label order. |
| Derivations.MergeOuterRows | WeightRun.py:154 | Each merged row is a month of either side, with that month's actual and goal values. |
| Derivations.MergeOuterComplete | WeightRun.py:154 | No month of either side is dropped by the outer join. |
| Derivations.MergedKeepsGoalMonths | WeightRun.py:143-154 | Every window month is in the merged table with its goal targets. A window month without records has null actuals instead of being dropped. |
| Derivations.MeltColumn | WeightRun.py:159 | One long row per merged row, in order, carrying that row's month, the series name and the column's value. |
| Derivations.WeightLong | WeightRun.py:157-159 | The long weight frame has 2n rows: the actual-weight series for every month, then the goal-weight series. |
| Derivations.CalorieLong | WeightRun.py:181-182 | The long calorie frame has 2n rows: the actual-calorie series for every month, then the goal-calorie series. |
| Lex.Transitive | WeightRun.py:154 | The label order is transitive. |
| Lex.Total | WeightRun.py:154 | Any two distinct labels are ordered. |
| Lex.AppendEqualLength | WeightRun.py:145 | For prefixes of equal length, comparing the concatenations compares the prefixes, and on a tie the suffixes. |

## Left out

- The Streamlit layer is not modelled: page layout, widgets, forms, buttons, success and
  warning banners, the Altair charts (lines 61-81 and 161-202), colours and axis domains. The
  model keeps what the widgets hand back (`GoalInput`, the entered goal) and what the charts
  are fed (the merged and melted tables).
- File I/O and CSV text are not modelled. The records file, the goal file and the goals file
  are values. `read_csv`, `to_csv` and `float(f.read())` are abstracted to the parsed cells
  (`Cell`, `GoalFile.Stored(parsed)`).
- `load_data` (lines 17-23) is only partly modelled. Its `to_datetime(errors="coerce")` is the
  `Option<Date>` of a record. The empty sequence of records stands for a records file with a
  header and no rows, whose date column `to_datetime` still makes a datetime column. The CSV
  parse itself is left out.
- Derivations.EmptySummary: holds in the source only for a records file with a header and no
  rows. The fallback frame of line 22, used when there is no records file, has object-dtype
  columns, and a run that submits a record concatenates a `datetime.date` into the date column
  at line 57, which makes it object dtype too. On such a frame `.dt.to_period` at line 143
  raises AttributeError outside any `try`, and the page stops before lines 144-215: no summary,
  no merge, no goal-file write and no notice. The model does not represent column dtypes, so it
  computes these lines on the records of both cases as well.
- AnnualGoal.RemainingToGoal: its notice for no records is reached in the source only from a
  records file with a header and no rows, for the reason given for `Derivations.EmptySummary`.
  `AnnualGoal.AnnualGoalStore.Render` likewise runs only in a page that gets past line 143.
- Records.RecordStore.Append: does not model that the run which submits a record stops at line
  143 after the write at line 58, for the reason given for `Derivations.EmptySummary`. The
  records file already holds the new row when the page stops.
- `@st.cache_data` (lines 16 and 28) is left out. `load_data` and `load_goal_weight` return the
  first load of the server process, not the files as they are now. In the model, the rows a
  `Records.RecordStore` is constructed with and the goal file `AnnualGoal.AnnualGoalStore.Render`
  reads its default from stand for that cached load. Two effects of a stale cache are not
  modelled. They follow on the two lines below.
- Records.RecordStore.Append: does not model that a later page run starts again from the cached
  rows. A submission in that run writes the cached rows plus its own (lines 57-58), so rows submitted
  in earlier runs since the first load are lost from the records file.
- AnnualGoal.AnnualGoalStore.Render: takes the input's initial value from the goal file as the
  store holds it. With the cache, a later render in which the operator enters nothing starts
  from the first loaded goal, and line 210 writes that stale goal back over the one entered since.
- Floating point is not modelled. Weights, distances, calories and targets are exact reals.
  `round(x, 2)` is round-half-even on the exact value, and the decimal representation errors of
  IEEE doubles are not. `Records.Calories` and `Records.RoundTo2` are stated on reals for that
  reason.
- `Records.SortByDate` promises only "date order, NaT last". It does not promise pandas' tie
  order for equal dates, because `sort_values` with its default quicksort is not stable. So
  `AnnualGoal.RemainingToGoal` promises "a record with the latest date", and only a unique
  latest record determines the metric (`AnnualGoal.RemainingFromLatestRecord`).
- Dates that pandas parses with a time of day are taken at day precision.
- `AnnualGoal.AnnualGoalStore.Render` does not model a failure of the write at lines 209-210.
  Such a failure also leads to the 記録が必要です notice.
- `AnnualGoal.AnnualGoalStore.Render` does not model what the goal file's text is after
  `str(goal_weight)`. It assumes `float(str(x)) == x`, which holds for Python floats.
- The widget bounds on stored values are not modelled. Streamlit's `number_input` raises when
  its `value` lies outside `[min_value, max_value]`, and the page stops there. That happens for
  a stored weight target above 150 (line 126), a negative stored calorie target (line 132), and
  a stored annual goal outside 30-150 (line 206). It is also why line 125 replaces values below
  30. The model hands such values to the input unchanged. `MonthlyGoals.EditedWeightsValid`
  takes the input's minimum as a precondition on what the operator can enter.
- MonthlyGoals.NormaliseColumns: models only the row-number index that `read_csv` gives when
  the header row is as long as the data rows. When the header row is shorter, pandas makes
  the leading columns the index. With one such column, line 93 turns it into an "index"
  column of stored labels, which line 95 renames, so the stored targets load. With two, line 93
  adds "level_0" and "level_1", nothing is renamed, and line 99 raises the KeyError. Neither
  case is modelled, because `RawTable` carries no index of its own.
- MonthlyGoals.LoadWithoutMonthColumn: states the defaults only for a file read with the
  row-number index. For a file whose shorter header makes the labels the index, the stored
  targets would load instead. This case is not modelled, for the reason given for
  `MonthlyGoals.NormaliseColumns`.
- The order of the columns in a frame is not modelled: `RawTable` keeps a set of column names.
  Everything the page does with the goals file looks columns up by name.
- A value cell that `read_csv` parses as text is treated like an empty cell and gets the
  default. The source does otherwise. Such a column stays of object dtype, and `fillna` at line
  104 leaves the text in place. For a window row, line 124's `float(...)` (and line 131's) then
  raises ValueError on non-numeric text, and the page stops; numeric text such as "65", which a
  column holds as text when another of its cells is non-numeric, is read as 65.0 and not as the
  default 60.0. The model's blank cell also stands for a missing value column, which pandas
  `fillna` would not create.
- `Derivations.FindLast` takes the last row with a label. A merge
  over duplicate keys, which pandas expands into several rows, is therefore not modelled. Both
  sides of the merge have unique labels wherever the page builds them: `MonthlySummarySorted`,
  and `IsWindowTable` for loaded goals.
- Lines 148-152 (copy, `reset_index(drop=True)`, the rename guard, `astype(str)`) are not
  modelled as steps. `Derivations.MergeOuter` keys each goal row by its month label, which is
  what these lines leave in 年月 when the labels are in 年月 or in "index". When the labels are
  in "level_0" (after loading a file that has both 年月 and an "index" column), line 151 renames
  the carried "index" column instead, and the merge would key the goals by its cells. That case
  is not modelled.
- The two `merged` helper columns of lines 157-158 are not modelled separately. They are
  copies of the weight and weight-target columns, so `Derivations.WeightLong` reads those
  columns directly.

## Findings

| source | as written | input that shows it | evidently intended | confidence | as-written member | corrected member |
|---|---|---|---|---|---|---|
| WeightRun.py:103 | `set_index("年月").reindex(months).reset_index()` reindexes by `months`, which has no name. So the month labels come back in a column named "index". Line 138 saves that column and every carried one, and the next load (line 93) adds "level_0" beside "index". | Three saves starting without a goals file. The first file has columns 年月, 体重目標, カロリー目標. The second has index, 体重目標, カロリー目標, and its load adds "level_0". The third has index, level_0, 体重目標, カロリー目標, and line 93 raises ValueError on it. | The labels stay in 年月 (by reindexing with `months.rename("年月")`). Then every saved file loads back as the table that was saved, and the page keeps loading after any number of saves. | not executed | MonthlyGoals.ThirdSaveFails | MonthlyGoals.NamedRunsKeepLoading |
