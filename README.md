# Electric-motor temperature analysis pipeline, modelled in Dafny

The repository analyses a dataset of permanent-magnet synchronous motor
readings sampled at 2 Hz. Each row holds one sample: rotor temperature `pm`,
the stator temperatures, coolant, ambient, speed, torque, d/q currents and
voltages, and the `profile_id` of the test session. The pipeline has four
stages, and this project models each one.

- **Cleaner** (`Cleaner`). The cleaner drops every row with a missing cell. It then stamps each row with
  `Tiempo_Segundos`, the row's zero-based position within its session
  divided by 2. It also reports what it did on the console.
- **Analyzer** (`Analyzer`). This stage computes descriptive statistics per column. It finds the distinct
  session ids and the duration of each session (the largest elapsed time),
  with mean, minimum and maximum over the durations. It ranks the
  correlations with rotor temperature and picks positions 1 to 3.
- **Visualizer** (`Visualizer`). For each requested session the visualizer
  filters the rows and skips an id with no rows. It summarises temperatures:
  per-column min, max and mean, the first and last rotor temperature, the
  first peak and when it happens, and a three-way trend. It summarises
  operation: speed, torque, peak absolute torque and a flag for negative
  torque. It also builds the correlation heatmap's triangle mask and a
  listing of the correlations with rotor temperature, without `pm` itself.
- **Exporter** (`Exporter`). The exporter renames 14 columns to friendly
  names and chooses CSV, Parquet or "unsupported" from the path suffix.

Shared modules:

- `Frames`: tables, cells (`Option<real>`, where `None` is a missing value)
  and the row selection `df[df[col] == v]`.
- `Stats`: lookup of a first position (`Stats.IndexOf`, also used for column
  names), min, max, mean, idxmax, `abs().max()` and occurrence counts.
- `Ranking`: the descending sort, the `[1:4]` slice and the filtered listing.

Tables are values, so no operation can change its input. The cleaner's
`copy()` and the exporter's `rename` returning a new table are therefore
automatic in the model. The cleaner is a method: its loop keeps a map of
per-session counts, and the method is proved equal to the session-clock
specification `Elapsed`. The per-session loops of the visualizer are also
methods. Everything else is functions and lemmas.

The model follows the code where it differs from prose descriptions of the
program. For example, assigning `Tiempo_Segundos` overwrites an existing
column of that name rather than adding a second one, and the trend rule
calls an unchanged negative reading "increasing".

## Model

| member | source | states |
|---|---|---|
| Cleaner.CleanAndPrepareData | data_cleaner.py:14-46 | An absent table gives no table and only the "cannot clean" message. Otherwise the output has the kept rows with every original cell unchanged, plus the time column holding each row's session time (`Prepared`). The log is exactly start, the removal report (the count when rows were dropped, "no rows removed" otherwise), the null-free confirmation, the time-column notice and the end (`Reported`). |
| Cleaner.PrepareTable | data_cleaner.py:21-39 | The prepared table keeps the complete rows with every original cell unchanged and stamps each row with its session time (`Prepared`). |
| Cleaner.ElapsedTimes | data_cleaner.py:39 | The loop with a per-session counter map gives row j the time `Elapsed(ids, j)`: the number of earlier rows with the same id, divided by 2. |
| Cleaner.DropMissing | data_cleaner.py:22 | The kept rows are complete input rows, and there are no more of them than input rows. |
| Cleaner.DropMissingMembers | data_cleaner.py:22 | A row is kept if and only if it is an input row with no missing cell. |
| Cleaner.DropMissingAppend | data_cleaner.py:22 | Filtering a concatenation is the concatenation of the filtered parts, so relative order is kept. |
| Cleaner.DropMissingKeepsAll | data_cleaner.py:21-28 | Nothing is removed if and only if every input row is complete. |
| Cleaner.MissingInRow | data_cleaner.py:31 | A row's missing count is 0 if and only if the row is complete. |
| Cleaner.NoMissingAfterDrop | data_cleaner.py:30-35 | After the filter the total missing count is 0, so the warning branch cannot be taken. |
| Cleaner.Values | data_cleaner.py:22 | The reals of a complete row match its cells one for one. |
| Cleaner.AllValues | data_cleaner.py:22 | Converting the kept rows keeps every cell's value and the row width. |
| Cleaner.TimeIndex | data_cleaner.py:39 | The time column goes at the existing `Tiempo_Segundos` position if there is one, else at the end. |
| Cleaner.WithTimeColumn | data_cleaner.py:39 | The header gains `Tiempo_Segundos`, keeps every old name and keeps names distinct. |
| Cleaner.Stamp | data_cleaner.py:39 | Stamping sets the time cell and leaves every other cell of the row unchanged. |
| Cleaner.StampColumn | data_cleaner.py:39 | Row j is stamped with the j-th computed time. |
| Cleaner.StampedIsClock | data_cleaner.py:39 | Stamping every row with its `Elapsed` time gives a well-formed table whose time column is a session clock. |
| Cleaner.TimeColumnIndices | data_cleaner.py:39 | Adding the time column moves neither `profile_id` nor the time position, and the two never coincide. |
| Cleaner.StampKeepsCells | data_cleaner.py:22-39 | Every cell outside the time column is the kept input cell. |
| Cleaner.StampedWidth | data_cleaner.py:39 | Stamped rows all have the new header's width. |
| Cleaner.StampKeepsColumn | data_cleaner.py:39 | Stamping leaves the `profile_id` column unchanged. |
| Cleaner.ClockFromColumns | data_cleaner.py:39 | A time column that equals `Elapsed` row by row makes the table a session clock. |
| Cleaner.ReportedMessages | data_cleaner.py:18-44 | In a reported log the removed count appears if and only if rows were dropped, "no rows removed" if and only if none were, the null-free and time-column messages appear, and the leftover-missing warning never does. |
| Cleaner.MissingCount | data_cleaner.py:31 | The total missing count is 0 if and only if every row is complete. |
| Cleaner.SessionStartsAtZero | data_cleaner.py:39 | A row's time is 0 if and only if no earlier row has the same `profile_id`. |
| Cleaner.SessionStepIsHalfSecond | data_cleaner.py:39 | Between consecutive rows of one session the time grows by exactly 0.5. |
| Cleaner.SessionTimeIncreases | data_cleaner.py:39 | Within a session, a later row has a strictly later time. |
| Cleaner.ClockStartsAtZero | data_cleaner.py:39 | On a session-clock table, a row's time cell is 0 if and only if it is its session's first row. |
| Cleaner.ClockStepIsHalfSecond | data_cleaner.py:39 | On a session-clock table, consecutive rows of one session are 0.5 seconds apart. |
| Frames.IndexOfAppend | data_cleaner.py:39 | Appending columns does not move an existing column. |
| Frames.IndexOfDistinct | data_cleaner.py:39 | With distinct names, looking up the name at position k gives k. |
| Frames.ColumnOf | data_analyzer.py:87 | Selecting a column gives one value per row, that row's cell. |
| Frames.ColumnOfPrefix | data_analyzer.py:87 | The column of a prefix of the rows is the same prefix of the column. |
| Frames.Matching | data_visualizer.py:24 | The selected rows are table rows that carry the value. |
| Frames.MatchingCount | data_visualizer.py:24 | A session has as many rows as its id has occurrences. |
| Frames.MatchingEmptyIff | data_visualizer.py:26-28 | The selection is empty if and only if no row carries the id. |
| Frames.MatchingAppend | data_visualizer.py:24 | Selecting from a concatenation selects from each part in order, so the original order is kept. |
| Stats.Min | data_visualizer.py:51 | The minimum is one of the values and no value is smaller. |
| Stats.Max | data_visualizer.py:52 | The maximum is one of the values and no value is larger. |
| Stats.SumBetween | data_visualizer.py:53 | Values between lo and hi give a sum between n times lo and n times hi. |
| Stats.MeanWithin | data_visualizer.py:53 | A mean of values between lo and hi lies between lo and hi. |
| Stats.Mean | data_visualizer.py:53 | The mean times the number of values is their sum. |
| Stats.DivideBounds | data_visualizer.py:53 | Helper: dividing bounds on a total by a positive count bounds the quotient. |
| Stats.MeanBetweenMinAndMax | data_visualizer.py:51-53 | The mean lies between the minimum and the maximum. |
| Stats.IndexOf | data_analyzer.py:77 | The first position holding a value: it holds the value and no earlier position does. This is how a column is looked up by name, and where idxmax lands on ties. |
| Stats.FirstMaxIndex | data_visualizer.py:59 | idxmax is a position holding the maximum, and every earlier value is strictly smaller. |
| Stats.AbsValues | data_visualizer.py:132 | Each entry is the absolute value of the matching input. |
| Stats.MaxAbs | data_visualizer.py:132 | The peak absolute value bounds every absolute value and equals one of them. |
| Stats.Count | data_cleaner.py:39 | An occurrence count never exceeds the length. |
| Stats.CountAppend | data_cleaner.py:39 | The counts of the two parts of a concatenation add up. |
| Stats.CountZeroIff | data_cleaner.py:39 | The count is 0 if and only if the value does not occur. |
| Stats.StrictlyIncreasingCardinality | data_analyzer.py:77-82 | A strictly increasing sequence has as many entries as distinct values. |
| Stats.DistinctAppend | data_analyzer.py:77-82 | Helper: appending a value above every earlier one adds exactly one distinct value. |
| Analyzer.ProfileColumn | data_analyzer.py:77 | The id column has one entry per row. |
| Analyzer.Describe | data_analyzer.py:60 | Count is the number of values. Mean, min and max are absent if and only if the column is empty. Otherwise the mean is `Stats.Mean` of the column, min ≤ mean ≤ max, and min and max are attained values that bound the column. |
| Analyzer.AnalyzeDescriptiveStatistics | data_analyzer.py:54-61 | An absent table gives no report. A table without columns gives the error `describe()` raises, and only such a table does. Otherwise there is one description per column, in column order. |
| Analyzer.InsertDistinct | data_analyzer.py:82 | Inserting into a strictly increasing list keeps it strictly increasing, with exactly the old members plus the new value. |
| Analyzer.SortedUnique | data_analyzer.py:81-82 | The sorted unique ids are strictly increasing and have exactly the ids' members. |
| Analyzer.SortedUniqueCount | data_analyzer.py:77-82 | The sorted id list is as long as the number of distinct ids (`nunique`). |
| Analyzer.SelectedTimes | data_analyzer.py:87 | A session contributes one time per row carrying its id. |
| Analyzer.SessionDuration | data_analyzer.py:87 | A session's duration is one of its times and bounds all of them. |
| Analyzer.Durations | data_analyzer.py:87-88 | One duration per listed session, in list order, each that session's largest time. |
| Analyzer.Seconds | data_analyzer.py:88-96 | One duration in seconds per session, in order. |
| Analyzer.Summarize | data_analyzer.py:94-96 | No sessions gives no aggregate. Otherwise the mean is `Stats.Mean` of the durations, min ≤ mean ≤ max, with min and max attained and bounding every duration. |
| Analyzer.AnalyzeProfileIds | data_analyzer.py:70-99 | An absent table gives no report. The session count equals the number of distinct ids and the length of the id list. The id list is strictly ascending with exactly the ids' members. One duration per id, aligned with it, equal to that session's largest time. The aggregate is over those durations and is absent if and only if the table has no rows. |
| Analyzer.DurationOfCleanedSession | data_analyzer.py:87 | On a table stamped by the cleaner, a session's duration is (its row count − 1) / 2. |
| Analyzer.ClockSelection | data_analyzer.py:87 | On a session clock, a session's selected times are 0, 0.5, 1.0, … in row order. |
| Analyzer.ClockSelectionStep | data_analyzer.py:87 | Adding one row extends a session's selected times by that row's time exactly when the row belongs to the session; the new time is the number selected before, halved. |
| Frames.MatchingWidth | data_visualizer.py:24 | Selected rows keep the table's width. |
| Analyzer.CorrelationColumns | data_analyzer.py:19 | The correlation columns are exactly the columns other than `profile_id` and `Tiempo_Segundos`, still distinct. |
| Analyzer.CorrelationColumnsAppend | data_analyzer.py:19 | Dropping the two columns distributes over concatenation, so the remaining columns keep the table's order. |
| Analyzer.CorrelationColumnsSingle | data_analyzer.py:19 | A single column is kept if and only if it is neither `profile_id` nor `Tiempo_Segundos`. |
| Analyzer.AnalyzeCorrelations | data_analyzer.py:11-42 | An absent table gives no report. The ranking is non-increasing and a permutation of the labelled coefficients. The top has 3 entries when there are at least 4 coefficients, and one fewer than their number otherwise. Its k-th entry is the ranking's (k+1)-th, and it is non-increasing. |
| Analyzer.TopLeavesOutSelf | data_analyzer.py:39 | When `pm`'s self-correlation is strictly the largest, `pm` ranks first and is not among the top three. |
| Ranking.Label | data_analyzer.py:34 | Each column is paired with its coefficient, in column order. |
| Ranking.Insert | data_analyzer.py:34 | Insertion adds exactly one entry. |
| Ranking.InsertMultiset | data_analyzer.py:34 | Insertion adds exactly the new entry to the multiset of entries. |
| Ranking.InsertMembers | data_analyzer.py:34 | Every entry after insertion is the new entry or an old one. |
| Ranking.InsertKeepsOrder | data_analyzer.py:34 | Inserting into a non-increasing list keeps it non-increasing. |
| Ranking.SortDescending | data_analyzer.py:34 | The result is non-increasing and a permutation of the input. |
| Ranking.PositionsOneToThree | data_analyzer.py:39 | The slice `[1:4]` has at most 3 entries, clipped to the length, and its k-th entry is the input's (k+1)-th. |
| Ranking.TopKeepsOrder | data_analyzer.py:39 | The slice of a non-increasing ranking is non-increasing. |
| Ranking.Without | data_visualizer.py:180-182 | The listing holds exactly the entries not labelled with the name. |
| Ranking.WithoutKeepsOrder | data_visualizer.py:178-182 | Skipping entries keeps a non-increasing ranking non-increasing. |
| Ranking.WithoutMultiset | data_visualizer.py:178-182 | Each entry appears in the listing as often as in the ranking, or not at all if it carries the skipped name. |
| Ranking.RepeatedEntry | data_analyzer.py:34 | An entry found at two positions occurs at least twice in the multiset. |
| Ranking.DistinctEntries | data_analyzer.py:34 | Labelling distinct columns gives each entry at most once. |
| Ranking.SelfRanksFirst | data_analyzer.py:39 | The one entry named `pm` with strictly the largest value is first, and no later entry has that name. |
| Visualizer.SessionRows | data_visualizer.py:24-28 | A session's rows are table rows carrying its id, of full width. There are none if and only if the id does not occur. |
| Visualizer.SummarizeColumn | data_visualizer.py:50-54 | The mean is `Stats.Mean` of the column, min ≤ mean ≤ max, min and max are values of the column, and they bound every row. |
| Visualizer.SummarizeColumns | data_visualizer.py:50-54 | One summary per listed column, in list order. |
| Visualizer.ClassifyTrend | data_visualizer.py:64-69 | The ordered rule: increasing if and only if the final reading is above 1.05 times the initial, decreasing if and only if it is not and is below 0.95 times, stable if and only if it lies within both bounds. |
| Visualizer.TrendIsRelativeChange | data_visualizer.py:64-69 | For a positive initial reading: increasing if and only if the relative change exceeds 5%, decreasing if and only if it is below −5%, stable if and only if it is within ±5%. |
| Visualizer.DivisionCompare | data_visualizer.py:64-66 | Helper: comparing a quotient by a positive divisor with a bound is comparing the dividend with the scaled bound. |
| Visualizer.SignOfProduct | data_visualizer.py:64-66 | Helper: multiplying by a positive factor keeps the sign. |
| Visualizer.ThresholdsOverlapOnlyBelowZero | data_visualizer.py:64-66 | Both thresholds hold at once only for a negative initial reading, so the test order matters only there. |
| Visualizer.UnchangedIsStable | data_visualizer.py:64-69 | An unchanged non-negative reading is stable. |
| Visualizer.UnchangedNegativeReadsIncreasing | data_visualizer.py:64-65 | An unchanged negative reading is classified as increasing. |
| Visualizer.Peak | data_visualizer.py:58-59 | The peak bounds every rotor temperature, and its time is that of the first row reaching it. |
| Visualizer.PeakExample | data_visualizer.py:58-64 | Temperatures 40, 42, 45 at 0, 0.5 and 1.0 s peak at 45 at 1.0 s and count as increasing. |
| Visualizer.SummarizeTemperatures | data_visualizer.py:49-69 | Initial and final rotor temperature are the first and last rows' `pm`. The peak is the first maximum and its time, and the trend classifies initial against final. |
| Visualizer.SummarizeOperations | data_visualizer.py:122-138 | The column figures are those of the six operational columns. The maximum speed is attained and bounds every speed. The average speed and average torque are `Stats.Mean` of their columns and lie between those columns' minimum and maximum. The peak absolute torque bounds every \|torque\| and equals one. The regeneration flag holds if and only if some torque is negative. |
| Visualizer.PeakAbs | data_visualizer.py:132 | The peak absolute value of a column bounds every row's absolute value and equals one of them. |
| Visualizer.Regenerative | data_visualizer.py:137 | The lowest value is negative if and only if some row's value is negative. |
| Visualizer.PlotAndSummarizeTemperatureTrends | data_visualizer.py:15-69 | Only `profile_id` is needed up front; the time and temperature columns are needed only when some requested id has rows. An absent table gives nothing. Otherwise there is one outcome per requested id, in request order. It is a skip if and only if the id has no rows, and otherwise the temperature summary of exactly that session's rows. |
| Visualizer.PlotAndSummarizeOperationalTrends | data_visualizer.py:80-138 | The same as the temperature loop, with the operational summary. |
| Visualizer.Ones | data_visualizer.py:159 | The all-true mask is n by n. |
| Visualizer.Triu | data_visualizer.py:159 | The upper triangle keeps the matrix's shape. |
| Visualizer.HeatmapMask | data_visualizer.py:159 | The mask is n by n, and cell (i, j) is hidden if and only if j ≥ i. |
| Visualizer.MaskShowsEachPairOnce | data_visualizer.py:159 | The diagonal is hidden, and of every pair of mirrored off-diagonal cells exactly one is shown. |
| Visualizer.PlotAndSummarizeCorrelationHeatmap | data_visualizer.py:148-182 | An absent table gives nothing. The mask covers the correlation columns. The `pm` listing is non-increasing, never names `pm`, and holds only labelled coefficients of correlation columns. As a multiset it is exactly the labelled coefficients without `pm`'s own, so every other column appears exactly once with its coefficient. |
| Visualizer.ListedOnce | data_visualizer.py:178-182 | Filtering a permutation of the labelled coefficients gives a permutation of the filtered coefficients. Every listed entry is a labelled coefficient, and each column other than `pm` appears exactly once. |
| Exporter.Targets | data_exporter.py:20-35 | The friendly names are exactly the rename table's values. |
| Exporter.TargetsDistinct | data_exporter.py:20-35 | Different source names get different friendly names. |
| Exporter.TargetsNotRenamed | data_exporter.py:20-35 | No friendly name is itself a source name. |
| Exporter.Rename | data_exporter.py:20-35 | A source name becomes its friendly name, any other name is kept, and no result is a source name. |
| Exporter.RenameLeavesNoSourceName | data_exporter.py:20-35 | After renaming no source name remains, so a second rename changes nothing. |
| Exporter.RenameInjective | data_exporter.py:20-35 | Two different names that are not friendly names stay different. |
| Exporter.RenameCanCollide | data_exporter.py:20-35 | A header holding both `u_q` and `voltaje_q_v` ends up with `voltaje_q_v` twice. |
| Exporter.RenameColumns | data_exporter.py:20-35 | Each column is renamed in place, and the count and order are kept. |
| Exporter.PowerBiReady | data_exporter.py:20-35 | The rows are unchanged, the column count and order are kept, and no source name remains. Distinct names stay distinct when no column already has a friendly name. |
| Exporter.ExportPowerBiReadyData | data_exporter.py:11-48 | An absent table writes nothing. A `.csv` path sends the renamed table to the CSV writer, a `.parquet` path to the Parquet writer, and any other path is unsupported. Each of these holds if and only if its condition does. |
| Exporter.EndsWith | data_exporter.py:38-42 | A path ends with a suffix if and only if it is at least as long and its last characters match the suffix one by one. |
| Exporter.SuffixesExclusive | data_exporter.py:38-42 | No path ends in both `.csv` and `.parquet`. |
| Exporter.DefaultPathIsCsv | data_exporter.py:3-41 | The default path `motor_data_powerbi_ready.csv` selects CSV. |
| Exporter.DefaultExportRenamesRotorTemperature | data_exporter.py:3-41 | A default export keeps every row and shows `pm` only as `temperatura_rotor_c`. |

## Left out

- `analisis.py` is not part of this model: loading the CSV (file I/O and its exception handling), `inspect_data` (prints only) and the main sequence of calls.
- Plotting. Figures, line plots, the heatmap drawing and `show()` have no checkable result, so only the data behind them (summaries, mask, listing) is modelled.
- Console output is reduced to data: the cleaner's messages are the `CleanMessage` values. The analyzer's and visualizer's prints, and the `.2f` / `.4f` formatting, are returned as report values or left out. This covers the `head()` / `tail()` previews of the time column.
- Analyzer.AnalyzeCorrelations: the Pearson coefficients computed by `corr()` are not modelled. The `pm` column of the matrix is an input vector aligned with the correlation columns.
- Analyzer.AnalyzeCorrelations: `corr()` yields NaN for a constant column or for fewer than two rows. `sort_values` places NaN last, and it then reaches the top-three slice and the listing. The coefficients here are reals, so that case is not captured.
- Visualizer.PlotAndSummarizeCorrelationHeatmap: the same NaN coefficients are not captured. pandas would list them last.
- Analyzer.AnalyzeCorrelations: `sort_values` uses quicksort, which does not promise an order for tied coefficients. The model's sort is stable, so only the order of equal values can differ.
- Analyzer.AnalyzeDescriptiveStatistics: `describe()` also reports standard deviation and quartiles (library interpolation on floats). Only count, mean, min and max are modelled.
- Numbers are exact reals. IEEE rounding (of the sums behind a mean, or of the 1.05 and 0.95 factors) is not modelled.
- pandas skips NaN inside `min`/`max`/`mean`. Downstream stages take a cleaned table, which holds no missing cells, so that skipping never applies.
- A missing required column makes pandas raise `KeyError`. Each operation requires its columns instead:
  - the cleaner needs `profile_id`;
  - the session analysis needs `profile_id` and `Tiempo_Segundos`;
  - the two per-session loops need `profile_id` always, and `Tiempo_Segundos` and the six temperature or operational columns only when some requested id has rows. In the source those columns are first read by the line plots, so their absence surfaces as a plotting library error rather than `KeyError`;
  - the correlation analysis and the heatmap need `profile_id`, `Tiempo_Segundos` and `pm`, and a `pm` coefficient vector as long as the correlation columns.
- Column names are assumed distinct, as the CSV reader makes them. `dropna` keeps the original row labels, and `idxmax` / `.loc` use those labels. The model works by position, which agrees with the labels as long as they are unique.
- File writes by `to_csv` / `to_parquet` are not modelled. The export outcome records which writer receives which table at which path.
