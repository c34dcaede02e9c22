# GDP forecasting: a verified model of the deterministic core

GDP-Forecast is a Frappe app. Users upload annual and quarterly GDP
datasets of the Riyadh region as CSV files. Four scripts then fit
statistical models per economic sector and write the forecasts for
2024..2030 into result tables:

- Holt-Winters annual;
- Holt-Winters quarterly;
- ARIMA quarterly;
- ARIMA annual.

This project models the logic around the statistical libraries and proves
what that logic guarantees:

- **Upload.** How a CSV file becomes dataset rows (`process_annual_file`,
  `process_quarterly_file`, `handle_uploaded_file`).
- **Quarter codec.** How a quarter period is parsed and printed.
- **Series preparation.** How the per-sector series are prepared: group
  sum, allow-list, zero-filled pivot, year window, 80/20 split,
  conditional first difference and chronological sort.
- **Grid search.** How the Holt-Winters grid search would pick its parameters. The script never calls `grid_search`, which is nested in `main_annual` (holt_winters_annual.py:99). The parameters it uses come from the fixed `best_params_dict` (holt_winters_annual.py:159-171).
- **Result tables.** What rows each script leaves in its result table, in
  what order, with what rmse and with what post-processing.

Every library call is a parameter of the model and is never interpreted:
exponential smoothing, auto-ARIMA, the ADF test, the error metrics'
square root, and `int`/`float` parsing. A database table is a `Sink.Table`,
a class holding the sequence of its rows. The only statements on it are
`TRUNCATE` and `INSERT`. Floats are modelled as `real`.

Modules, one per file:

| file | module | models |
|---|---|---|
| `wrappers.dfy` | `Wrappers` | `Option`, `Result` |
| `text.dfy` | `Text` | `str.replace(',', '')`, `str.split()`, `str(int)`, `:02d`, string `<` |
| `quarter_codec.dfy` | `QuarterCodec` | both `custom_quarterly_parser`s, `date_to_quarter_string`, forecast labels |
| `sink.dfy` | `Sink` | a result or dataset table |
| `upload.dfy` | `Upload` | `gdp_forecasting.py` parsers and upload handler |
| `series.dfy` | `Series` | pandas and numpy steps shared by the scripts |
| `grid_search.dfy` | `GridSearch` | `grid_search` of `holt_winters_annual.py` |
| `hw_annual.dfy` | `HoltWintersAnnual` | `holt_winters_annual.py` |
| `hw_quarterly.dfy` | `HoltWintersQuarterly` | `holt_winters_quarterly.py` |
| `arima_quarterly.dfy` | `ArimaQuarterly` | `arima_quarterly.py` |
| `arima_annual.dfy` | `ArimaAnnual` | `arima_annual.py` |

Each main routine follows the same pattern:

- It is a method that changes a `Table` and returns what it computed.
- It is proved equal to a reference function over the input rows, for
  example `SmoothAll`, `ArimaAll` or `StoredRows`.
- The guarantees themselves are proved as lemmas about that function.

## Model

| member | source | states |
|---|---|---|
| Text.RemoveCommas | gdp_forecasting/gdp_forecasting/doctype/gdp_forecasting/gdp_forecasting.py:120 | no comma is left, every other character keeps its count, and a string without commas is unchanged; with RemoveCommasConcat and RemoveCommasChar, the other characters keep their order |
| Text.RemoveCommasIdempotent | gdp_forecasting/gdp_forecasting/doctype/gdp_forecasting/gdp_forecasting.py:147 | stripping commas twice equals stripping once |
| Text.RemoveCommasConcat | gdp_forecasting/gdp_forecasting/doctype/gdp_forecasting/gdp_forecasting.py:120 | stripping commas from `a + b` strips `a` and `b` and keeps them in that order |
| Text.RemoveCommasChar | gdp_forecasting/gdp_forecasting/doctype/gdp_forecasting/gdp_forecasting.py:120 | a single comma is dropped and any other single character is kept |
| Text.Split | gdp_forecasting/forecast_scripts/holt_winters_quarterly.py:12 | every word is non-empty and holds no separator |
| Text.SplitTwoWords | gdp_forecasting/forecast_scripts/holt_winters_quarterly.py:12 | two words joined by a space split back into exactly those two words |
| Text.DigitValue | gdp_forecasting/forecast_scripts/holt_winters_quarterly.py:13 | on the ASCII text `str(int)` produces, `int` of one character succeeds exactly on '0'..'9', giving the digit that prints as that character |
| Text.NatToStringRoundTrip | gdp_forecasting/forecast_scripts/holt_winters_quarterly.py:51 | reading back the decimal rendering of a natural number gives the number |
| Text.IntToString | gdp_forecasting/forecast_scripts/holt_winters_quarterly.py:51 | `str(i)` is non-empty, has no space and starts with '-' exactly for negative i, followed by the magnitude's digits |
| Text.NatToStringInjective | gdp_forecasting/forecast_scripts/holt_winters_annual.py:63 | distinct natural numbers render differently |
| Text.IntToStringInjective | gdp_forecasting/forecast_scripts/holt_winters_annual.py:63 | distinct integers render differently |
| Text.ZeroPad2 | gdp_forecasting/forecast_scripts/arima_quarterly.py:52 | `:02d` pads 0..9 with a leading zero, gives the two digits of 10..99, and is plain `str` otherwise |
| Text.StringLessTotal | gdp_forecasting/forecast_scripts/arima_annual.py:67 | Python's string `<` orders any two different strings one way or the other |
| Text.StringLessTransitive | gdp_forecasting/forecast_scripts/arima_annual.py:67 | Python's string `<` is transitive |
| Text.StringLessIrreflexive | gdp_forecasting/forecast_scripts/arima_annual.py:67 | no string is less than itself |
| QuarterCodec.QuarterDigit | gdp_forecasting/forecast_scripts/holt_winters_quarterly.py:13 | `int(quarter[1])` succeeds exactly when the token has a second character that is a digit, and gives that digit |
| QuarterCodec.FirstMonth | gdp_forecasting/forecast_scripts/arima_quarterly.py:51 | the month is a calendar month exactly for quarters 1..4, and is 1 mod 3 |
| QuarterCodec.HwQuarterlyParse | gdp_forecasting/forecast_scripts/holt_winters_quarterly.py:11-15 | fails exactly when the text is not two words or the quarter digit cannot be read |
| QuarterCodec.ArimaQuarterlyParse | gdp_forecasting/forecast_scripts/arima_quarterly.py:48-52 | fails under exactly the same conditions as the Holt-Winters parser |
| QuarterCodec.QuarterOfMonth | gdp_forecasting/forecast_scripts/holt_winters_quarterly.py:18-21 | a month in 1..12 lies in quarter q in 1..4, within the three months starting at q's first month |
| QuarterCodec.HwParseReadsOneCharacter | gdp_forecasting/forecast_scripts/holt_winters_quarterly.py:12-15 | "Y Qn…" parses to "Y-Qn"; only the character after the first one of the quarter word is read |
| QuarterCodec.HwParseOfRow | gdp_forecasting/forecast_scripts/holt_winters_quarterly.py:51-54 | on a row's period text, a non-negative quarter keeps only its leading digit; a negative quarter is a ValueError |
| QuarterCodec.ArimaParseReadsOneCharacter | gdp_forecasting/forecast_scripts/arima_quarterly.py:49-52 | "Y Qn…" parses to "Y-MM-01", MM the zero-padded first month of quarter n |
| QuarterCodec.FirstMonthPadded | gdp_forecasting/forecast_scripts/arima_quarterly.py:51-52 | the padded first months of quarters 1..4 are 01, 04, 07, 10 |
| QuarterCodec.ArimaParseOfRow | gdp_forecasting/forecast_scripts/arima_quarterly.py:69-72 | a row with quarter 1..4 parses to the first day of that quarter |
| QuarterCodec.QuarterMonthRoundTrip | gdp_forecasting/forecast_scripts/arima_quarterly.py:51-58 | quarter → first month → `date_to_quarter_string` gives back "Y-Qn", which is also the Holt-Winters parse of the row |
| QuarterCodec.DateToQuarterString | gdp_forecasting/forecast_scripts/arima_quarterly.py:55-58 | reference definition of `f"{year}-Q{quarter}"` with `quarter = (month-1)//3+1`; its round trip is QuarterMonthRoundTrip |
| QuarterCodec.ForecastSteps | gdp_forecasting/forecast_scripts/holt_winters_quarterly.py:86 | for start <= end the horizon is a positive multiple of 4, and 28 for 2024..2030 |
| QuarterCodec.YearLabelsAt | gdp_forecasting/forecast_scripts/holt_winters_quarterly.py:92-95 | one year yields its four labels "Y-Q1".."Y-Q4" in order |
| QuarterCodec.PySliceTo | gdp_forecasting/forecast_scripts/holt_winters_quarterly.py:96 | Python's `xs[:k]` for non-negative and negative k, clamped to the bounds |
| QuarterCodec.ForecastLabelsLength | gdp_forecasting/forecast_scripts/holt_winters_quarterly.py:92-96 | there are `(end-start+1)*4` labels, none when start > end |
| QuarterCodec.BlockAt | gdp_forecasting/forecast_scripts/holt_winters_quarterly.py:92-95 | in the nested year-then-quarter comprehension, element `4y+j` is element j of year `start+y` |
| QuarterCodec.ForecastLabelAt | gdp_forecasting/forecast_scripts/holt_winters_quarterly.py:92-95 | label k is quarter `k%4+1` of year `start+k/4` |
| QuarterCodec.ForecastLabelsShape | gdp_forecasting/forecast_scripts/holt_winters_quarterly.py:92-96 | the count and the label at every index together |
| QuarterCodec.ForecastLabels | gdp_forecasting/forecast_scripts/holt_winters_quarterly.py:92-95 | reference definition of the year-then-quarter label comprehension; its count and labels are ForecastLabelsShape |
| QuarterCodec.LabelTruncationIsNoOp | gdp_forecasting/forecast_scripts/holt_winters_quarterly.py:86-96 | the `[:forecast_steps]` truncation removes no label |
| QuarterCodec.QuartersAfter | gdp_forecasting/forecast_scripts/arima_quarterly.py:92 | `steps` labels follow a given quarter |
| QuarterCodec.QuarterAfterYearEnd | gdp_forecasting/forecast_scripts/arima_quarterly.py:92 | the k+1-th quarter after Q4 of start-1 is quarter `k%4+1` of `start+k/4` |
| QuarterCodec.QuartersAfterMatchesForecastLabels | gdp_forecasting/forecast_scripts/arima_quarterly.py:90-92 | continuing from Q4 of start-1 gives exactly the Holt-Winters labels for start..end |
| Upload.CheckHeader | gdp_forecasting/gdp_forecasting/doctype/gdp_forecasting/gdp_forecasting.py:106-111 | the header passes exactly when the file has a first row whose first cell is 'Sector'; that row is the header |
| Upload.FoldRowsIsConcat | gdp_forecasting/gdp_forecasting/doctype/gdp_forecasting/gdp_forecasting.py:114-124 | a file succeeds exactly when every row does, and its output is the rows' outputs concatenated in file order |
| Upload.FoldRows | gdp_forecasting/gdp_forecasting/doctype/gdp_forecasting/gdp_forecasting.py:114-124 | reference definition of a row loop whose first exception propagates; characterised by FoldRowsIsConcat and FoldRowsFailurePersists |
| Upload.FoldRowsFailurePersists | gdp_forecasting/gdp_forecasting/doctype/gdp_forecasting/gdp_forecasting.py:141-154 | once a prefix of the rows raises, the whole file raises the same error |
| Upload.Repeat | gdp_forecasting/gdp_forecasting/doctype/gdp_forecasting/gdp_forecasting.py:117-121 | n copies of one value |
| Upload.ProcessAnnualFile | gdp_forecasting/gdp_forecasting/doctype/gdp_forecasting/gdp_forecasting.py:101-126 | the nested loop computes exactly the reference result of the annual file |
| Upload.AnnualFile | gdp_forecasting/gdp_forecasting/doctype/gdp_forecasting/gdp_forecasting.py:101-126 | reference definition of the annual file: header check, then the rows folded; the loop ProcessAnnualFile meets it |
| Upload.ProcessAnnualRow | gdp_forecasting/gdp_forecasting/doctype/gdp_forecasting/gdp_forecasting.py:115-124 | the inner zip loop over one row yields exactly the reference contribution of that row, including the IndexError on a short row |
| Upload.AnnualRow | gdp_forecasting/gdp_forecasting/doctype/gdp_forecasting/gdp_forecasting.py:115-124 | reference definition of one row's records, the IndexError on a short row and the skipped ValueError cells; the loop ProcessAnnualRow meets it |
| Upload.AnnualRowAllOrNothing | gdp_forecasting/gdp_forecasting/doctype/gdp_forecasting/gdp_forecasting.py:114-124 | a row yields records exactly when it has zip steps and both conversions succeed; it then yields min(len(headers)-2, len(row)-2) copies of `(row[0], row[1], int(row[2]), float(row[3] without commas))` |
| Upload.AnnualHeaderChecked | gdp_forecasting/gdp_forecasting/doctype/gdp_forecasting/gdp_forecasting.py:110-111 | a successfully parsed annual file starts with a 'Sector' header |
| Upload.QuarterlySeries | gdp_forecasting/gdp_forecasting/doctype/gdp_forecasting/gdp_forecasting.py:143-152 | one record per converted value, each of the row's sector, with quarter in 1..4 and year from 2015 on |
| Upload.ProcessQuarterlyFile | gdp_forecasting/gdp_forecasting/doctype/gdp_forecasting/gdp_forecasting.py:128-156 | the loop computes exactly the reference result of the quarterly file |
| Upload.QuarterlyFile | gdp_forecasting/gdp_forecasting/doctype/gdp_forecasting/gdp_forecasting.py:128-156 | reference definition of the quarterly file; the loop ProcessQuarterlyFile meets it |
| Upload.QuarterlyRow | gdp_forecasting/gdp_forecasting/doctype/gdp_forecasting/gdp_forecasting.py:141-154 | reference definition of one row's records through QuarterlySeries; the loop ProcessQuarterlyCells meets it |
| Upload.ProcessQuarterlyCells | gdp_forecasting/gdp_forecasting/doctype/gdp_forecasting/gdp_forecasting.py:141-154 | the counter loop gives the k-th converted cell year `2015+k/4` and quarter `k%4+1` |
| Upload.QuarterCounterStep | gdp_forecasting/gdp_forecasting/doctype/gdp_forecasting/gdp_forecasting.py:149-152 | the counter update (quarter 4 wraps to quarter 1 of the next year) agrees with the k/4, k%4 closed form |
| Upload.UnparsableCellSkipped | gdp_forecasting/gdp_forecasting/doctype/gdp_forecasting/gdp_forecasting.py:153-154 | a cell that does not convert adds nothing and does not advance the counter |
| Upload.QuarterlyRecordsWellFormed | gdp_forecasting/gdp_forecasting/doctype/gdp_forecasting/gdp_forecasting.py:143-152 | every record of a parsed quarterly file has quarter 1..4 and a year from 2015 on |
| Upload.StampAll | gdp_forecasting/gdp_forecasting/doctype/gdp_forecasting/gdp_forecasting.py:52-56 | record i is stored with the one timestamp of the upload |
| Upload.HandleUploadedFile | gdp_forecasting/gdp_forecasting/doctype/gdp_forecasting/gdp_forecasting.py:31-98 | Annual/Quarterly: the other table is untouched; on success the table holds exactly the parsed records in order with one timestamp; on error it is empty and the error is raised; any other type returns False and changes nothing |
| Sink.Table.Truncate | gdp_forecasting/gdp_forecasting/doctype/gdp_forecasting/gdp_forecasting.py:48 | the table is empty afterwards |
| Sink.Table.Insert | gdp_forecasting/gdp_forecasting/doctype/gdp_forecasting/gdp_forecasting.py:53-56 | the row is appended after the existing rows |
| Sink.Table.InsertAll | gdp_forecasting/gdp_forecasting/doctype/gdp_forecasting/gdp_forecasting.py:52-56 | the rows are appended in order |
| Series.AllowListed | gdp_forecasting/forecast_scripts/arima_annual.py:64 | no more rows than the input, and a row is kept exactly when its sector is allow-listed; with AllowListedConcat and AllowListedOne, the kept rows stay in row order with duplicates |
| Series.AllowListedConcat | gdp_forecasting/forecast_scripts/arima_annual.py:64 | filtering `a + b` gives the filtered `a` followed by the filtered `b` |
| Series.AllowListedOne | gdp_forecasting/forecast_scripts/arima_annual.py:64 | one row is kept exactly when its sector is allow-listed |
| Series.Unique | gdp_forecasting/forecast_scripts/holt_winters_quarterly.py:77 | every value exactly once, nothing else |
| Series.UniqueKeepsFirstAppearanceOrder | gdp_forecasting/forecast_scripts/arima_quarterly.py:81 | the unique values come in the order of their first appearance |
| Series.GroupSum | gdp_forecasting/forecast_scripts/arima_annual.py:57 | one entry per (sector, year) that occurs, holding the sum of that pair's gdp |
| Series.SumOfAbsentKey | gdp_forecasting/forecast_scripts/arima_annual.py:70 | a pair with no row sums to 0 |
| Series.PivotFill | gdp_forecasting/forecast_scripts/arima_annual.py:67-70 | a cell for every sector and every year that occur, holding the grouped value or 0 |
| Series.AnnualPivotHw | gdp_forecasting/forecast_scripts/holt_winters_annual.py:127-140 | reference definition of the filter-then-sum-then-pivot of the Holt-Winters loader; PivotCells and PivotDomain state its cells |
| Series.AnnualPivotArima | gdp_forecasting/forecast_scripts/arima_annual.py:56-70 | reference definition of the sum-then-filter-then-pivot of the ARIMA loader; PivotCells shows it equals AnnualPivotHw |
| Series.SumOfAllowListed | gdp_forecasting/forecast_scripts/arima_annual.py:57-64 | filtering leaves an allow-listed sector's sums unchanged |
| Series.GroupThenFilter | gdp_forecasting/forecast_scripts/arima_annual.py:57-64 | summing then filtering equals filtering then summing |
| Series.PivotCells | gdp_forecasting/forecast_scripts/holt_winters_annual.py:127-140 | the Holt-Winters and ARIMA pivots agree; each cell is an allow-listed sector's sum for that year, 0 where the pair has no row |
| Series.PivotDomain | gdp_forecasting/forecast_scripts/holt_winters_annual.py:127-140 | a cell exists exactly for an allow-listed sector and a year among the allow-listed rows |
| Series.SectorNames | gdp_forecasting/forecast_scripts/arima_annual.py:93 | the sector column, row for row |
| Series.YearWindow | gdp_forecasting/forecast_scripts/arima_annual.py:94 | the label slice: every column year in lo..hi, ascending, and nothing else |
| Series.FullYearWindow | gdp_forecasting/forecast_scripts/arima_annual.py:94 | with every year of lo..hi a column, the window is exactly lo..hi (9 years for 2015..2023) |
| Series.Range | gdp_forecasting/forecast_scripts/arima_annual.py:83 | `range(lo, hi)`: hi-lo integers, element k being lo+k |
| Series.SectorRow | gdp_forecasting/forecast_scripts/arima_annual.py:94 | the sector's pivot cells over the given columns, in column order |
| Series.TrainSize | gdp_forecasting/forecast_scripts/holt_winters_annual.py:146 | `int(0.8*n)`: the largest k with 5k <= 4n |
| Series.TrainTestSplit | gdp_forecasting/forecast_scripts/holt_winters_annual.py:146-147 | train ++ test is the series, train of length train_size and test of length n - train_size |
| Series.FirstDifferenceInverse | gdp_forecasting/forecast_scripts/arima_annual.py:78 | `np.diff` is one shorter, and the first value plus a prefix sum of the differences rebuilds each value |
| Series.FirstDifference | gdp_forecasting/forecast_scripts/arima_annual.py:78 | reference definition of `np.diff`; FirstDifferenceInverse states its length and inverse |
| Series.MakeStationary | gdp_forecasting/forecast_scripts/arima_annual.py:75-79 | p > 0.05: the n-1 differences s[i+1]-s[i]; otherwise the series unchanged |
| Series.InsertByPeriod | gdp_forecasting/forecast_scripts/holt_winters_quarterly.py:56 | inserting into sorted rows stays sorted and adds exactly that row |
| Series.SortByPeriod | gdp_forecasting/forecast_scripts/holt_winters_quarterly.py:55-56 | `sort_index`: ascending by period and a permutation of the rows |
| Series.PrepareQuarterly | gdp_forecasting/forecast_scripts/arima_quarterly.py:72-74 | succeeds exactly when every row's period gives a date, and is then sorted and a permutation |
| Series.PeriodIndexOfUploadedRow | gdp_forecasting/forecast_scripts/arima_quarterly.py:69-74 | an uploaded row (quarter 1..4) has a date and sorts by (year, quarter) |
| Series.HasDate | gdp_forecasting/forecast_scripts/holt_winters_quarterly.py:51-55 | reference definition of "the period text parses to a date"; PeriodIndexOfUploadedRow shows every uploaded row has one |
| Series.SectorValues | gdp_forecasting/forecast_scripts/holt_winters_quarterly.py:81 | no more values than rows; with SectorValuesConcat and SectorValuesOne, exactly the gdp of the sector's rows in row order |
| Series.SectorValuesConcat | gdp_forecasting/forecast_scripts/holt_winters_quarterly.py:81 | the values of `a + b` are the values of `a` followed by those of `b` |
| Series.SectorValuesOne | gdp_forecasting/forecast_scripts/holt_winters_quarterly.py:81 | one row gives its gdp exactly when it is of the sector, otherwise nothing |
| Series.SortNames | gdp_forecasting/forecast_scripts/arima_annual.py:67 | the sorted names are a permutation of the input |
| Series.InsertName | gdp_forecasting/forecast_scripts/arima_annual.py:67 | inserting adds exactly that name, which lands first or behind the old first name |
| Series.InsertNameSorted | gdp_forecasting/forecast_scripts/arima_annual.py:67 | inserting a new name into names in order keeps them in order |
| Series.SortNamesSorted | gdp_forecasting/forecast_scripts/arima_annual.py:67 | sorting names without repetitions leaves each strictly before the next |
| Series.SortedNamesOrdered | gdp_forecasting/forecast_scripts/arima_annual.py:67 | in names in order, every earlier name is less than every later one |
| Series.SortNamesShape | gdp_forecasting/forecast_scripts/arima_annual.py:67 | the pivot's index order: the same names, each once, each before every later one |
| Series.SectorsOfRows | gdp_forecasting/forecast_scripts/holt_winters_quarterly.py:77 | the sector column, row for row |
| Series.Clip | gdp_forecasting/forecast_scripts/holt_winters_quarterly.py:98 | same length; every value >= 0; non-negative values unchanged, negative ones 0 |
| Series.ClipIdempotent | gdp_forecasting/forecast_scripts/arima_quarterly.py:95 | clipping twice equals clipping once; a series without negatives is unchanged |
| GridSearch.PeriodRow | gdp_forecasting/forecast_scripts/holt_winters_annual.py:106 | period innermost: candidate k has period ps[k] |
| GridSearch.SeasonalBlock | gdp_forecasting/forecast_scripts/holt_winters_annual.py:106 | one trend's candidates: as many as seasonal options times periods |
| GridSearch.Product | gdp_forecasting/forecast_scripts/holt_winters_annual.py:106 | as many candidates as trends times seasonal options times periods |
| GridSearch.ProductAt | gdp_forecasting/forecast_scripts/holt_winters_annual.py:106 | position 12a+4b+c holds (ts[a], ss[b], ps[c]): the `itertools.product` order |
| GridSearch.CandidateOrder | gdp_forecasting/forecast_scripts/holt_winters_annual.py:102-106 | 36 candidates over {add, mul, None}² × {3, 4, 5, 6}, trend outermost |
| GridSearch.TriedOf | gdp_forecasting/forecast_scripts/holt_winters_annual.py:107-108 | a candidate is tried exactly when it is enumerated and not (None, None) |
| GridSearch.TriedRow | gdp_forecasting/forecast_scripts/holt_winters_annual.py:107-108 | a (None, None) row is skipped entirely; any other row is tried entirely |
| GridSearch.BlockTried | gdp_forecasting/forecast_scripts/holt_winters_annual.py:107-108 | 12 tried per trend, 8 for trend None |
| GridSearch.ThirtyTwoTried | gdp_forecasting/forecast_scripts/holt_winters_annual.py:102-108 | exactly 32 candidates are tried |
| GridSearch.Search | gdp_forecasting/forecast_scripts/holt_winters_annual.py:99-120 | the loop computes the reference left-to-right selection with strict `<` |
| GridSearch.Select | gdp_forecasting/forecast_scripts/holt_winters_annual.py:105-116 | reference definition of the left-to-right strict-`<` selection; SelectIsFirstMinimum and SelectNone state what it picks |
| GridSearch.SelectNone | gdp_forecasting/forecast_scripts/holt_winters_annual.py:117-120 | (inf, None) exactly when no candidate is tried and scored |
| GridSearch.SelectIsFirstMinimum | gdp_forecasting/forecast_scripts/holt_winters_annual.py:113-116 | the kept candidate is tried and scored, no scored candidate beats it, and every earlier scored one is strictly worse (first wins) |
| HoltWintersAnnual.BestParamsSectors | gdp_forecasting/forecast_scripts/holt_winters_annual.py:159-171 | ten distinct allow-listed sectors, 'Total Riyadh GDP' not among them |
| HoltWintersAnnual.BestParamsTried | gdp_forecasting/forecast_scripts/holt_winters_annual.py:159-171 | each fixed triple is one the grid search would try |
| HoltWintersAnnual.PredictionYearsValue | gdp_forecasting/forecast_scripts/holt_winters_annual.py:174 | the horizon is 2024..2030 |
| HoltWintersAnnual.RowNameInjective | gdp_forecasting/forecast_scripts/holt_winters_annual.py:63 | for non-negative years the name `sector-year` determines the sector and the year |
| HoltWintersAnnual.RowName | gdp_forecasting/forecast_scripts/holt_winters_annual.py:63 | reference definition of `f"{sector}-{year}"`; RowNameInjective states when it determines its parts |
| HoltWintersAnnual.NegativeYearNamesCollide | gdp_forecasting/forecast_scripts/holt_winters_annual.py:63 | with a negative year two different pairs share one name |
| HoltWintersAnnual.NameCountZero | gdp_forecasting/forecast_scripts/holt_winters_annual.py:60-65 | the count is 0 exactly when no row has the name |
| HoltWintersAnnual.CountByName | gdp_forecasting/forecast_scripts/holt_winters_annual.py:60-63 | the scan returns the count of rows with that name, 0 exactly when none |
| HoltWintersAnnual.KeyedInsertHasEveryName | gdp_forecasting/forecast_scripts/holt_winters_annual.py:56-91 | every candidate's name ends up in the table |
| HoltWintersAnnual.KeyedInsert | gdp_forecasting/forecast_scripts/holt_winters_annual.py:56-91 | reference definition of insert-if-no-row-of-this-name over all candidates; the KeyedInsert lemmas state what it keeps |
| HoltWintersAnnual.KeyedInsertUniqueNames | gdp_forecasting/forecast_scripts/holt_winters_annual.py:65 | the names in the table are unique |
| HoltWintersAnnual.KeyedInsertStoresFirsts | gdp_forecasting/forecast_scripts/holt_winters_annual.py:59-72 | every stored row is a candidate that is the first of its name |
| HoltWintersAnnual.KeyedInsertKeepsFirsts | gdp_forecasting/forecast_scripts/holt_winters_annual.py:59-72 | every candidate that is the first of its name is stored |
| HoltWintersAnnual.EarlierRowsWin | gdp_forecasting/forecast_scripts/holt_winters_annual.py:56-91 | an earlier first-of-name row is stored and is the only stored row with its name, whatever follows |
| HoltWintersAnnual.SectorRecords | gdp_forecasting/forecast_scripts/holt_winters_annual.py:57 | a row is kept exactly when it is of that sector; with SectorRecordsConcat and SectorRecordsOne, the rows stay in row order with duplicates, the order `iterrows` visits |
| HoltWintersAnnual.SectorRecordsConcat | gdp_forecasting/forecast_scripts/holt_winters_annual.py:57 | selecting from `a + b` gives the selection from `a` followed by that from `b` |
| HoltWintersAnnual.SectorRecordsOne | gdp_forecasting/forecast_scripts/holt_winters_annual.py:57 | one row is selected exactly when it is of that sector |
| HoltWintersAnnual.HistoryRows | gdp_forecasting/forecast_scripts/holt_winters_annual.py:58-71 | one historical row per record |
| HoltWintersAnnual.HistoryRowsShape | gdp_forecasting/forecast_scripts/holt_winters_annual.py:63-71 | every historical row carries rmse 0 and the name `sector-year` of its own sector and year |
| HoltWintersAnnual.SevenForecastYears | gdp_forecasting/forecast_scripts/holt_winters_annual.py:77 | a seven-value forecast gives rows for exactly 2024..2030, paired in order with the values |
| HoltWintersAnnual.StoredAreCandidates | gdp_forecasting/forecast_scripts/holt_winters_annual.py:65-72 | every stored row is a candidate |
| HoltWintersAnnual.StoredRowsShape | gdp_forecasting/forecast_scripts/holt_winters_annual.py:176 | with `rmse_values` reset to {} every stored row has rmse 0 and name `sector-year`, and names are unique |
| HoltWintersAnnual.FirstRawRowKept | gdp_forecasting/forecast_scripts/holt_winters_annual.py:56-72 | for two sub-sector rows of one (sector, year) only the first raw gdp is stored, while the pivot holds the sum |
| HoltWintersAnnual.PivotOfTwoSubSectors | gdp_forecasting/forecast_scripts/holt_winters_annual.py:127 | the pivot cell of two sub-sector rows is their sum |
| HoltWintersAnnual.HistoryWinsOverForecast | gdp_forecasting/forecast_scripts/holt_winters_annual.py:56-91 | a historical row is stored and no forecast row with its name is |
| HoltWintersAnnual.ForecastCandidatesContain | gdp_forecasting/forecast_scripts/holt_winters_annual.py:75-77 | every row zipped from one sector's forecast is among the forecast candidates |
| HoltWintersAnnual.ForecastYearsStored | gdp_forecasting/forecast_scripts/holt_winters_annual.py:75-91 | every predicted sector has a stored row for each horizon year its forecast covers |
| HoltWintersAnnual.InsertIfAbsent | gdp_forecasting/forecast_scripts/holt_winters_annual.py:60-72 | one check-then-insert extends the keyed-insert state by one candidate |
| HoltWintersAnnual.InsertSectorHistory | gdp_forecasting/forecast_scripts/holt_winters_annual.py:58-72 | the loop over one sector's rows extends the state by its historical rows |
| HoltWintersAnnual.InsertSectorForecast | gdp_forecasting/forecast_scripts/holt_winters_annual.py:77-91 | the zip loop extends the state by one sector's forecast rows |
| HoltWintersAnnual.InsertHistory | gdp_forecasting/forecast_scripts/holt_winters_annual.py:56-72 | from empty, the table holds the keyed insert of every sector's history |
| HoltWintersAnnual.InsertForecasts | gdp_forecasting/forecast_scripts/holt_winters_annual.py:75-91 | the forecast loop extends the state by every sector's forecast rows |
| HoltWintersAnnual.InsertPredictionsToDb | gdp_forecasting/forecast_scripts/holt_winters_annual.py:36-91 | after truncation the table holds exactly the reference `StoredRows` |
| HoltWintersAnnual.StoredRows | gdp_forecasting/forecast_scripts/holt_winters_annual.py:36-91 | reference definition of the rows left by the history and forecast loops; StoredRowsShape and ForecastYearsStored state them |
| HoltWintersAnnual.MinYear | gdp_forecasting/forecast_scripts/holt_winters_annual.py:127 | the least year among the rows |
| HoltWintersAnnual.MaxYear | gdp_forecasting/forecast_scripts/holt_winters_annual.py:127 | the greatest year among the rows |
| HoltWintersAnnual.Columns | gdp_forecasting/forecast_scripts/holt_winters_annual.py:127 | the pivot's columns: exactly the years among the rows, ascending |
| HoltWintersAnnual.SectorSeries | gdp_forecasting/forecast_scripts/holt_winters_annual.py:145 | one value per column |
| HoltWintersAnnual.SectorsOfPivot | gdp_forecasting/forecast_scripts/holt_winters_annual.py:144 | the pivot's index is exactly the distinct loaded sectors |
| HoltWintersAnnual.HoldoutPass | gdp_forecasting/forecast_scripts/holt_winters_annual.py:143-156 | the discarded rmse pass raises exactly when some sector's holdout fit raises |
| HoltWintersAnnual.PredictionsShape | gdp_forecasting/forecast_scripts/holt_winters_annual.py:178-192 | on success one forecast per fixed sector, in order, each from its fixed triple on its pivot row |
| HoltWintersAnnual.PredictionsOf | gdp_forecasting/forecast_scripts/holt_winters_annual.py:178-192 | reference definition of the fixed-parameter forecasts; PredictionsShape and MissingSectorStops state them |
| HoltWintersAnnual.MissingSectorStops | gdp_forecasting/forecast_scripts/holt_winters_annual.py:182 | a fixed sector missing from the pivot makes the loop fail |
| HoltWintersAnnual.FineTune | gdp_forecasting/forecast_scripts/holt_winters_annual.py:178-192 | the loop computes the reference predictions or the first failure |
| HoltWintersAnnual.FailureStays | gdp_forecasting/forecast_scripts/holt_winters_annual.py:178-192 | a failure in a prefix is the failure of the whole loop |
| HoltWintersAnnual.MainAnnual | gdp_forecasting/forecast_scripts/holt_winters_annual.py:122-195 | the result is the reference plan; on failure the table is untouched; on success it holds `StoredRows` of the loaded rows, the forecasts, 2024..2030 and {} |
| HoltWintersAnnual.MainAnnualPlan | gdp_forecasting/forecast_scripts/holt_winters_annual.py:122-195 | reference definition of what `main_annual` computes before its inserts; MainAnnual meets it |
| HoltWintersQuarterly.DateOfIsParsed | gdp_forecasting/forecast_scripts/holt_winters_quarterly.py:54 | the `Date` column is the parser's output on the row's period text |
| HoltWintersQuarterly.DateOfPeriod | gdp_forecasting/forecast_scripts/holt_winters_quarterly.py:54-56 | a row's date label names the quarter its sort key counts |
| HoltWintersQuarterly.HistoryRows | gdp_forecasting/forecast_scripts/holt_winters_quarterly.py:62-66 | one historical row per loaded row |
| HoltWintersQuarterly.LoadPlan | gdp_forecasting/forecast_scripts/holt_winters_quarterly.py:37-56 | loading succeeds exactly on non-empty data whose periods all parse, giving a sorted permutation |
| HoltWintersQuarterly.HistoryInDateOrder | gdp_forecasting/forecast_scripts/holt_winters_quarterly.py:55-66 | the historical rows are in ascending date order, carry rmse 0 and their period's label |
| HoltWintersQuarterly.LoadAndPrepare | gdp_forecasting/forecast_scripts/holt_winters_quarterly.py:24-68 | on failure the table is untouched; on success it holds exactly the sorted historical rows |
| HoltWintersQuarterly.SectorForecastRows | gdp_forecasting/forecast_scripts/holt_winters_quarterly.py:106-110 | one row per label |
| HoltWintersQuarterly.SmoothedNonNegative | gdp_forecasting/forecast_scripts/holt_winters_quarterly.py:98 | every appended gdp is >= 0 |
| HoltWintersQuarterly.SmoothedRmse | gdp_forecasting/forecast_scripts/holt_winters_quarterly.py:101-110 | every appended row carries its own sector's rmse |
| HoltWintersQuarterly.SmoothedCount | gdp_forecasting/forecast_scripts/holt_winters_quarterly.py:86-110 | without failure every sector appends exactly one row per label |
| HoltWintersQuarterly.SmoothedPrefix | gdp_forecasting/forecast_scripts/holt_winters_quarterly.py:80-110 | a run without failure extends the run over every prefix of the sectors |
| HoltWintersQuarterly.SmoothedRowAt | gdp_forecasting/forecast_scripts/holt_winters_quarterly.py:92-110 | with L labels, row j·L+k is sector j's label k, clipped forecast k and rmse |
| HoltWintersQuarterly.ApplySmoothing | gdp_forecasting/forecast_scripts/holt_winters_quarterly.py:75-112 | the rows appended are the reference loop over the unique sectors with the truncated labels of start..end |
| HoltWintersQuarterly.SmoothSectors | gdp_forecasting/forecast_scripts/holt_winters_quarterly.py:80-110 | the sector loop computes the reference outcome and appends exactly its rows |
| HoltWintersQuarterly.SmoothAll | gdp_forecasting/forecast_scripts/holt_winters_quarterly.py:80-110 | reference definition of the sector loop; the Smoothed lemmas state its rows |
| HoltWintersQuarterly.SmoothSector | gdp_forecasting/forecast_scripts/holt_winters_quarterly.py:81-110 | one pass appends exactly one sector's rows, nothing on failure |
| HoltWintersQuarterly.SectorStep | gdp_forecasting/forecast_scripts/holt_winters_quarterly.py:81-110 | reference definition of one sector's fit, clip and rows; SmoothedRowAt states its rows |
| HoltWintersQuarterly.SmoothFailureStays | gdp_forecasting/forecast_scripts/holt_winters_quarterly.py:82-83 | once a sector fails the later sectors are never reached |
| HoltWintersQuarterly.MainQuarterly | gdp_forecasting/forecast_scripts/holt_winters_quarterly.py:119-121 | the table holds the sorted historical rows followed by every sector's 2024..2030 rows; it is untouched when loading fails |
| HoltWintersQuarterly.ScriptLabels | gdp_forecasting/forecast_scripts/holt_winters_quarterly.py:86-96 | 28 labels for 2024..2030, untouched by the truncation, label k being quarter k%4+1 of 2024+k/4 |
| ArimaQuarterly.DateOfRow | gdp_forecasting/forecast_scripts/arima_quarterly.py:69-73 | an uploaded row parses to a date whose quarter is the row's quarter |
| ArimaQuarterly.SectorLastIsLast | gdp_forecasting/forecast_scripts/arima_quarterly.py:92 | None exactly for a sector with no row; otherwise a row of the sector with none of it after |
| ArimaQuarterly.SectorLast | gdp_forecasting/forecast_scripts/arima_quarterly.py:92 | reference definition of `sector_data.index[-1]`; SectorLastIsLast states it |
| ArimaQuarterly.SectorLastIsLatest | gdp_forecasting/forecast_scripts/arima_quarterly.py:72-74 | on sorted rows a sector's last row is in its latest quarter |
| ArimaQuarterly.MinPositiveIsLeast | gdp_forecasting/forecast_scripts/arima_quarterly.py:97 | None exactly when no value is positive; otherwise a positive value no greater than any positive one |
| ArimaQuarterly.MinPositive | gdp_forecasting/forecast_scripts/arima_quarterly.py:97 | reference definition of `sector_data[sector_data > 0].min()`; MinPositiveIsLeast states it |
| ArimaQuarterly.ReplaceNegatives | gdp_forecasting/forecast_scripts/arima_quarterly.py:98 | negatives become the fill, the rest are unchanged |
| ArimaQuarterly.ReplaceAfterClipIsNoOp | gdp_forecasting/forecast_scripts/arima_quarterly.py:95-98 | after clipping the min-positive replacement changes nothing |
| ArimaQuarterly.StoredValues | gdp_forecasting/forecast_scripts/arima_quarterly.py:94-98 | the stored values are exactly the clipped forecast |
| ArimaQuarterly.SectorRows | gdp_forecasting/forecast_scripts/arima_quarterly.py:103-107 | one row per label |
| ArimaQuarterly.ArimaFailureStays | gdp_forecasting/forecast_scripts/arima_quarterly.py:86-91 | once a sector fails the later sectors are never reached |
| ArimaQuarterly.ArimaNonNegative | gdp_forecasting/forecast_scripts/arima_quarterly.py:95 | every stored gdp is >= 0 |
| ArimaQuarterly.ArimaRmse | gdp_forecasting/forecast_scripts/arima_quarterly.py:100-106 | every row carries its own sector's single rmse |
| ArimaQuarterly.ArimaCount | gdp_forecasting/forecast_scripts/arima_quarterly.py:90-107 | without failure every sector appends exactly `steps` rows |
| ArimaQuarterly.ArimaPrefix | gdp_forecasting/forecast_scripts/arima_quarterly.py:86-107 | rows are appended sector by sector: each prefix's rows are a prefix of the rows |
| ArimaQuarterly.ArimaRowAt | gdp_forecasting/forecast_scripts/arima_quarterly.py:92-107 | row j·steps+k is sector j's k+1-th quarter after its last row, clipped forecast k and rmse |
| ArimaQuarterly.ArimaSector | gdp_forecasting/forecast_scripts/arima_quarterly.py:87-107 | one pass appends exactly one sector's rows, nothing on failure |
| ArimaQuarterly.SectorStep | gdp_forecasting/forecast_scripts/arima_quarterly.py:87-107 | reference definition of one sector's fit, clip and rows; ArimaRowAt states its rows |
| ArimaQuarterly.ArimaNext | gdp_forecasting/forecast_scripts/arima_quarterly.py:86-107 | one loop turn moves from the outcome of sectors[..i] to that of sectors[..i+1] |
| ArimaQuarterly.ArimaSectors | gdp_forecasting/forecast_scripts/arima_quarterly.py:86-107 | the loop computes the reference outcome and appends exactly its rows |
| ArimaQuarterly.ArimaAll | gdp_forecasting/forecast_scripts/arima_quarterly.py:86-107 | reference definition of the sector loop; the Arima lemmas state its rows |
| ArimaQuarterly.ApplyArima | gdp_forecasting/forecast_scripts/arima_quarterly.py:79-111 | after one truncation the table holds exactly the rows of the unique sectors in order of first appearance |
| ArimaQuarterly.MainArimaQuarterly | gdp_forecasting/forecast_scripts/arima_quarterly.py:118-120 | an unparsable period leaves the table untouched; otherwise the table holds the reference rows of the sorted data with horizon 28 |
| ArimaQuarterly.ScriptHorizon | gdp_forecasting/forecast_scripts/arima_quarterly.py:90 | the script's horizon is 28 quarters |
| ArimaAnnual.SumSquaresNonNegative | gdp_forecasting/forecast_scripts/arima_annual.py:102 | the sum of squared errors is never negative |
| ArimaAnnual.SumAbsNonNegative | gdp_forecasting/forecast_scripts/arima_annual.py:106 | the sum of absolute errors is never negative |
| ArimaAnnual.MetricsOfFit | gdp_forecasting/forecast_scripts/arima_annual.py:102-106 | mse and mae are never negative |
| ArimaAnnual.MeanOfNonNegative | gdp_forecasting/forecast_scripts/arima_annual.py:113-115 | the mean exists exactly for a non-empty list and is non-negative for non-negative entries |
| ArimaAnnual.Mse | gdp_forecasting/forecast_scripts/arima_annual.py:102 | reference definition of `mean_squared_error`; MetricsOfFit states it is non-negative |
| ArimaAnnual.Mae | gdp_forecasting/forecast_scripts/arima_annual.py:106 | reference definition of `mean_absolute_error`; MetricsOfFit states it is non-negative |
| ArimaAnnual.Mean | gdp_forecasting/forecast_scripts/arima_annual.py:113-115 | reference definition of `np.mean`; MeanOfNonNegative states it |
| ArimaAnnual.WindowCells | gdp_forecasting/forecast_scripts/arima_annual.py:94 | the series of a sector has one value per window column, the sum of that (sector, year) |
| ArimaAnnual.FullWindow | gdp_forecasting/forecast_scripts/arima_annual.py:94 | with every year of lo..hi present the series has hi-lo+1 values, value k the sum for year lo+k |
| ArimaAnnual.WindowSeries | gdp_forecasting/forecast_scripts/arima_annual.py:94 | reference definition of `loc[..., 2015:2023].values.flatten()`; WindowCells and FullWindow state it |
| ArimaAnnual.LoadFrame | gdp_forecasting/forecast_scripts/arima_annual.py:49-70 | reference definition of the loaded pivot; WindowCells states its cells |
| ArimaAnnual.YearRows | gdp_forecasting/forecast_scripts/arima_annual.py:107-111 | the zip: as long as the shorter, row k pairing year k with forecast k and the sector's rmse |
| ArimaAnnual.YearRowsCoverYears | gdp_forecasting/forecast_scripts/arima_annual.py:83-111 | a forecast of the horizon's length gives one row per year start..end, with the sector's rmse |
| ArimaAnnual.SectorStepMetrics | gdp_forecasting/forecast_scripts/arima_annual.py:101-106 | a fitted sector's mse and mae are >= 0 and its rmse is the root of its mse |
| ArimaAnnual.ArimaFailureStays | gdp_forecasting/forecast_scripts/arima_annual.py:93-98 | once a sector fails the later sectors are never reached |
| ArimaAnnual.TotalsPerSector | gdp_forecasting/forecast_scripts/arima_annual.py:98-106 | without failure each total list and `forecasts` have one entry per sector, in order; rmse is the root of mse; no error is negative |
| ArimaAnnual.RowsCarrySectorRmse | gdp_forecasting/forecast_scripts/arima_annual.py:107-111 | every row is for a fitted sector and a horizon year and carries that sector's rmse |
| ArimaAnnual.MetricsOf | gdp_forecasting/forecast_scripts/arima_annual.py:113-115 | the mean mae exists exactly when some sector was scored |
| ArimaAnnual.MetricsNonNegative | gdp_forecasting/forecast_scripts/arima_annual.py:113-115 | without failure the mean mae and mse exist exactly for a non-empty sector list and are non-negative |
| ArimaAnnual.ArimaSector | gdp_forecasting/forecast_scripts/arima_annual.py:94-111 | one pass appends exactly one sector's rows, nothing on failure |
| ArimaAnnual.SectorStep | gdp_forecasting/forecast_scripts/arima_annual.py:94-111 | reference definition of one sector's slice, adf, fit, metrics and rows; SectorStepMetrics states its metrics |
| ArimaAnnual.ArimaNext | gdp_forecasting/forecast_scripts/arima_annual.py:93-111 | one loop turn moves from the outcome of sectors[..i] to that of sectors[..i+1] |
| ArimaAnnual.ArimaSectors | gdp_forecasting/forecast_scripts/arima_annual.py:93-111 | the loop computes the reference outcome and appends exactly its rows |
| ArimaAnnual.ArimaAll | gdp_forecasting/forecast_scripts/arima_annual.py:93-111 | reference definition of the sector loop; TotalsPerSector and RowsCarrySectorRmse state it |
| ArimaAnnual.ForecastAll | gdp_forecasting/forecast_scripts/arima_annual.py:82-111 | after truncation the table holds exactly the rows of every sector for start..end |
| ArimaAnnual.SectorsInFrame | gdp_forecasting/forecast_scripts/arima_annual.py:93 | every sector of the pivot's name-sorted sector column has a series |
| ArimaAnnual.PivotSectorsShape | gdp_forecasting/forecast_scripts/arima_annual.py:67 | the sector column of the pivot holds the allow-listed sectors present, each once, sorted by name |
| ArimaAnnual.PivotSectors | gdp_forecasting/forecast_scripts/arima_annual.py:67 | reference definition of `df_pivot['sector']`: the sectors sorted by name; PivotSectorsShape states it |
| ArimaAnnual.SectorsFitted | gdp_forecasting/forecast_scripts/arima_annual.py:93-111 | reference definition of the loop over the pivot's sectors in name order; LoadAndForecast meets it |
| ArimaAnnual.LoadAndForecast | gdp_forecasting/forecast_scripts/arima_annual.py:49-111 | the table holds exactly the reference rows of the sector loop over the loaded pivot, its sectors in name order |
| ArimaAnnual.MainArimaAnnual | gdp_forecasting/forecast_scripts/arima_annual.py:120-126 | the script's allow-list, window 2015..2023 and horizon 2024..2030; metrics are the means when no sector failed |

## Left out

- The statistical libraries are parameters and are never modelled. This covers exponential smoothing (fit, forecast, fitted values), `auto_arima` (fit, predict, predict_in_sample), `adfuller`, `np.log1p`/`np.expm1`, `sqrt` and sklearn's scores. Each becomes a function that returns the values, or None where the library raises.
- Floating point, NaN and infinity are not modelled; values are `real`. `float('inf')` is the `Infinity` score of the grid search.
- `int(...)` and `float(...)` on CSV cells are parameters returning None where Python raises ValueError. The model does not fix which strings they accept.
- `datetime.now()` is the `timestamp` parameter of `HandleUploadedFile`.
- These are not modelled:
  - `CREATE TABLE IF NOT EXISTS` statements;
  - `frappe.db.commit`;
  - `msgprint` and `log_error`;
  - the Django and Frappe connection setup;
  - file opening and `csv.reader`, which become the sequence of rows they yield;
  - `print`.
  
  `frappe.throw` is the `Raised` outcome.
- The app's other entry points are not part of this model: `upload_file`, `upload_base_datasets`, `insert_data`, `run_forecast_script`, `save_forecasts` and the JS pages and reports. They only pass data between the modelled parts, the UI and CSV output.
- The cleaning of `None` cells into `""` in the Frappe loaders is not modelled. The dataset rows are typed records.
- HoltWintersAnnual.MainAnnual: the pivot index is a map, so the order in which pandas visits sectors in the discarded rmse pass is not modelled. Only whether some fit raised matters there.
- Series.PrepareQuarterly and HoltWintersQuarterly.LoadPlan (through Series.HasDate): the model assumes every dataset year lies inside the range of pandas timestamps (1677 to 2262). `pd.to_datetime` rejects dates outside it, which the model does not; uploaded years start at 2015 and grow by one per four values.
- Text.DigitValue, Text.IsSpace and the other text helpers handle only the ASCII text that `str(int)` produces. Python's `int` also reads other Unicode decimal digits, and `str.split()` also splits on the characters 0x1c..0x1f and on Unicode spaces. The period text the parsers receive is always built from `str(int)`, where none of these occur.
- Series.SortNames: names are compared by code point, as Python's string `<` compares them (Text.StringLess). The model assumes the pandas sort of the pivot index uses that order.
- ArimaAnnual.SectorStep: a window bound (2015 or 2023) that is not a pivot column is modelled as the `MissingColumn` failure, the KeyError of the label slice. The model then assumes the in-sample predictions have the series' length: a different length, or an empty series, is the `MetricFailed` failure.
- ArimaAnnual.MetricsOfFit: proves only that mse and mae are non-negative. It does not prove that they are zero exactly for a perfect fit, because the nonlinear real arithmetic needed for that was left out.
- ArimaAnnual.MetricsOf: `np.mean` of an empty list is NaN in numpy; here it is None.
- Series.SortByPeriod: `sort_index` is not a stable sort, so the contract states only "sorted by period and a permutation". The model's sort itself keeps rows with the same period in input order, and pandas may order them differently.
- HoltWintersQuarterly.LoadAndPrepare, HoltWintersQuarterly.ApplySmoothing, HoltWintersQuarterly.MainQuarterly, ArimaQuarterly.ApplyArima and ArimaQuarterly.MainArimaQuarterly: their `table.rows` equations hold for the input-order tie-break of SortByPeriod only. The tie order decides the order of the stored history rows (holt_winters_quarterly.py:56-66). It also decides the first-visit order of the sectors, `Unique(SectorsOfRows(sorted))`, which orders the forecast rows. For another tie order only the per-row facts carry over: SmoothedRowAt, ArimaRowAt, SectorLastIsLatest and HistoryInDateOrder.
- ArimaQuarterly.SectorStep: `pd.date_range(start=last, periods=n+1, freq='Q')[1:]` is modelled as the n quarters after the quarter of the sector's last row, labelled by `date_to_quarter_string`. The pandas anchoring to quarter-end dates is not modelled. An error of the rmse computation is folded into `FitFailed`.
- ArimaQuarterly.ReplaceNegatives: requires a fill value or no negative value. Without a positive observation `min_gdp` is NaN, which the model cannot hold. After the clip there is never a negative value, so the case does not arise in the script.
- ArimaQuarterly.ApplyArima: requires start <= end. A non-positive horizon is not modelled, because what `predict(n_periods=0)` does is up to the library.
- HoltWintersQuarterly.SectorStep and ArimaQuarterly.SectorStep: a forecast whose length differs from the labels is the `LengthMismatch` failure, the error pandas raises when assigning the column.
- Concurrency is not modelled. Every script is sequential and nothing else writes to its tables.
