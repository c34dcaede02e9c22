/**
 * The quarterly Holt-Winters script: load the quarterly dataset, parse each
 * row's period, sort the rows by date, replace the result table with the
 * historical rows, then fit one additive model per sector and append its
 * clipped forecasts for the quarters of 2024..2030 with the sector's
 * in-sample rmse.
 *
 * The fit-and-forecast step is the oracle `smooth`: given a sector's values
 * and a horizon it returns the forecast and the rmse of the fitted values,
 * or None when the library raises.
 */
module HoltWintersQuarterly {

  import opened Wrappers
  import opened Text
  import opened QuarterCodec
  import opened Upload
  import opened Series
  import opened Sink

  /** A row of the `holt_winters_quarterly` table. */
  datatype HwQuarterlyRow = HwQuarterlyRow(sector: string, yearQuarter: string, gdp: real, rmse: real)

  /** Why the script stops. */
  datatype QuarterlyFailure =
    | NoData                        // the query returned nothing: `df` is unbound
    | DateParseFailed               // a period that the parser or `pd.to_datetime` rejects
    | FitFailed(sector: string)     // the library raised while fitting or forecasting
    | LengthMismatch(sector: string) // the forecast and the labels differ in length

  // ------------------------------------------------------ loading

  /** The `Date` column of a loaded row. */
  function DateOf(r: QuarterlyRecord): string {
    QuarterString(r.year, ParsedQuarter(r))
  }

  /** The `Date` column is what `custom_quarterly_parser` makes of the row's period text. */
  lemma DateOfIsParsed(r: QuarterlyRecord)
    requires HasDate(r)
    ensures HwQuarterlyParse(YearQuarterString(r.year, r.quarter)) == Success(DateOf(r))
  {
    HwParseOfRow(r.year, r.quarter);
  }

  /** The `Date` label of a row names the quarter its sort key counts. */
  lemma DateOfPeriod(r: QuarterlyRecord)
    requires HasDate(r)
    ensures DateOf(r) == QuarterString(PeriodIndex(r) / 4, PeriodIndex(r) % 4 + 1)
  {
    var q := ParsedQuarter(r);
    assert PeriodIndex(r) == r.year * 4 + (q - 1);
    assert PeriodIndex(r) / 4 == r.year && PeriodIndex(r) % 4 == q - 1;
  }

  /** The historical row for a loaded row: its date label and rmse 0. */
  function HistoryRow(r: QuarterlyRecord): HwQuarterlyRow {
    HwQuarterlyRow(r.sector, DateOf(r), r.gdp, 0.0)
  }

  function HistoryRows(rows: seq<QuarterlyRecord>): (h: seq<HwQuarterlyRow>)
    ensures |h| == |rows|
  {
    seq(|rows|, i requires 0 <= i < |rows| => HistoryRow(rows[i]))
  }

  /** What the loading step leaves for the forecasting step, or why the script stops. */
  function LoadPlan(data: seq<QuarterlyRecord>): (r: Result<seq<QuarterlyRecord>, QuarterlyFailure>)
    ensures r.Success? <==> data != [] && forall i :: 0 <= i < |data| ==> HasDate(data[i])
    ensures r.Success? ==> SortedByPeriod(r.value) && multiset(r.value) == multiset(data)
  {
    if data == [] then Failure(NoData)
    else match PrepareQuarterly(data)
      case None => Failure(DateParseFailed)
      case Some(sorted) => Success(sorted)
  }

  /**
   * The historical rows the table holds after loading are in ascending date
   * order, each carries rmse 0, and each row's label is its period's label.
   */
  lemma HistoryInDateOrder(data: seq<QuarterlyRecord>)
    requires LoadPlan(data).Success?
    ensures var sorted := LoadPlan(data).value;
            |HistoryRows(sorted)| == |data| &&
            (forall i, j :: 0 <= i < j < |sorted| ==> PeriodIndex(sorted[i]) <= PeriodIndex(sorted[j])) &&
            (forall i :: 0 <= i < |sorted| ==>
               HistoryRows(sorted)[i].rmse == 0.0 &&
               HistoryRows(sorted)[i].yearQuarter == QuarterString(PeriodIndex(sorted[i]) / 4, PeriodIndex(sorted[i]) % 4 + 1))
  {
    var sorted := LoadPlan(data).value;
    AllDated(data, sorted);
    forall i | 0 <= i < |sorted|
      ensures HistoryRows(sorted)[i].yearQuarter == QuarterString(PeriodIndex(sorted[i]) / 4, PeriodIndex(sorted[i]) % 4 + 1)
    {
      DateOfPeriod(sorted[i]);
    }
  }

  /** A reordering of dated rows is as long and all its rows are dated. */
  lemma AllDated(data: seq<QuarterlyRecord>, sorted: seq<QuarterlyRecord>)
    requires forall i :: 0 <= i < |data| ==> HasDate(data[i])
    requires multiset(sorted) == multiset(data)
    ensures |sorted| == |data| && forall i :: 0 <= i < |sorted| ==> HasDate(sorted[i])
  {
    assert |sorted| == |multiset(sorted)| == |multiset(data)| == |data|;
    forall i | 0 <= i < |sorted| ensures HasDate(sorted[i]) {
      assert sorted[i] in multiset(data);
      var k :| 0 <= k < |data| && data[k] == sorted[i];
    }
  }

  /**
   * `load_and_prepare_data_from_frappe()`: parse and sort, then truncate the
   * table and insert every historical row with rmse 0. Parsing fails before
   * the truncation, so a failure leaves the table as it was.
   */
  method LoadAndPrepare(table: Table<HwQuarterlyRow>, data: seq<QuarterlyRecord>)
    returns (r: Result<seq<QuarterlyRecord>, QuarterlyFailure>)
    modifies table
    ensures r == LoadPlan(data)
    ensures r.Failure? ==> table.rows == old(table.rows)
    ensures r.Success? ==> table.rows == HistoryRows(r.value)
  {
    r := LoadPlan(data);
    if r.Success? {
      table.Truncate();
      table.InsertAll(HistoryRows(r.value));
    }
  }

  // ------------------------------------------------------ forecasting

  /** The `forecast_steps` rows appended for one sector: label, clipped forecast and the sector's rmse. */
  function SectorForecastRows(sector: string, labels: seq<string>, forecast: seq<real>, rmse: real): (r: seq<HwQuarterlyRow>)
    requires |forecast| == |labels|
    ensures |r| == |labels|
  {
    seq(|labels|, k requires 0 <= k < |labels| => HwQuarterlyRow(sector, labels[k], Clip(forecast)[k], rmse))
  }

  /** One sector's forecast rows, or why it fails. */
  function SectorStep(data: seq<QuarterlyRecord>, sector: string, labels: seq<string>, steps: int,
                      smooth: (seq<real>, int) -> Option<(seq<real>, real)>)
    : Result<seq<HwQuarterlyRow>, QuarterlyFailure>
  {
    match smooth(SectorValues(data, sector), steps)
      case None => Failure(FitFailed(sector))
      case Some(fit) =>
        if |fit.0| != |labels| then Failure(LengthMismatch(sector))
        else Success(SectorForecastRows(sector, labels, fit.0, fit.1))
  }

  /** The rows appended by the sector loop, and the failure that ended it early, if any. */
  datatype Outcome = Outcome(rows: seq<HwQuarterlyRow>, failure: Option<QuarterlyFailure>)

  /** The sector loop over the given sectors, in order. */
  function SmoothAll(data: seq<QuarterlyRecord>, sectors: seq<string>, labels: seq<string>, steps: int,
                     smooth: (seq<real>, int) -> Option<(seq<real>, real)>): Outcome
  {
    if sectors == [] then Outcome([], None)
    else
      var prev := SmoothAll(data, sectors[..|sectors| - 1], labels, steps, smooth);
      if prev.failure.Some? then prev
      else match SectorStep(data, sectors[|sectors| - 1], labels, steps, smooth)
        case Failure(e) => Outcome(prev.rows, Some(e))
        case Success(rows) => Outcome(prev.rows + rows, None)
  }

  /** Every appended value is non-negative: `clip(lower=0)`. */
  lemma {:induction false} SmoothedNonNegative(data: seq<QuarterlyRecord>, sectors: seq<string>, labels: seq<string>, steps: int,
                                               smooth: (seq<real>, int) -> Option<(seq<real>, real)>)
    ensures forall i :: 0 <= i < |SmoothAll(data, sectors, labels, steps, smooth).rows| ==>
              SmoothAll(data, sectors, labels, steps, smooth).rows[i].gdp >= 0.0
  {
    if sectors != [] {
      var init := sectors[..|sectors| - 1];
      SmoothedNonNegative(data, init, labels, steps, smooth);
      var prev := SmoothAll(data, init, labels, steps, smooth);
      var step := SectorStep(data, sectors[|sectors| - 1], labels, steps, smooth);
      if prev.failure.None? && step.Success? {
        var fit := smooth(SectorValues(data, sectors[|sectors| - 1]), steps).value;
        forall k | 0 <= k < |step.value| ensures step.value[k].gdp >= 0.0 {
          assert step.value[k].gdp == Clip(fit.0)[k];
        }
        assert SmoothAll(data, sectors, labels, steps, smooth).rows == prev.rows + step.value;
      }
    }
  }

  /** Every appended row carries the rmse of its own sector's fit. */
  lemma {:induction false} SmoothedRmse(data: seq<QuarterlyRecord>, sectors: seq<string>, labels: seq<string>, steps: int,
                                        smooth: (seq<real>, int) -> Option<(seq<real>, real)>)
    ensures forall i :: 0 <= i < |SmoothAll(data, sectors, labels, steps, smooth).rows| ==>
              var row := SmoothAll(data, sectors, labels, steps, smooth).rows[i];
              row.sector in sectors &&
              smooth(SectorValues(data, row.sector), steps).Some? &&
              smooth(SectorValues(data, row.sector), steps).value.1 == row.rmse
  {
    if sectors != [] {
      var init := sectors[..|sectors| - 1];
      SmoothedRmse(data, init, labels, steps, smooth);
      assert forall s :: s in init ==> s in sectors;
    }
  }

  /** Without a failure, every sector appends exactly `|labels|` rows. */
  lemma {:induction false} SmoothedCount(data: seq<QuarterlyRecord>, sectors: seq<string>, labels: seq<string>, steps: int,
                                         smooth: (seq<real>, int) -> Option<(seq<real>, real)>)
    requires SmoothAll(data, sectors, labels, steps, smooth).failure.None?
    ensures |SmoothAll(data, sectors, labels, steps, smooth).rows| == |sectors| * |labels|
  {
    if sectors != [] {
      SmoothedCount(data, sectors[..|sectors| - 1], labels, steps, smooth);
      assert |sectors| * |labels| == (|sectors| - 1) * |labels| + |labels|;
    }
  }

  /** A run without failure extends the run over every prefix of the sectors. */
  lemma {:induction false} SmoothedPrefix(data: seq<QuarterlyRecord>, sectors: seq<string>, labels: seq<string>, steps: int,
                                          smooth: (seq<real>, int) -> Option<(seq<real>, real)>, n: int)
    requires 0 <= n <= |sectors|
    requires SmoothAll(data, sectors, labels, steps, smooth).failure.None?
    ensures SmoothAll(data, sectors[..n], labels, steps, smooth).failure.None?
    ensures SmoothAll(data, sectors[..n], labels, steps, smooth).rows
            <= SmoothAll(data, sectors, labels, steps, smooth).rows
    decreases |sectors|
  {
    if n == |sectors| {
      assert sectors[..n] == sectors;
    } else {
      var init := sectors[..|sectors| - 1];
      assert init[..n] == sectors[..n];
      SmoothedPrefix(data, init, labels, steps, smooth, n);
    }
  }

  /**
   * Without a failure, row `j * |labels| + k` is the k-th forecast of the
   * j-th sector: label k, the clipped k-th forecast value and the sector's rmse.
   */
  lemma SmoothedRowAt(data: seq<QuarterlyRecord>, sectors: seq<string>, labels: seq<string>, steps: int,
                      smooth: (seq<real>, int) -> Option<(seq<real>, real)>, j: int, k: int)
    requires SmoothAll(data, sectors, labels, steps, smooth).failure.None?
    requires 0 <= j < |sectors| && 0 <= k < |labels|
    ensures j * |labels| + k < |SmoothAll(data, sectors, labels, steps, smooth).rows|
    ensures var fit := smooth(SectorValues(data, sectors[j]), steps);
            fit.Some? && |fit.value.0| == |labels| &&
            SmoothAll(data, sectors, labels, steps, smooth).rows[j * |labels| + k]
              == HwQuarterlyRow(sectors[j], labels[k], Clip(fit.value.0)[k], fit.value.1)
  {
    var full := SmoothAll(data, sectors, labels, steps, smooth).rows;
    SmoothedPrefix(data, sectors, labels, steps, smooth, j + 1);
    var upto := sectors[..j + 1];
    assert upto[..j] == sectors[..j];
    assert upto[j] == sectors[j];
    var before := SmoothAll(data, sectors[..j], labels, steps, smooth);
    SmoothedCount(data, sectors[..j], labels, steps, smooth);
    assert |before.rows| == j * |labels|;
    var fit := smooth(SectorValues(data, sectors[j]), steps);
    var block := SectorForecastRows(sectors[j], labels, fit.value.0, fit.value.1);
    assert SmoothAll(data, upto, labels, steps, smooth).rows == before.rows + block;
    assert (before.rows + block)[j * |labels| + k] == block[k];
  }

  /**
   * `apply_exponential_smoothing_to_all_sectors(data, start, end)`: the
   * sectors in order of first appearance, the labels of `start..end`
   * truncated to the horizon, and each sector's rows appended as it is done.
   */
  method ApplySmoothing(table: Table<HwQuarterlyRow>, data: seq<QuarterlyRecord>, start: int, end: int,
                        smooth: (seq<real>, int) -> Option<(seq<real>, real)>)
    returns (out: Outcome)
    modifies table
    ensures out == SmoothAll(data, Unique(SectorsOfRows(data)), PySliceTo(ForecastLabels(start, end), ForecastSteps(start, end)),
                             ForecastSteps(start, end), smooth)
    ensures table.rows == old(table.rows) + out.rows
  {
    var steps := ForecastSteps(start, end);
    out := SmoothSectors(table, data, Unique(SectorsOfRows(data)), PySliceTo(ForecastLabels(start, end), steps), steps, smooth);
  }

  /** The sector loop: `for sector in sectors`. */
  method SmoothSectors(table: Table<HwQuarterlyRow>, data: seq<QuarterlyRecord>, sectors: seq<string>, labels: seq<string>, steps: int,
                       smooth: (seq<real>, int) -> Option<(seq<real>, real)>)
    returns (out: Outcome)
    modifies table
    ensures out == SmoothAll(data, sectors, labels, steps, smooth)
    ensures table.rows == old(table.rows) + out.rows
  {
    out := Outcome([], None);
    var i := 0;
    while i < |sectors|
      invariant 0 <= i <= |sectors|
      invariant out == SmoothAll(data, sectors[..i], labels, steps, smooth)
      invariant out.failure.None?
      invariant table.rows == old(table.rows) + out.rows
    {
      var step := SmoothSector(table, data, sectors[i], labels, steps, smooth);
      SmoothAllSnoc(data, sectors, labels, steps, smooth, i);
      if step.Failure? {
        out := Outcome(out.rows, Some(step.error));
        SmoothFailureStays(data, sectors, labels, steps, smooth, i + 1);
        return;
      }
      out := Outcome(out.rows + step.value, None);
      i := i + 1;
    }
    assert sectors[..i] == sectors;
  }

  /** The sector loop after one more sector. */
  lemma SmoothAllSnoc(data: seq<QuarterlyRecord>, sectors: seq<string>, labels: seq<string>, steps: int,
                      smooth: (seq<real>, int) -> Option<(seq<real>, real)>, i: int)
    requires 0 <= i < |sectors|
    requires SmoothAll(data, sectors[..i], labels, steps, smooth).failure.None?
    ensures var prev := SmoothAll(data, sectors[..i], labels, steps, smooth).rows;
            SmoothAll(data, sectors[..i + 1], labels, steps, smooth) ==
              match SectorStep(data, sectors[i], labels, steps, smooth)
                case Failure(e) => Outcome(prev, Some(e))
                case Success(rows) => Outcome(prev + rows, None)
  {
    assert sectors[..i + 1][..i] == sectors[..i];
  }

  /** One pass of the sector loop: fit, forecast, clip, and insert the sector's rows. */
  method SmoothSector(table: Table<HwQuarterlyRow>, data: seq<QuarterlyRecord>, sector: string, labels: seq<string>, steps: int,
                      smooth: (seq<real>, int) -> Option<(seq<real>, real)>)
    returns (step: Result<seq<HwQuarterlyRow>, QuarterlyFailure>)
    modifies table
    ensures step == SectorStep(data, sector, labels, steps, smooth)
    ensures table.rows == old(table.rows) + (if step.Success? then step.value else [])
  {
    var fit := smooth(SectorValues(data, sector), steps);
    if fit.None? {
      return Failure(FitFailed(sector));
    }
    var (forecast, rmse) := fit.value;
    if |forecast| != |labels| {
      return Failure(LengthMismatch(sector));
    }
    var rows := SectorForecastRows(sector, labels, forecast, rmse);
    table.InsertAll(rows);
    return Success(rows);
  }

  /** Once a sector fails, the later sectors are never reached. */
  lemma {:induction false} SmoothFailureStays(data: seq<QuarterlyRecord>, sectors: seq<string>, labels: seq<string>, steps: int,
                                              smooth: (seq<real>, int) -> Option<(seq<real>, real)>, n: int)
    requires 0 <= n <= |sectors|
    requires SmoothAll(data, sectors[..n], labels, steps, smooth).failure.Some?
    ensures SmoothAll(data, sectors, labels, steps, smooth) == SmoothAll(data, sectors[..n], labels, steps, smooth)
    decreases |sectors| - n
  {
    if n < |sectors| {
      assert sectors[..n + 1][..n] == sectors[..n];
      SmoothFailureStays(data, sectors, labels, steps, smooth, n + 1);
    } else {
      assert sectors[..n] == sectors;
    }
  }

  /** The years the script forecasts. */
  const StartPeriod := 2024
  const EndPeriod := 2030

  /**
   * `main()`: load and prepare, then forecast 2024..2030. The table ends up
   * holding the sorted historical rows followed by every sector's forecast
   * rows; it is untouched when loading fails.
   */
  method MainQuarterly(table: Table<HwQuarterlyRow>, data: seq<QuarterlyRecord>,
                       smooth: (seq<real>, int) -> Option<(seq<real>, real)>)
    returns (loaded: Result<seq<QuarterlyRecord>, QuarterlyFailure>, out: Outcome)
    modifies table
    ensures loaded == LoadPlan(data)
    ensures loaded.Failure? ==> table.rows == old(table.rows) && out == Outcome([], Some(loaded.error))
    ensures loaded.Success? ==>
              out == SmoothAll(loaded.value, Unique(SectorsOfRows(loaded.value)),
                               PySliceTo(ForecastLabels(StartPeriod, EndPeriod), ForecastSteps(StartPeriod, EndPeriod)),
                               ForecastSteps(StartPeriod, EndPeriod), smooth) &&
              table.rows == HistoryRows(loaded.value) + out.rows
  {
    loaded := LoadAndPrepare(table, data);
    if loaded.Failure? {
      out := Outcome([], Some(loaded.error));
      return;
    }
    out := ApplySmoothing(table, loaded.value, StartPeriod, EndPeriod, smooth);
  }

  /**
   * The script's labels: 28 of them, untouched by the truncation, label k
   * being quarter `k % 4 + 1` of year `2024 + k / 4`.
   */
  lemma ScriptLabels()
    ensures ForecastSteps(StartPeriod, EndPeriod) == 28
    ensures PySliceTo(ForecastLabels(StartPeriod, EndPeriod), 28) == ForecastLabels(StartPeriod, EndPeriod)
    ensures |ForecastLabels(StartPeriod, EndPeriod)| == 28
    ensures forall k :: 0 <= k < 28 ==> ForecastLabels(StartPeriod, EndPeriod)[k] == QuarterString(2024 + k / 4, k % 4 + 1)
  {
    LabelTruncationIsNoOp(StartPeriod, EndPeriod);
    ForecastLabelsShape(StartPeriod, EndPeriod);
  }
}
