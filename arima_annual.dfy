/**
 * The annual ARIMA script: sum the annual dataset per (sector, year), keep
 * the allow-listed sectors, pivot the years into columns with missing cells
 * 0, then for every sector take the 2015..2023 window of its row, difference
 * it when the unit-root test says so, fit a model, record its in-sample
 * error metrics and insert one forecast row per year 2024..2030.
 *
 * The unit-root test, the model and the square root are the oracles of a
 * `Library` value.
 */
module ArimaAnnual {

  import opened Wrappers
  import opened Upload
  import opened Series
  import opened Text
  import opened Sink

  /** A row of the `arima_annual` table. */
  datatype ArimaAnnualRow = ArimaAnnualRow(sector: string, year: int, gdp: real, rmse: real)

  /**
   * The foreign numerics: `adfuller(series)[1]` (None when it raises),
   * `auto_arima` with its forecast of the given length and its in-sample
   * predictions (None when it raises), and `np.sqrt`.
   */
  datatype Library = Library(adf: seq<real> -> Option<real>,
                             arima: (seq<real>, nat) -> Option<(seq<real>, seq<real>)>,
                             sqrt: real -> real)

  /** Why the script stops. */
  datatype ArimaAnnualFailure =
    | MissingColumn(sector: string) // a window bound that is not a column: the label slice raises
    | AdfFailed(sector: string)     // the unit-root test raised
    | FitFailed(sector: string)     // the model raised while fitting or forecasting
    | MetricFailed(sector: string)  // the in-sample predictions do not fit the series

  /** The allow-list of `load_and_clean_data_from_sql_server`. */
  const RelevantSectors: set<string> := {
    "Agriculture, Forestry & Fishing", "Mining & Quarrying", "Manufacturing",
    "Electricity, Gas and Water", "Construction", "Wholesale & Retail Trade, Restaurants & hotels",
    "Transport, Storage & Communication", "Finance, Insurance, Real Estate & Business Services",
    "Community, Social & Personal Services", "Government Activities", "Gross Domestic Product", "Total Riyadh GDP"
  }

  // ------------------------------------------------------ metrics

  function SumSquares(a: seq<real>, b: seq<real>): real
    requires |a| == |b|
  {
    if a == [] then 0.0
    else SumSquares(a[..|a| - 1], b[..|b| - 1]) + (a[|a| - 1] - b[|b| - 1]) * (a[|a| - 1] - b[|b| - 1])
  }

  function Abs(x: real): real {
    if x < 0.0 then -x else x
  }

  function SumAbs(a: seq<real>, b: seq<real>): real
    requires |a| == |b|
  {
    if a == [] then 0.0 else SumAbs(a[..|a| - 1], b[..|b| - 1]) + Abs(a[|a| - 1] - b[|b| - 1])
  }

  /** `mean_squared_error(a, b)`. */
  function Mse(a: seq<real>, b: seq<real>): real
    requires |a| == |b| && |a| > 0
  {
    SumSquares(a, b) / (|a| as real)
  }

  /** `mean_absolute_error(a, b)`. */
  function Mae(a: seq<real>, b: seq<real>): real
    requires |a| == |b| && |a| > 0
  {
    SumAbs(a, b) / (|a| as real)
  }

  /** A sum of squares is never negative. */
  lemma {:induction false} SumSquaresNonNegative(a: seq<real>, b: seq<real>)
    requires |a| == |b|
    ensures SumSquares(a, b) >= 0.0
  {
    if a != [] {
      SumSquaresNonNegative(a[..|a| - 1], b[..|b| - 1]);
      var d := a[|a| - 1] - b[|b| - 1];
      assert d * d >= 0.0;
    }
  }

  lemma {:induction false} SumAbsNonNegative(a: seq<real>, b: seq<real>)
    requires |a| == |b|
    ensures SumAbs(a, b) >= 0.0
  {
    if a != [] {
      SumAbsNonNegative(a[..|a| - 1], b[..|b| - 1]);
    }
  }

  /** Neither error is ever negative. */
  lemma MetricsOfFit(a: seq<real>, b: seq<real>)
    requires |a| == |b| && |a| > 0
    ensures Mse(a, b) >= 0.0
    ensures Mae(a, b) >= 0.0
  {
    SumSquaresNonNegative(a, b);
    SumAbsNonNegative(a, b);
  }

  function Sum(xs: seq<real>): real {
    if xs == [] then 0.0 else Sum(xs[..|xs| - 1]) + xs[|xs| - 1]
  }

  /** `np.mean(xs)`; the mean of no values is NaN, here None. */
  function Mean(xs: seq<real>): Option<real> {
    if xs == [] then None else Some(Sum(xs) / (|xs| as real))
  }

  lemma {:induction false} SumNonNegative(xs: seq<real>)
    requires forall k :: 0 <= k < |xs| ==> xs[k] >= 0.0
    ensures Sum(xs) >= 0.0
  {
    if xs != [] {
      SumNonNegative(xs[..|xs| - 1]);
    }
  }

  /** The mean is defined exactly for a non-empty list, and the mean of non-negative values is non-negative. */
  lemma MeanOfNonNegative(xs: seq<real>)
    requires forall k :: 0 <= k < |xs| ==> xs[k] >= 0.0
    ensures Mean(xs).Some? <==> xs != []
    ensures Mean(xs).Some? ==> Mean(xs).value >= 0.0
  {
    SumNonNegative(xs);
  }

  // ------------------------------------------------------ loading

  /** The pivot has a cell for the sector in every window column. */
  lemma WindowKeys(rows: seq<AnnualRecord>, allow: set<string>, sector: string, cols: seq<int>)
    requires sector in SectorSet(AllowListed(rows, allow))
    requires forall i :: 0 <= i < |cols| ==> cols[i] in YearSet(AllowListed(rows, allow))
    ensures forall i :: 0 <= i < |cols| ==> (sector, cols[i]) in AnnualPivotArima(rows, allow)
  {
    PivotCells(rows, allow);
    forall i | 0 <= i < |cols| ensures (sector, cols[i]) in AnnualPivotHw(rows, allow) {
      PivotDomain(rows, allow, sector, cols[i]);
    }
  }

  /**
   * `df_pivot.loc[df_pivot['sector'] == sector, lo:hi].values.flatten()`:
   * the sector's row of the pivot over the year columns from lo to hi.
   */
  function WindowSeries(rows: seq<AnnualRecord>, allow: set<string>, sector: string, lo: int, hi: int): (ts: seq<real>)
    requires sector in SectorSet(AllowListed(rows, allow))
  {
    var cols := YearWindow(YearSet(AllowListed(rows, allow)), lo, hi);
    WindowKeys(rows, allow, sector, cols);
    SectorRow(AnnualPivotArima(rows, allow), sector, cols)
  }

  /**
   * The window holds one value per year column in `lo..hi`, ascending, and
   * each is the sector's summed gdp for that year (0 where it has no row).
   */
  lemma WindowCells(rows: seq<AnnualRecord>, allow: set<string>, sector: string, lo: int, hi: int)
    requires sector in SectorSet(AllowListed(rows, allow))
    ensures var cols := YearWindow(YearSet(AllowListed(rows, allow)), lo, hi);
            var ts := WindowSeries(rows, allow, sector, lo, hi);
            |ts| == |cols| && forall i :: 0 <= i < |ts| ==> ts[i] == SumGdp(rows, sector, cols[i])
  {
    var cols := YearWindow(YearSet(AllowListed(rows, allow)), lo, hi);
    var p := AnnualPivotArima(rows, allow);
    WindowKeys(rows, allow, sector, cols);
    PivotCells(rows, allow);
    var ts := SectorRow(p, sector, cols);
    forall i | 0 <= i < |ts| ensures ts[i] == SumGdp(rows, sector, cols[i]) {
      assert ts[i] == p[(sector, cols[i])];
    }
  }

  /** The loaded pivot: each sector's window, and whether both window bounds are columns. */
  datatype Frame = Frame(series: map<string, seq<real>>, hasWindow: bool)

  /** `load_and_clean_data_from_sql_server()` followed by the window selection. */
  function LoadFrame(rows: seq<AnnualRecord>, allow: set<string>, lo: int, hi: int): Frame {
    var df := AllowListed(rows, allow);
    Frame(map s | s in SectorSet(df) :: WindowSeries(rows, allow, s, lo, hi),
          lo in YearSet(df) && hi in YearSet(df))
  }

  /**
   * With every year of `lo..hi` a column (2015..2023 in the script), the
   * window has one value per year, in year order.
   */
  lemma FullWindow(rows: seq<AnnualRecord>, allow: set<string>, sector: string, lo: int, hi: int)
    requires sector in SectorSet(AllowListed(rows, allow))
    requires lo <= hi + 1 && forall y :: lo <= y <= hi ==> y in YearSet(AllowListed(rows, allow))
    ensures var ts := WindowSeries(rows, allow, sector, lo, hi);
            |ts| == hi - lo + 1 && forall k :: 0 <= k < |ts| ==> ts[k] == SumGdp(rows, sector, lo + k)
  {
    var years := YearSet(AllowListed(rows, allow));
    var cols := YearWindow(years, lo, hi);
    var ts := WindowSeries(rows, allow, sector, lo, hi);
    WindowCells(rows, allow, sector, lo, hi);
    FullYearWindow(years, lo, hi);
    WindowOfRange(rows, sector, ts, cols, lo, hi);
  }

  lemma WindowOfRange(rows: seq<AnnualRecord>, sector: string, ts: seq<real>, cols: seq<int>, lo: int, hi: int)
    requires lo <= hi + 1 && cols == Range(lo, hi + 1)
    requires |ts| == |cols| && forall i :: 0 <= i < |ts| ==> ts[i] == SumGdp(rows, sector, cols[i])
    ensures |ts| == hi - lo + 1 && forall k :: 0 <= k < |ts| ==> ts[k] == SumGdp(rows, sector, lo + k)
  {
    forall k | 0 <= k < |ts| ensures ts[k] == SumGdp(rows, sector, lo + k) {
      assert cols[k] == lo + k;
    }
  }

  // ------------------------------------------------------ one sector

  /** What one sector contributes: its forecast, its three metrics and its table rows. */
  datatype SectorFit = SectorFit(forecast: seq<real>, mse: real, rmse: real, mae: real, rows: seq<ArimaAnnualRow>)

  /** `zip(forecast_years, forecast)`: one row per pair, each with the sector's rmse. */
  function YearRows(sector: string, years: seq<int>, forecast: seq<real>, rmse: real): (r: seq<ArimaAnnualRow>)
    ensures |r| == if |years| <= |forecast| then |years| else |forecast|
    ensures forall k :: 0 <= k < |r| ==> r[k] == ArimaAnnualRow(sector, years[k], forecast[k], rmse)
  {
    var n := if |years| <= |forecast| then |years| else |forecast|;
    seq(n, k requires 0 <= k < n => ArimaAnnualRow(sector, years[k], forecast[k], rmse))
  }

  /**
   * With the years `start..end` and a forecast of that many values there is
   * exactly one row per year, in order, all carrying the rmse.
   */
  lemma YearRowsCoverYears(sector: string, start: int, end: int, forecast: seq<real>, rmse: real)
    requires start <= end + 1 && |forecast| == end - start + 1
    ensures var r := YearRows(sector, Range(start, end + 1), forecast, rmse);
            |r| == end - start + 1 &&
            forall k :: 0 <= k < |r| ==> r[k] == ArimaAnnualRow(sector, start + k, forecast[k], rmse)
  {
  }

  /** One pass of the sector loop, or why it raises. */
  function SectorStep(frame: Frame, sector: string, years: seq<int>, lib: Library): Result<SectorFit, ArimaAnnualFailure>
    requires sector in frame.series
  {
    if !frame.hasWindow then Failure(MissingColumn(sector))
    else match lib.adf(frame.series[sector])
      case None => Failure(AdfFailed(sector))
      case Some(pValue) =>
        var series := MakeStationary(frame.series[sector], pValue);
        match lib.arima(series, |years|)
          case None => Failure(FitFailed(sector))
          case Some(fit) =>
            if |fit.1| != |series| || |series| == 0 then Failure(MetricFailed(sector))
            else
              var mse := Mse(series, fit.1);
              var rmse := lib.sqrt(mse);
              Success(SectorFit(fit.0, mse, rmse, Mae(series, fit.1), YearRows(sector, years, fit.0, rmse)))
  }

  /** The fitted metrics of a sector: the squared and absolute errors are never negative, the rmse is the root of the mse. */
  lemma SectorStepMetrics(frame: Frame, sector: string, years: seq<int>, lib: Library)
    requires sector in frame.series
    requires SectorStep(frame, sector, years, lib).Success?
    ensures var f := SectorStep(frame, sector, years, lib).value;
            f.mse >= 0.0 && f.mae >= 0.0 && f.rmse == lib.sqrt(f.mse)
  {
    var pValue := lib.adf(frame.series[sector]).value;
    var series := MakeStationary(frame.series[sector], pValue);
    var fit := lib.arima(series, |years|).value;
    MetricsOfFit(series, fit.1);
  }

  // ------------------------------------------------------ all sectors

  /** What the sector loop has built, and the failure that ended it early, if any. */
  datatype Outcome = Outcome(rows: seq<ArimaAnnualRow>, forecasts: seq<(string, seq<real>)>,
                             mae: seq<real>, mse: seq<real>, rmse: seq<real>, failure: Option<ArimaAnnualFailure>)

  /** The outcome so far followed by one sector's contribution, or its failure. */
  function Extend(o: Outcome, sector: string, step: Result<SectorFit, ArimaAnnualFailure>): Outcome {
    match step
      case Failure(e) => o.(failure := Some(e))
      case Success(f) =>
        Outcome(o.rows + f.rows, o.forecasts + [(sector, f.forecast)], o.mae + [f.mae], o.mse + [f.mse], o.rmse + [f.rmse], None)
  }

  predicate InFrame(frame: Frame, sectors: seq<string>) {
    forall i :: 0 <= i < |sectors| ==> sectors[i] in frame.series
  }

  /** The sector loop over the given sectors, in order. */
  function ArimaAll(frame: Frame, sectors: seq<string>, years: seq<int>, lib: Library): Outcome
    requires InFrame(frame, sectors)
  {
    if sectors == [] then Outcome([], [], [], [], [], None)
    else
      var init := sectors[..|sectors| - 1];
      assert forall i :: 0 <= i < |init| ==> init[i] == sectors[i];
      var prev := ArimaAll(frame, init, years, lib);
      if prev.failure.Some? then prev
      else Extend(prev, sectors[|sectors| - 1], SectorStep(frame, sectors[|sectors| - 1], years, lib))
  }

  lemma InFramePrefix(frame: Frame, sectors: seq<string>, n: int)
    requires InFrame(frame, sectors) && 0 <= n <= |sectors|
    ensures InFrame(frame, sectors[..n])
  {
    assert forall i :: 0 <= i < n ==> sectors[..n][i] == sectors[i];
  }

  /** The sector loop after one more sector. */
  lemma ArimaAllSnoc(frame: Frame, sectors: seq<string>, years: seq<int>, lib: Library, i: int)
    requires InFrame(frame, sectors) && 0 <= i < |sectors|
    ensures InFrame(frame, sectors[..i]) && InFrame(frame, sectors[..i + 1])
    ensures ArimaAll(frame, sectors[..i], years, lib).failure.None? ==>
              ArimaAll(frame, sectors[..i + 1], years, lib)
              == Extend(ArimaAll(frame, sectors[..i], years, lib), sectors[i], SectorStep(frame, sectors[i], years, lib))
  {
    InFramePrefix(frame, sectors, i);
    InFramePrefix(frame, sectors, i + 1);
    assert sectors[..i + 1][..i] == sectors[..i];
  }

  lemma ArimaAllSnocFailed(frame: Frame, sectors: seq<string>, years: seq<int>, lib: Library, i: int)
    requires InFrame(frame, sectors) && 0 <= i < |sectors|
    requires InFrame(frame, sectors[..i]) && ArimaAll(frame, sectors[..i], years, lib).failure.Some?
    ensures InFrame(frame, sectors[..i + 1])
    ensures ArimaAll(frame, sectors[..i + 1], years, lib) == ArimaAll(frame, sectors[..i], years, lib)
  {
    InFramePrefix(frame, sectors, i + 1);
    assert sectors[..i + 1][..i] == sectors[..i];
  }

  /** Once a sector fails, the later sectors are never reached. */
  lemma {:induction false} ArimaFailureStays(frame: Frame, sectors: seq<string>, years: seq<int>, lib: Library, n: int)
    requires InFrame(frame, sectors) && 0 <= n <= |sectors|
    requires InFrame(frame, sectors[..n]) && ArimaAll(frame, sectors[..n], years, lib).failure.Some?
    ensures ArimaAll(frame, sectors, years, lib) == ArimaAll(frame, sectors[..n], years, lib)
    decreases |sectors| - n
  {
    if n < |sectors| {
      ArimaAllSnocFailed(frame, sectors, years, lib, n);
      ArimaFailureStays(frame, sectors, years, lib, n + 1);
    } else {
      assert sectors[..n] == sectors;
    }
  }

  /**
   * Without a failure, each of `total_mae`, `total_mse` and `total_rmse`
   * holds one entry per sector, in order, and `forecasts` one key per
   * sector; each rmse is the root of its mse, and no error is negative.
   */
  lemma {:induction false} TotalsPerSector(frame: Frame, sectors: seq<string>, years: seq<int>, lib: Library)
    requires InFrame(frame, sectors)
    requires ArimaAll(frame, sectors, years, lib).failure.None?
    ensures var o := ArimaAll(frame, sectors, years, lib);
            |o.mae| == |sectors| && |o.mse| == |sectors| && |o.rmse| == |sectors| && |o.forecasts| == |sectors| &&
            forall j :: 0 <= j < |sectors| ==>
              o.forecasts[j].0 == sectors[j] && o.rmse[j] == lib.sqrt(o.mse[j]) && o.mse[j] >= 0.0 && o.mae[j] >= 0.0
  {
    if sectors != [] {
      var n := |sectors| - 1;
      ArimaAllSnoc(frame, sectors, years, lib, n);
      assert sectors[..n + 1] == sectors;
      TotalsPerSector(frame, sectors[..n], years, lib);
      SectorStepMetrics(frame, sectors[n], years, lib);
    }
  }

  /** Every inserted row is for one of the sectors and one of the years, and carries that sector's rmse. */
  lemma {:induction false} RowsCarrySectorRmse(frame: Frame, sectors: seq<string>, years: seq<int>, lib: Library)
    requires InFrame(frame, sectors)
    ensures var o := ArimaAll(frame, sectors, years, lib);
            forall i :: 0 <= i < |o.rows| ==>
              o.rows[i].sector in frame.series && o.rows[i].sector in sectors && o.rows[i].year in years &&
              SectorStep(frame, o.rows[i].sector, years, lib).Success? &&
              o.rows[i].rmse == SectorStep(frame, o.rows[i].sector, years, lib).value.rmse
  {
    if sectors != [] {
      var n := |sectors| - 1;
      ArimaAllSnoc(frame, sectors, years, lib, n);
      assert sectors[..n + 1] == sectors;
      RowsCarrySectorRmse(frame, sectors[..n], years, lib);
      assert forall s :: s in sectors[..n] ==> s in sectors;
      if ArimaAll(frame, sectors[..n], years, lib).failure.Some? {
        ArimaAllSnocFailed(frame, sectors, years, lib, n);
      }
    }
  }

  /** The returned metrics: the means of the three lists, defined when at least one sector was fitted. */
  function MetricsOf(o: Outcome): (m: (Option<real>, Option<real>, Option<real>))
    ensures m.0.Some? <==> o.mae != []
  {
    (Mean(o.mae), Mean(o.mse), Mean(o.rmse))
  }

  /** Without a failure the mean errors exist for a non-empty sector list and are never negative. */
  lemma MetricsNonNegative(frame: Frame, sectors: seq<string>, years: seq<int>, lib: Library)
    requires InFrame(frame, sectors)
    requires ArimaAll(frame, sectors, years, lib).failure.None?
    ensures var m := MetricsOf(ArimaAll(frame, sectors, years, lib));
            (m.0.Some? <==> sectors != []) && (m.1.Some? <==> sectors != []) &&
            (m.0.Some? ==> m.0.value >= 0.0) && (m.1.Some? ==> m.1.value >= 0.0)
  {
    var o := ArimaAll(frame, sectors, years, lib);
    TotalsPerSector(frame, sectors, years, lib);
    MeanOfNonNegative(o.mae);
    MeanOfNonNegative(o.mse);
  }

  // ------------------------------------------------------ the script

  /** One pass of the sector loop: select, difference, fit, score, and insert the sector's rows. */
  method ArimaSector(table: Table<ArimaAnnualRow>, frame: Frame, sector: string, years: seq<int>, lib: Library)
    returns (step: Result<SectorFit, ArimaAnnualFailure>)
    requires sector in frame.series
    modifies table
    ensures step == SectorStep(frame, sector, years, lib)
    ensures table.rows == old(table.rows) + (if step.Success? then step.value.rows else [])
  {
    if !frame.hasWindow {
      return Failure(MissingColumn(sector));
    }
    var pValue := lib.adf(frame.series[sector]);
    if pValue.None? {
      return Failure(AdfFailed(sector));
    }
    var series := MakeStationary(frame.series[sector], pValue.value);
    var fit := lib.arima(series, |years|);
    if fit.None? {
      return Failure(FitFailed(sector));
    }
    var (forecast, inSample) := fit.value;
    if |inSample| != |series| || |series| == 0 {
      return Failure(MetricFailed(sector));
    }
    var mse := Mse(series, inSample);
    var rmse := lib.sqrt(mse);
    var rows := YearRows(sector, years, forecast, rmse);
    table.InsertAll(rows);
    return Success(SectorFit(forecast, mse, rmse, Mae(series, inSample), rows));
  }

  /** One turn of the sector loop, from the outcome of the sectors before it to the outcome including it. */
  method ArimaNext(table: Table<ArimaAnnualRow>, frame: Frame, sectors: seq<string>, i: int, years: seq<int>, lib: Library,
                   ghost base: seq<ArimaAnnualRow>, prev: Outcome)
    returns (out: Outcome)
    requires InFrame(frame, sectors) && 0 <= i < |sectors|
    requires InFrame(frame, sectors[..i]) && prev == ArimaAll(frame, sectors[..i], years, lib) && prev.failure.None?
    requires table.rows == base + prev.rows
    modifies table
    ensures InFrame(frame, sectors[..i + 1])
    ensures out == ArimaAll(frame, sectors[..i + 1], years, lib)
    ensures table.rows == base + out.rows
  {
    var step := ArimaSector(table, frame, sectors[i], years, lib);
    out := Extend(prev, sectors[i], step);
    ExtendRows(base, prev, sectors[i], step);
    ArimaAllSnoc(frame, sectors, years, lib, i);
  }

  /** The rows after one more turn, behind whatever the table held before the loop. */
  lemma ExtendRows(base: seq<ArimaAnnualRow>, o: Outcome, sector: string, step: Result<SectorFit, ArimaAnnualFailure>)
    ensures base + Extend(o, sector, step).rows == base + o.rows + (if step.Success? then step.value.rows else [])
  {
  }

  /** The sector loop: `for sector in data['sector']`. */
  method ArimaSectors(table: Table<ArimaAnnualRow>, frame: Frame, sectors: seq<string>, years: seq<int>, lib: Library)
    returns (out: Outcome)
    requires InFrame(frame, sectors)
    modifies table
    ensures out == ArimaAll(frame, sectors, years, lib)
    ensures table.rows == old(table.rows) + out.rows
  {
    out := Outcome([], [], [], [], [], None);
    var i := 0;
    InFramePrefix(frame, sectors, 0);
    while i < |sectors|
      invariant 0 <= i <= |sectors|
      invariant InFrame(frame, sectors[..i])
      invariant out == ArimaAll(frame, sectors[..i], years, lib)
      invariant out.failure.None?
      invariant table.rows == old(table.rows) + out.rows
    {
      out := ArimaNext(table, frame, sectors, i, years, lib, old(table.rows), out);
      if out.failure.Some? {
        ArimaFailureStays(frame, sectors, years, lib, i + 1);
        return;
      }
      i := i + 1;
    }
    assert sectors[..i] == sectors;
  }

  /** `forecast_gdp_auto_arima(data, start, end)`: truncate, then every sector of the pivot. */
  method ForecastAll(table: Table<ArimaAnnualRow>, frame: Frame, sectors: seq<string>, start: int, end: int, lib: Library)
    returns (out: Outcome)
    requires InFrame(frame, sectors)
    modifies table
    ensures out == ArimaAll(frame, sectors, Range(start, end + 1), lib)
    ensures table.rows == out.rows
  {
    table.Truncate();
    out := ArimaSectors(table, frame, sectors, Range(start, end + 1), lib);
  }

  /** `df_pivot['sector']` after `reset_index()`: the pivot's sectors, sorted by name. */
  function PivotSectors(rows: seq<AnnualRecord>, allow: set<string>): seq<string> {
    SortNames(Unique(SectorNames(AllowListed(rows, allow))))
  }

  /** The pivot's sectors are the allow-listed sectors of the rows, each once, in name order. */
  lemma PivotSectorsShape(rows: seq<AnnualRecord>, allow: set<string>)
    ensures forall s :: s in PivotSectors(rows, allow) <==> s in SectorSet(AllowListed(rows, allow))
    ensures forall i, j :: 0 <= i < j < |PivotSectors(rows, allow)| ==>
              StringLess(PivotSectors(rows, allow)[i], PivotSectors(rows, allow)[j])
  {
    var df := AllowListed(rows, allow);
    var u := Unique(SectorNames(df));
    SortNamesShape(u);
    forall s ensures s in u <==> s in SectorSet(df) {
      if s in u {
        assert s in SectorNames(df);
        var k :| 0 <= k < |SectorNames(df)| && SectorNames(df)[k] == s;
        assert df[k].sector == s;
      }
      if s in SectorSet(df) {
        var k :| 0 <= k < |df| && df[k].sector == s;
        assert SectorNames(df)[k] == s;
      }
    }
  }

  /** Every sector of the pivot has a row of the frame. */
  lemma SectorsInFrame(rows: seq<AnnualRecord>, allow: set<string>, lo: int, hi: int)
    ensures InFrame(LoadFrame(rows, allow, lo, hi), PivotSectors(rows, allow))
  {
    PivotSectorsShape(rows, allow);
  }

  /** The outcome of the sector loop over the loaded pivot, in its name order. */
  function SectorsFitted(rows: seq<AnnualRecord>, allow: set<string>, lo: int, hi: int, years: seq<int>, lib: Library): Outcome {
    SectorsInFrame(rows, allow, lo, hi);
    ArimaAll(LoadFrame(rows, allow, lo, hi), PivotSectors(rows, allow), years, lib)
  }

  /** Load, then forecast the years `start..end` from the `lo..hi` window of every sector. */
  method LoadAndForecast(table: Table<ArimaAnnualRow>, rows: seq<AnnualRecord>, allow: set<string>,
                         lo: int, hi: int, start: int, end: int, lib: Library)
    returns (out: Outcome)
    modifies table
    ensures out == SectorsFitted(rows, allow, lo, hi, Range(start, end + 1), lib)
    ensures table.rows == out.rows
  {
    var frame := LoadFrame(rows, allow, lo, hi);
    SectorsInFrame(rows, allow, lo, hi);
    out := ForecastAll(table, frame, PivotSectors(rows, allow), start, end, lib);
  }

  /**
   * `main()`: load, then forecast 2024..2030 from the 2015..2023 window.
   * The table holds exactly the rows the sector loop inserted, and the
   * metrics are returned only when every sector succeeded.
   */
  method MainArimaAnnual(table: Table<ArimaAnnualRow>, rows: seq<AnnualRecord>, lib: Library)
    returns (out: Outcome, metrics: Option<(Option<real>, Option<real>, Option<real>)>)
    modifies table
    ensures out == SectorsFitted(rows, RelevantSectors, 2015, 2023, Range(2024, 2031), lib)
    ensures table.rows == out.rows
    ensures metrics == if out.failure.None? then Some(MetricsOf(out)) else None
  {
    out := LoadAndForecast(table, rows, RelevantSectors, 2015, 2023, 2024, 2030, lib);
    metrics := if out.failure.None? then Some(MetricsOf(out)) else None;
  }
}
