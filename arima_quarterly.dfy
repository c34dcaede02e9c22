/**
 * The quarterly ARIMA script: load the quarterly dataset, parse each row's
 * period into the first day of its quarter, sort by date, truncate the
 * result table, then fit one seasonal model per sector and append its
 * clipped forecasts for the quarters after the sector's last observation.
 *
 * The log transform, the fit, the forecast, its back transform and the
 * in-sample rmse are the oracle `arima`: given a sector's values and a
 * horizon it returns the back-transformed forecast and the rmse, or None
 * when the library raises.
 */
module ArimaQuarterly {

  import opened Wrappers
  import opened QuarterCodec
  import opened Upload
  import opened Series
  import opened Sink

  /** A row of the `arima_quarterly` table. */
  datatype ArimaQuarterlyRow = ArimaQuarterlyRow(sector: string, yearQuarter: string, gdp: real, rmse: real)

  /** Why the script stops. */
  datatype ArimaFailure =
    | DateParseFailed               // a period that the parser or `pd.to_datetime` rejects
    | FitFailed(sector: string)     // the library raised while fitting, forecasting or scoring
    | EmptySector(sector: string)   // `sector_data.index[-1]` on a sector with no rows
    | LengthMismatch(sector: string) // the forecast and the quarter range differ in length

  /** The date `custom_quarterly_parser` gives a row with a date: the first day of its quarter. */
  lemma DateOfRow(r: QuarterlyRecord)
    requires 1 <= r.quarter <= 4
    ensures HasDate(r)
    ensures ArimaQuarterlyParse(YearQuarterString(r.year, r.quarter)).Success?
    ensures QuarterOfMonth(FirstMonth(r.quarter)) == ParsedQuarter(r)
  {
    ArimaParseOfRow(r.year, r.quarter);
    QuarterMonthRoundTrip(r.year, r.quarter);
  }

  // ------------------------------------------------------ one sector

  /** The last row of the given sector, where `sector_data.index[-1]` points, if the sector has a row. */
  function SectorLast(rows: seq<QuarterlyRecord>, sector: string): Option<QuarterlyRecord> {
    if rows == [] then None
    else if rows[|rows| - 1].sector == sector then Some(rows[|rows| - 1])
    else SectorLast(rows[..|rows| - 1], sector)
  }

  /** None exactly when no row is of the sector; otherwise a row of the sector after which none is. */
  lemma {:induction false} SectorLastIsLast(rows: seq<QuarterlyRecord>, sector: string)
    ensures SectorLast(rows, sector).None? <==> forall i :: 0 <= i < |rows| ==> rows[i].sector != sector
    ensures SectorLast(rows, sector).Some? ==>
              exists i :: 0 <= i < |rows| && rows[i] == SectorLast(rows, sector).value && rows[i].sector == sector &&
                          forall j :: i < j < |rows| ==> rows[j].sector != sector
  {
    if rows != [] && rows[|rows| - 1].sector != sector {
      var init := rows[..|rows| - 1];
      SectorLastIsLast(init, sector);
      assert forall i :: 0 <= i < |init| ==> init[i] == rows[i];
      if SectorLast(init, sector).Some? {
        var i :| 0 <= i < |init| && init[i] == SectorLast(init, sector).value && init[i].sector == sector &&
                 forall j :: i < j < |init| ==> init[j].sector != sector;
        assert rows[i] == SectorLast(rows, sector).value;
      }
    }
  }

  /** On date-sorted rows, a sector's last row is its latest: no row of that sector is in a later quarter. */
  lemma SectorLastIsLatest(rows: seq<QuarterlyRecord>, sector: string)
    requires SortedByPeriod(rows)
    requires SectorLast(rows, sector).Some?
    ensures forall j :: 0 <= j < |rows| && rows[j].sector == sector ==>
              PeriodIndex(rows[j]) <= PeriodIndex(SectorLast(rows, sector).value)
  {
    SectorLastIsLast(rows, sector);
    var last := SectorLast(rows, sector).value;
    var i :| 0 <= i < |rows| && rows[i] == last && rows[i].sector == sector &&
             forall j :: i < j < |rows| ==> rows[j].sector != sector;
    forall j | 0 <= j < |rows| && rows[j].sector == sector
      ensures PeriodIndex(rows[j]) <= PeriodIndex(last)
    {
      if j != i {
        assert j < i;
      }
    }
  }

  /** `sector_data[sector_data > 0].min()`: the least positive value, if there is one. */
  function MinPositive(xs: seq<real>): Option<real> {
    if xs == [] then None
    else
      var m := MinPositive(xs[..|xs| - 1]);
      var x := xs[|xs| - 1];
      if x <= 0.0 then m
      else if m.Some? && m.value <= x then m
      else Some(x)
  }

  /** It is None exactly when no value is positive, and otherwise a positive value no greater than any other. */
  lemma {:induction false} MinPositiveIsLeast(xs: seq<real>)
    ensures MinPositive(xs).None? <==> forall k :: 0 <= k < |xs| ==> xs[k] <= 0.0
    ensures MinPositive(xs).Some? ==>
              MinPositive(xs).value > 0.0 && MinPositive(xs).value in xs &&
              forall k :: 0 <= k < |xs| && xs[k] > 0.0 ==> MinPositive(xs).value <= xs[k]
  {
    if xs != [] {
      var init := xs[..|xs| - 1];
      MinPositiveIsLeast(init);
      assert forall k :: 0 <= k < |xs| - 1 ==> init[k] == xs[k];
      var m := MinPositive(init);
      if m.Some? {
        var k :| 0 <= k < |init| && init[k] == m.value;
        assert xs[k] == m.value;
      }
    }
  }

  /**
   * `forecast_df.loc[forecast_df['mean'] < 0, 'mean'] = min_gdp`. Without a
   * positive value `min_gdp` is NaN, which the model cannot hold; the
   * requirement says that then no value is negative, so none is replaced.
   */
  function ReplaceNegatives(xs: seq<real>, fill: Option<real>): (r: seq<real>)
    requires fill.Some? || forall k :: 0 <= k < |xs| ==> xs[k] >= 0.0
    ensures |r| == |xs|
    ensures forall k :: 0 <= k < |xs| ==> r[k] == if xs[k] < 0.0 then fill.value else xs[k]
  {
    seq(|xs|, k requires 0 <= k < |xs| => if xs[k] < 0.0 then fill.value else xs[k])
  }

  /** After clipping there is nothing to replace: the min-positive step never changes a value. */
  lemma ReplaceAfterClipIsNoOp(xs: seq<real>, fill: Option<real>)
    ensures ReplaceNegatives(Clip(xs), fill) == Clip(xs)
  {
  }

  /** The values stored for one sector: clipped, then negatives replaced by the least positive observation. */
  function StoredValues(values: seq<real>, forecast: seq<real>): (r: seq<real>)
    ensures r == Clip(forecast)
  {
    ReplaceAfterClipIsNoOp(forecast, MinPositive(values));
    ReplaceNegatives(Clip(forecast), MinPositive(values))
  }

  /** The rows inserted for one sector; every one takes its rmse from index 0 of the `RMSE` column. */
  function SectorRows(sector: string, labels: seq<string>, values: seq<real>, rmse: real): (r: seq<ArimaQuarterlyRow>)
    requires |values| == |labels|
    ensures |r| == |labels|
  {
    var rmseColumn := seq(|labels|, k => rmse);
    seq(|labels|, k requires 0 <= k < |labels| => ArimaQuarterlyRow(sector, labels[k], values[k], rmseColumn[0]))
  }

  /** One sector's rows, or why it fails: fit, then the quarter range from its last row, then the frame. */
  function SectorStep(data: seq<QuarterlyRecord>, sector: string, steps: nat,
                      arima: (seq<real>, int) -> Option<(seq<real>, real)>)
    : Result<seq<ArimaQuarterlyRow>, ArimaFailure>
  {
    var values := SectorValues(data, sector);
    match arima(values, steps)
      case None => Failure(FitFailed(sector))
      case Some(fit) =>
        match SectorLast(data, sector)
          case None => Failure(EmptySector(sector))
          case Some(last) =>
            var labels := QuartersAfter(last.year, ParsedQuarter(last), steps);
            if |fit.0| != |labels| then Failure(LengthMismatch(sector))
            else Success(SectorRows(sector, labels, StoredValues(values, fit.0), fit.1))
  }

  // ------------------------------------------------------ all sectors

  /** The rows appended by the sector loop, and the failure that ended it early, if any. */
  datatype Outcome = Outcome(rows: seq<ArimaQuarterlyRow>, failure: Option<ArimaFailure>)

  /** The sector loop over the given sectors, in order. */
  function ArimaAll(data: seq<QuarterlyRecord>, sectors: seq<string>, steps: nat,
                    arima: (seq<real>, int) -> Option<(seq<real>, real)>): Outcome
  {
    if sectors == [] then Outcome([], None)
    else
      var prev := ArimaAll(data, sectors[..|sectors| - 1], steps, arima);
      if prev.failure.Some? then prev
      else Extend(prev.rows, SectorStep(data, sectors[|sectors| - 1], steps, arima))
  }

  /** The rows so far followed by one sector's rows, or its failure. */
  function Extend(rows: seq<ArimaQuarterlyRow>, step: Result<seq<ArimaQuarterlyRow>, ArimaFailure>): Outcome {
    match step
      case Failure(e) => Outcome(rows, Some(e))
      case Success(more) => Outcome(rows + more, None)
  }

  /** The sector loop after one more sector. */
  lemma ArimaAllSnoc(data: seq<QuarterlyRecord>, sectors: seq<string>, steps: nat,
                     arima: (seq<real>, int) -> Option<(seq<real>, real)>, i: int)
    requires 0 <= i < |sectors|
    requires ArimaAll(data, sectors[..i], steps, arima).failure.None?
    ensures ArimaAll(data, sectors[..i + 1], steps, arima)
            == Extend(ArimaAll(data, sectors[..i], steps, arima).rows, SectorStep(data, sectors[i], steps, arima))
  {
    assert sectors[..i + 1][..i] == sectors[..i];
  }

  /** Once a sector fails, the later sectors are never reached. */
  lemma {:induction false} ArimaFailureStays(data: seq<QuarterlyRecord>, sectors: seq<string>, steps: nat,
                                             arima: (seq<real>, int) -> Option<(seq<real>, real)>, n: int)
    requires 0 <= n <= |sectors|
    requires ArimaAll(data, sectors[..n], steps, arima).failure.Some?
    ensures ArimaAll(data, sectors, steps, arima) == ArimaAll(data, sectors[..n], steps, arima)
    decreases |sectors| - n
  {
    if n < |sectors| {
      assert sectors[..n + 1][..n] == sectors[..n];
      ArimaFailureStays(data, sectors, steps, arima, n + 1);
    } else {
      assert sectors[..n] == sectors;
    }
  }

  /** Every stored value is non-negative. */
  lemma {:induction false} ArimaNonNegative(data: seq<QuarterlyRecord>, sectors: seq<string>, steps: nat,
                                            arima: (seq<real>, int) -> Option<(seq<real>, real)>)
    ensures forall i :: 0 <= i < |ArimaAll(data, sectors, steps, arima).rows| ==>
              ArimaAll(data, sectors, steps, arima).rows[i].gdp >= 0.0
  {
    if sectors != [] {
      var init := sectors[..|sectors| - 1];
      ArimaNonNegative(data, init, steps, arima);
      var step := SectorStep(data, sectors[|sectors| - 1], steps, arima);
      if ArimaAll(data, init, steps, arima).failure.None? && step.Success? {
        var values := SectorValues(data, sectors[|sectors| - 1]);
        var fit := arima(values, steps).value;
        forall k | 0 <= k < |step.value| ensures step.value[k].gdp >= 0.0 {
          assert step.value[k].gdp == StoredValues(values, fit.0)[k] == Clip(fit.0)[k];
        }
      }
    }
  }

  /** Every row carries the rmse of its own sector's fit. */
  lemma {:induction false} ArimaRmse(data: seq<QuarterlyRecord>, sectors: seq<string>, steps: nat,
                                     arima: (seq<real>, int) -> Option<(seq<real>, real)>)
    ensures forall i :: 0 <= i < |ArimaAll(data, sectors, steps, arima).rows| ==>
              var row := ArimaAll(data, sectors, steps, arima).rows[i];
              row.sector in sectors &&
              arima(SectorValues(data, row.sector), steps).Some? &&
              arima(SectorValues(data, row.sector), steps).value.1 == row.rmse
  {
    if sectors != [] {
      var init := sectors[..|sectors| - 1];
      ArimaRmse(data, init, steps, arima);
      assert forall s :: s in init ==> s in sectors;
    }
  }

  /** Without a failure, every sector appends exactly `steps` rows. */
  lemma {:induction false} ArimaCount(data: seq<QuarterlyRecord>, sectors: seq<string>, steps: nat,
                                      arima: (seq<real>, int) -> Option<(seq<real>, real)>)
    requires ArimaAll(data, sectors, steps, arima).failure.None?
    ensures |ArimaAll(data, sectors, steps, arima).rows| == |sectors| * steps
  {
    if sectors != [] {
      ArimaCount(data, sectors[..|sectors| - 1], steps, arima);
      assert |sectors| * steps == (|sectors| - 1) * steps + steps;
    }
  }

  /** A run without failure extends the run over every prefix of the sectors. */
  lemma {:induction false} ArimaPrefix(data: seq<QuarterlyRecord>, sectors: seq<string>, steps: nat,
                                       arima: (seq<real>, int) -> Option<(seq<real>, real)>, n: int)
    requires 0 <= n <= |sectors|
    requires ArimaAll(data, sectors, steps, arima).failure.None?
    ensures ArimaAll(data, sectors[..n], steps, arima).failure.None?
    ensures ArimaAll(data, sectors[..n], steps, arima).rows <= ArimaAll(data, sectors, steps, arima).rows
    decreases |sectors|
  {
    if n == |sectors| {
      assert sectors[..n] == sectors;
    } else {
      var init := sectors[..|sectors| - 1];
      assert init[..n] == sectors[..n];
      ArimaPrefix(data, init, steps, arima, n);
    }
  }

  /**
   * Without a failure, row `j * steps + k` is the k-th forecast of the j-th
   * sector: labelled with the (k+1)-th quarter after the sector's last row,
   * holding the clipped k-th forecast value and the sector's rmse.
   */
  lemma ArimaRowAt(data: seq<QuarterlyRecord>, sectors: seq<string>, steps: nat,
                   arima: (seq<real>, int) -> Option<(seq<real>, real)>, j: int, k: int)
    requires ArimaAll(data, sectors, steps, arima).failure.None?
    requires 0 <= j < |sectors| && 0 <= k < steps
    ensures j * steps + k < |ArimaAll(data, sectors, steps, arima).rows|
    ensures var fit := arima(SectorValues(data, sectors[j]), steps);
            var last := SectorLast(data, sectors[j]);
            fit.Some? && last.Some? && |fit.value.0| == steps &&
            ArimaAll(data, sectors, steps, arima).rows[j * steps + k]
              == ArimaQuarterlyRow(sectors[j], QuarterLabelAfter(last.value.year, ParsedQuarter(last.value), k + 1),
                                   Clip(fit.value.0)[k], fit.value.1)
  {
    ArimaPrefix(data, sectors, steps, arima, j + 1);
    ArimaPrefix(data, sectors, steps, arima, j);
    ArimaAllSnoc(data, sectors, steps, arima, j);
    ArimaCount(data, sectors[..j], steps, arima);
    SectorStepRowAt(data, sectors[j], steps, arima, k);
    IndexInPrefix(ArimaAll(data, sectors[..j], steps, arima).rows, SectorStep(data, sectors[j], steps, arima).value,
                  ArimaAll(data, sectors, steps, arima).rows, j * steps + k);
  }

  /** Row k of one sector's rows: the (k+1)-th quarter after its last row, the clipped k-th forecast and the rmse. */
  lemma SectorStepRowAt(data: seq<QuarterlyRecord>, sector: string, steps: nat,
                        arima: (seq<real>, int) -> Option<(seq<real>, real)>, k: int)
    requires SectorStep(data, sector, steps, arima).Success? && 0 <= k < steps
    ensures var fit := arima(SectorValues(data, sector), steps);
            var last := SectorLast(data, sector);
            var block := SectorStep(data, sector, steps, arima).value;
            fit.Some? && last.Some? && |fit.value.0| == steps && |block| == steps &&
            block[k] == ArimaQuarterlyRow(sector, QuarterLabelAfter(last.value.year, ParsedQuarter(last.value), k + 1),
                                          Clip(fit.value.0)[k], fit.value.1)
  {
    var values := SectorValues(data, sector);
    assert arima(values, steps).Some? && SectorLast(data, sector).Some?;
    var fit := arima(values, steps).value;
    var last := SectorLast(data, sector).value;
    var labels := QuartersAfter(last.year, ParsedQuarter(last), steps);
    assert |fit.0| == steps;
    assert SectorStep(data, sector, steps, arima) == Success(SectorRows(sector, labels, Clip(fit.0), fit.1));
    SectorRowsAt(sector, labels, Clip(fit.0), fit.1, k);
    QuartersAfterAt(last.year, ParsedQuarter(last), steps, k);
  }

  lemma SectorRowsAt(sector: string, labels: seq<string>, values: seq<real>, rmse: real, k: int)
    requires |values| == |labels| && 0 <= k < |labels|
    ensures SectorRows(sector, labels, values, rmse)[k] == ArimaQuarterlyRow(sector, labels[k], values[k], rmse)
  {
  }

  /** An index past a prefix `a` of `c` that `a + b` still covers picks from `b`. */
  lemma IndexInPrefix(a: seq<ArimaQuarterlyRow>, b: seq<ArimaQuarterlyRow>, c: seq<ArimaQuarterlyRow>, i: int)
    requires a + b <= c && |a| <= i < |a| + |b|
    ensures i < |c| && c[i] == b[i - |a|]
  {
    assert c[i] == (a + b)[i];
  }

  /** One pass of the sector loop: fit, forecast, post-process, and insert the sector's rows. */
  method ArimaSector(table: Table<ArimaQuarterlyRow>, data: seq<QuarterlyRecord>, sector: string, steps: nat,
                     arima: (seq<real>, int) -> Option<(seq<real>, real)>)
    returns (step: Result<seq<ArimaQuarterlyRow>, ArimaFailure>)
    modifies table
    ensures step == SectorStep(data, sector, steps, arima)
    ensures table.rows == old(table.rows) + (if step.Success? then step.value else [])
  {
    var values := SectorValues(data, sector);
    var fit := arima(values, steps);
    if fit.None? {
      return Failure(FitFailed(sector));
    }
    var last := SectorLast(data, sector);
    if last.None? {
      return Failure(EmptySector(sector));
    }
    var labels := QuartersAfter(last.value.year, ParsedQuarter(last.value), steps);
    if |fit.value.0| != |labels| {
      return Failure(LengthMismatch(sector));
    }
    var rows := SectorRows(sector, labels, StoredValues(values, fit.value.0), fit.value.1);
    table.InsertAll(rows);
    return Success(rows);
  }

  /** The sector loop: `for sector in sectors`. */
  method ArimaSectors(table: Table<ArimaQuarterlyRow>, data: seq<QuarterlyRecord>, sectors: seq<string>, steps: nat,
                      arima: (seq<real>, int) -> Option<(seq<real>, real)>)
    returns (out: Outcome)
    modifies table
    ensures out == ArimaAll(data, sectors, steps, arima)
    ensures table.rows == old(table.rows) + out.rows
  {
    out := Outcome([], None);
    var i := 0;
    while i < |sectors|
      invariant 0 <= i <= |sectors|
      invariant out == ArimaAll(data, sectors[..i], steps, arima)
      invariant out.failure.None?
      invariant table.rows == old(table.rows) + out.rows
    {
      out := ArimaNext(table, data, sectors, i, steps, arima, old(table.rows), out);
      if out.failure.Some? {
        ArimaFailureStays(data, sectors, steps, arima, i + 1);
        return;
      }
      i := i + 1;
    }
    assert sectors[..i] == sectors;
  }

  /** One turn of the sector loop, from the outcome of the sectors before it to the outcome including it. */
  method ArimaNext(table: Table<ArimaQuarterlyRow>, data: seq<QuarterlyRecord>, sectors: seq<string>, i: int, steps: nat,
                   arima: (seq<real>, int) -> Option<(seq<real>, real)>, ghost base: seq<ArimaQuarterlyRow>, prev: Outcome)
    returns (out: Outcome)
    requires 0 <= i < |sectors|
    requires prev == ArimaAll(data, sectors[..i], steps, arima) && prev.failure.None?
    requires table.rows == base + prev.rows
    modifies table
    ensures out == ArimaAll(data, sectors[..i + 1], steps, arima)
    ensures table.rows == base + out.rows
  {
    var step := ArimaSector(table, data, sectors[i], steps, arima);
    ArimaAllSnoc(data, sectors, steps, arima, i);
    out := Extend(prev.rows, step);
  }

  /**
   * `apply_auto_arima_to_all_sectors(data, start, end)`: truncate once,
   * then every sector in order of first appearance, each with the horizon
   * `(end - start + 1) * 4`.
   */
  method ApplyArima(table: Table<ArimaQuarterlyRow>, data: seq<QuarterlyRecord>, start: int, end: int,
                    arima: (seq<real>, int) -> Option<(seq<real>, real)>)
    returns (out: Outcome)
    requires start <= end
    modifies table
    ensures out == ArimaAll(data, Unique(SectorsOfRows(data)), ForecastSteps(start, end), arima)
    ensures table.rows == out.rows
  {
    table.Truncate();
    out := ArimaSectors(table, data, Unique(SectorsOfRows(data)), ForecastSteps(start, end), arima);
  }

  /** The years the script forecasts. */
  const StartPeriod := 2024
  const EndPeriod := 2030

  /**
   * `main()`: load and sort, then forecast 2024..2030. A period that does
   * not parse stops the script before the truncation.
   */
  method MainArimaQuarterly(table: Table<ArimaQuarterlyRow>, data: seq<QuarterlyRecord>,
                            arima: (seq<real>, int) -> Option<(seq<real>, real)>)
    returns (out: Outcome)
    modifies table
    ensures PrepareQuarterly(data).None? ==> table.rows == old(table.rows) && out == Outcome([], Some(DateParseFailed))
    ensures PrepareQuarterly(data).Some? ==>
              out == ArimaAll(PrepareQuarterly(data).value, Unique(SectorsOfRows(PrepareQuarterly(data).value)),
                              ForecastSteps(StartPeriod, EndPeriod), arima) &&
              table.rows == out.rows
  {
    var sorted := PrepareQuarterly(data);
    if sorted.None? {
      return Outcome([], Some(DateParseFailed));
    }
    out := ApplyArima(table, sorted.value, StartPeriod, EndPeriod, arima);
  }

  /** The script's horizon is 28 quarters. */
  lemma ScriptHorizon()
    ensures ForecastSteps(StartPeriod, EndPeriod) == 28
  {
  }
}
