/**
 * The upload side of the app: `process_annual_file`, `process_quarterly_file`
 * and `handle_uploaded_file`. A CSV file is given as the sequence of its
 * rows, each a sequence of cells, as `csv.reader` yields them; the numeric
 * conversions `int(...)` and `float(...)` are parameters that return None
 * where Python raises ValueError.
 */
module Upload {

  import opened Wrappers
  import opened Text
  import opened Sink

  /** A row of the annual dataset table: (sector, sub_sector, year, gdp). */
  datatype AnnualRecord = AnnualRecord(sector: string, subSector: string, year: int, gdp: real)

  /** A row of the quarterly dataset table: (sector, year, quarter, gdp). */
  datatype QuarterlyRecord = QuarterlyRecord(sector: string, year: int, quarter: int, gdp: real)

  /** The exceptions that escape the parsers (a ValueError inside a cell's `try` does not). */
  datatype UploadError =
    | EmptyFile    // `next(reader)` on a file with no rows
    | EmptyHeader  // `headers[0]` on a blank first row
    | BadHeader    // the first header cell is not 'Sector'
    | ShortRow     // a row too short for `row[0]`, `row[1]` or `row[3]`

  /** The first year of every quarterly file. */
  const FirstQuarterlyYear := 2015

  /** `next(reader)` and the `headers[0] != 'Sector'` check shared by both parsers. */
  function CheckHeader(lines: seq<seq<string>>): (r: Result<seq<string>, UploadError>)
    ensures r.Success? <==> |lines| > 0 && |lines[0]| > 0 && lines[0][0] == "Sector"
    ensures r.Success? ==> r.value == lines[0]
  {
    if |lines| == 0 then Failure(EmptyFile)
    else if |lines[0]| == 0 then Failure(EmptyHeader)
    else if lines[0][0] != "Sector" then Failure(BadHeader)
    else Success(lines[0])
  }

  /** Each row's output, in row order; the first row that raises aborts the whole file. */
  function FoldRows<T, R, E>(rows: seq<T>, f: T -> Result<seq<R>, E>): Result<seq<R>, E>
  {
    if rows == [] then Success([])
    else match FoldRows(rows[..|rows| - 1], f)
      case Failure(e) => Failure(e)
      case Success(acc) =>
        match f(rows[|rows| - 1])
        case Failure(e) => Failure(e)
        case Success(out) => Success(acc + out)
  }

  /** All the rows' outputs joined in order. */
  function Concat<R>(parts: seq<seq<R>>): seq<R> {
    if parts == [] then [] else Concat(parts[..|parts| - 1]) + parts[|parts| - 1]
  }

  /**
   * The fold succeeds exactly when every row succeeds, and then its output
   * is the rows' outputs concatenated in file order.
   */
  lemma {:induction false} FoldRowsIsConcat<T, R, E>(rows: seq<T>, f: T -> Result<seq<R>, E>)
    ensures FoldRows(rows, f).Success? <==> forall i :: 0 <= i < |rows| ==> f(rows[i]).Success?
    ensures FoldRows(rows, f).Success? ==>
              FoldRows(rows, f).value == Concat(seq(|rows|, i requires 0 <= i < |rows| && f(rows[i]).Success? => f(rows[i]).value))
  {
    if rows != [] {
      var init := rows[..|rows| - 1];
      FoldRowsIsConcat(init, f);
      if FoldRows(rows, f).Success? {
        var parts := seq(|rows|, i requires 0 <= i < |rows| && f(rows[i]).Success? => f(rows[i]).value);
        var initParts := seq(|init|, i requires 0 <= i < |init| && f(init[i]).Success? => f(init[i]).value);
        assert parts[..|parts| - 1] == initParts;
      }
    }
  }

  /** Once a prefix of the file has raised, the whole file raises the same error. */
  lemma {:induction false} FoldRowsFailurePersists<T, R, E>(rows: seq<T>, n: nat, f: T -> Result<seq<R>, E>)
    requires n <= |rows|
    requires FoldRows(rows[..n], f).Failure?
    ensures FoldRows(rows, f) == FoldRows(rows[..n], f)
    decreases |rows| - n
  {
    if n < |rows| {
      assert rows[..n + 1][..n] == rows[..n];
      FoldRowsFailurePersists(rows, n + 1, f);
    } else {
      assert rows[..n] == rows;
    }
  }

  /** `n` copies of `x`. */
  function Repeat<T>(x: T, n: nat): (r: seq<T>)
    ensures |r| == n
    ensures forall i :: 0 <= i < n ==> r[i] == x
  {
    seq(n, _ => x)
  }

  /** How many steps `zip(headers[2:], row[2:])` takes. */
  function ZipSteps(headers: seq<string>, row: seq<string>): nat {
    var a := if |headers| >= 2 then |headers| - 2 else 0;
    var b := if |row| >= 2 then |row| - 2 else 0;
    if a <= b then a else b
  }

  /**
   * What one annual data row contributes. Every zip step evaluates the same
   * `int(row[2])` and `float(row[3])`, whatever the step's own column, so
   * the row contributes either nothing or `ZipSteps` copies of one record;
   * `row[0]`, `row[1]` and `row[3]` are read outside the ValueError handler.
   */
  function AnnualRow(headers: seq<string>, row: seq<string>,
                     parseInt: string -> Option<int>, parseReal: string -> Option<real>)
    : Result<seq<AnnualRecord>, UploadError>
  {
    if |row| < 2 then Failure(ShortRow)
    else if ZipSteps(headers, row) == 0 then Success([])
    else if parseInt(row[2]).Some? && |row| < 4 then Failure(ShortRow)
    else Success(AnnualCopies(row, ZipSteps(headers, row), parseInt, parseReal))
  }

  /** `n` copies of the row's record when both conversions succeed, none otherwise. */
  function AnnualCopies(row: seq<string>, n: nat,
                        parseInt: string -> Option<int>, parseReal: string -> Option<real>): seq<AnnualRecord>
    requires |row| >= 2
  {
    if n == 0 || |row| < 4 then []
    else match parseInt(row[2])
      case None => []
      case Some(year) =>
        match parseReal(RemoveCommas(row[3]))
        case None => []
        case Some(gdp) => Repeat(AnnualRecord(row[0], row[1], year, gdp), n)
  }

  /** The whole annual file. */
  function AnnualFile(lines: seq<seq<string>>,
                      parseInt: string -> Option<int>, parseReal: string -> Option<real>)
    : Result<seq<AnnualRecord>, UploadError>
  {
    match CheckHeader(lines)
    case Failure(e) => Failure(e)
    case Success(headers) => FoldRows(lines[1..], row => AnnualRow(headers, row, parseInt, parseReal))
  }

  /** `process_annual_file`, loop for loop. */
  method ProcessAnnualFile(lines: seq<seq<string>>,
                           parseInt: string -> Option<int>, parseReal: string -> Option<real>)
    returns (r: Result<seq<AnnualRecord>, UploadError>)
    ensures r == AnnualFile(lines, parseInt, parseReal)
  {
    var header := CheckHeader(lines);
    if header.Failure? {
      return Failure(header.error);
    }
    var headers := header.value;
    var rows := lines[1..];
    ghost var f := row => AnnualRow(headers, row, parseInt, parseReal);
    var processed: seq<AnnualRecord> := [];
    var i := 0;
    while i < |rows|
      invariant 0 <= i <= |rows|
      invariant FoldRows(rows[..i], f) == Success(processed)
    {
      var row := rows[i];
      assert rows[..i + 1][..i] == rows[..i];
      if |row| < 2 {
        FoldRowsFailurePersists(rows, i + 1, f);
        return Failure(ShortRow);
      }
      var rowRecords := ProcessAnnualRow(headers, row, parseInt, parseReal);
      if rowRecords.Failure? {
        FoldRowsFailurePersists(rows, i + 1, f);
        return Failure(rowRecords.error);
      }
      processed := processed + rowRecords.value;
      i := i + 1;
    }
    assert rows[..i] == rows;
    return Success(processed);
  }

  /** The inner loop of `process_annual_file` over one row's zip steps. */
  method ProcessAnnualRow(headers: seq<string>, row: seq<string>,
                          parseInt: string -> Option<int>, parseReal: string -> Option<real>)
    returns (out: Result<seq<AnnualRecord>, UploadError>)
    requires |row| >= 2
    ensures out == AnnualRow(headers, row, parseInt, parseReal)
  {
    var sector, subSector := row[0], row[1];
    var steps := ZipSteps(headers, row);
    var records: seq<AnnualRecord> := [];
    var j := 0;
    while j < steps
      invariant 0 <= j <= steps
      invariant records == AnnualCopies(row, j, parseInt, parseReal)
      invariant j > 0 && parseInt(row[2]).Some? ==> |row| >= 4
    {
      var year := parseInt(row[2]);
      if year.None? {
        j := j + 1;
        continue;
      }
      if |row| < 4 {
        return Failure(ShortRow);
      }
      var gdp := parseReal(RemoveCommas(row[3]));
      if gdp.None? {
        j := j + 1;
        continue;
      }
      records := records + [AnnualRecord(sector, subSector, year.value, gdp.value)];
      j := j + 1;
    }
    return Success(records);
  }

  /**
   * A successful annual row yields either nothing or `min(|headers| - 2, |row| - 2)`
   * identical records built from `row[0]`, `row[1]`, `int(row[2])` and the
   * comma-stripped `row[3]`; it yields records exactly when both conversions succeed.
   */
  lemma AnnualRowAllOrNothing(headers: seq<string>, row: seq<string>,
                              parseInt: string -> Option<int>, parseReal: string -> Option<real>)
    requires AnnualRow(headers, row, parseInt, parseReal).Success?
    ensures var out := AnnualRow(headers, row, parseInt, parseReal).value;
      && (out != [] <==> ZipSteps(headers, row) > 0 && parseInt(row[2]).Some? && parseReal(RemoveCommas(row[3])).Some?)
      && (out != [] ==> |out| == ZipSteps(headers, row)
                        && forall k :: 0 <= k < |out| ==>
                             out[k] == AnnualRecord(row[0], row[1], parseInt(row[2]).value, parseReal(RemoveCommas(row[3])).value))
  {
  }

  /** The first cell of the first row must be 'Sector', or the annual parser raises. */
  lemma AnnualHeaderChecked(lines: seq<seq<string>>,
                            parseInt: string -> Option<int>, parseReal: string -> Option<real>)
    ensures AnnualFile(lines, parseInt, parseReal).Success? ==> |lines| > 0 && |lines[0]| > 0 && lines[0][0] == "Sector"
  {
  }

  /** The values of the cells that convert, in column order; a cell that fails is skipped. */
  function ParsedCells(cells: seq<string>, parseReal: string -> Option<real>): seq<real> {
    if cells == [] then []
    else ParsedCells(cells[..|cells| - 1], parseReal) +
         match parseReal(RemoveCommas(cells[|cells| - 1]))
         case None => []
         case Some(v) => [v]
  }

  /** The k-th converted value gets year `2015 + k / 4` and quarter `k % 4 + 1`. */
  function QuarterlySeries(sector: string, values: seq<real>): (r: seq<QuarterlyRecord>)
    ensures |r| == |values|
    ensures forall x :: x in r ==> 1 <= x.quarter <= 4 && x.year >= FirstQuarterlyYear && x.sector == sector
  {
    seq(|values|, k requires 0 <= k < |values| => SeriesRecord(sector, k, values[k]))
  }

  /** The record for the k-th converted value of a row. */
  function SeriesRecord(sector: string, k: int, v: real): QuarterlyRecord {
    QuarterlyRecord(sector, FirstQuarterlyYear + k / 4, k % 4 + 1, v)
  }

  /** What one quarterly data row contributes; `row[0]` is read outside the handler. */
  function QuarterlyRow(row: seq<string>, parseReal: string -> Option<real>)
    : Result<seq<QuarterlyRecord>, UploadError>
  {
    if |row| == 0 then Failure(ShortRow)
    else Success(QuarterlySeries(row[0], ParsedCells(row[1..], parseReal)))
  }

  /** The whole quarterly file. */
  function QuarterlyFile(lines: seq<seq<string>>, parseReal: string -> Option<real>)
    : Result<seq<QuarterlyRecord>, UploadError>
  {
    match CheckHeader(lines)
    case Failure(e) => Failure(e)
    case Success(_) => FoldRows(lines[1..], row => QuarterlyRow(row, parseReal))
  }

  /** `process_quarterly_file`, with its `year` / `quarter_index` counters. */
  method ProcessQuarterlyFile(lines: seq<seq<string>>, parseReal: string -> Option<real>)
    returns (r: Result<seq<QuarterlyRecord>, UploadError>)
    ensures r == QuarterlyFile(lines, parseReal)
  {
    var header := CheckHeader(lines);
    if header.Failure? {
      return Failure(header.error);
    }
    var rows := lines[1..];
    ghost var f := row => QuarterlyRow(row, parseReal);
    var processed: seq<QuarterlyRecord> := [];
    var i := 0;
    while i < |rows|
      invariant 0 <= i <= |rows|
      invariant FoldRows(rows[..i], f) == Success(processed)
    {
      var row := rows[i];
      assert rows[..i + 1][..i] == rows[..i];
      if |row| == 0 {
        FoldRowsFailurePersists(rows, i + 1, f);
        return Failure(ShortRow);
      }
      var rowRecords := ProcessQuarterlyCells(row[0], row[1..], parseReal);
      processed := processed + rowRecords;
      i := i + 1;
    }
    assert rows[..i] == rows;
    return Success(processed);
  }

  /** The inner loop of `process_quarterly_file` over one row's cells. */
  method ProcessQuarterlyCells(sector: string, cells: seq<string>, parseReal: string -> Option<real>)
    returns (out: seq<QuarterlyRecord>)
    ensures out == QuarterlySeries(sector, ParsedCells(cells, parseReal))
  {
    out := [];
    var year := FirstQuarterlyYear;
    var quarterIndex := 1;
    var j := 0;
    while j < |cells|
      invariant 0 <= j <= |cells|
      invariant out == QuarterlySeries(sector, ParsedCells(cells[..j], parseReal))
      invariant var k := |ParsedCells(cells[..j], parseReal)|;
                year == FirstQuarterlyYear + k / 4 && quarterIndex == k % 4 + 1
    {
      assert cells[..j + 1][..j] == cells[..j];
      var gdp := parseReal(RemoveCommas(cells[j]));
      if gdp.Some? {
        ghost var k := |ParsedCells(cells[..j], parseReal)|;
        SeriesStep(sector, ParsedCells(cells[..j], parseReal), gdp.value);
        assert QuarterlyRecord(sector, year, quarterIndex, gdp.value) == SeriesRecord(sector, k, gdp.value);
        out := out + [QuarterlyRecord(sector, year, quarterIndex, gdp.value)];
        quarterIndex := quarterIndex + 1;
        if quarterIndex > 4 {
          quarterIndex := 1;
          year := year + 1;
        }
        QuarterCounterStep(k);
      }
      j := j + 1;
    }
    assert cells[..j] == cells;
  }

  lemma SeriesStep(sector: string, values: seq<real>, v: real)
    ensures QuarterlySeries(sector, values + [v])
            == QuarterlySeries(sector, values) + [SeriesRecord(sector, |values|, v)]
  {
    var a := QuarterlySeries(sector, values + [v]);
    var b := QuarterlySeries(sector, values) + [SeriesRecord(sector, |values|, v)];
    forall k | 0 <= k < |a| ensures a[k] == b[k] {
      if k < |values| {
        assert (values + [v])[k] == values[k];
      }
    }
  }

  /** One step of the counter: quarter 4 wraps to quarter 1 of the next year. */
  lemma QuarterCounterStep(k: nat)
    ensures k % 4 + 1 + 1 > 4 ==> (k + 1) % 4 + 1 == 1 && (k + 1) / 4 == k / 4 + 1
    ensures k % 4 + 1 + 1 <= 4 ==> (k + 1) % 4 + 1 == k % 4 + 1 + 1 && (k + 1) / 4 == k / 4
  {
  }

  /** A cell that does not convert adds no record and leaves the counters where they were. */
  lemma UnparsableCellSkipped(cells: seq<string>, cell: string, parseReal: string -> Option<real>)
    requires parseReal(RemoveCommas(cell)).None?
    ensures ParsedCells(cells + [cell], parseReal) == ParsedCells(cells, parseReal)
  {
    assert (cells + [cell])[..|cells|] == cells;
  }

  /**
   * Every record of a quarterly file has a quarter in 1..4 and a year from
   * 2015 on.
   */
  lemma QuarterlyRecordsWellFormed(lines: seq<seq<string>>, parseReal: string -> Option<real>)
    requires QuarterlyFile(lines, parseReal).Success?
    ensures forall r :: r in QuarterlyFile(lines, parseReal).value ==> 1 <= r.quarter <= 4 && r.year >= FirstQuarterlyYear
  {
    QuarterlyRowsWellFormed(lines[1..], parseReal);
  }

  lemma {:induction false} QuarterlyRowsWellFormed(rows: seq<seq<string>>, parseReal: string -> Option<real>)
    requires FoldRows(rows, row => QuarterlyRow(row, parseReal)).Success?
    ensures forall r :: r in FoldRows(rows, row => QuarterlyRow(row, parseReal)).value ==>
              1 <= r.quarter <= 4 && r.year >= FirstQuarterlyYear
  {
    if rows != [] {
      QuarterlyRowsWellFormed(rows[..|rows| - 1], parseReal);
    }
  }

  /** A stored row: the record and the one timestamp of its upload. */
  datatype Stamped<R> = Stamped(record: R, timestamp: int)

  /** What `handle_uploaded_file` does: returns True, returns False, or raises. */
  datatype UploadOutcome = Uploaded | Rejected | Raised(error: UploadError)

  /** The records stamped with one timestamp, in order. */
  function StampAll<R>(records: seq<R>, timestamp: int): (r: seq<Stamped<R>>)
    ensures |r| == |records|
    ensures forall i :: 0 <= i < |r| ==> r[i] == Stamped(records[i], timestamp)
  {
    seq(|records|, i requires 0 <= i < |records| => Stamped(records[i], timestamp))
  }

  /**
   * `handle_uploaded_file`: truncate the dataset's table, parse the file,
   * insert every record with the one timestamp taken at the start. An
   * exception is re-raised (through `frappe.throw`) with the table left
   * empty; an unknown dataset type returns False and touches nothing.
   */
  method HandleUploadedFile(annual: Table<Stamped<AnnualRecord>>, quarterly: Table<Stamped<QuarterlyRecord>>,
                            lines: seq<seq<string>>, datasetType: string, timestamp: int,
                            parseInt: string -> Option<int>, parseReal: string -> Option<real>)
    returns (outcome: UploadOutcome)
    requires annual as object != quarterly as object
    modifies annual, quarterly
    ensures datasetType == "Annual" ==>
      quarterly.rows == old(quarterly.rows) &&
      match AnnualFile(lines, parseInt, parseReal)
      case Success(records) => outcome == Uploaded && annual.rows == StampAll(records, timestamp)
      case Failure(e) => outcome == Raised(e) && annual.rows == []
    ensures datasetType == "Quarterly" ==>
      annual.rows == old(annual.rows) &&
      match QuarterlyFile(lines, parseReal)
      case Success(records) => outcome == Uploaded && quarterly.rows == StampAll(records, timestamp)
      case Failure(e) => outcome == Raised(e) && quarterly.rows == []
    ensures datasetType != "Annual" && datasetType != "Quarterly" ==>
      outcome == Rejected && annual.rows == old(annual.rows) && quarterly.rows == old(quarterly.rows)
  {
    if datasetType == "Annual" {
      annual.Truncate();
      var processed := ProcessAnnualFile(lines, parseInt, parseReal);
      if processed.Failure? {
        return Raised(processed.error);
      }
      var records := processed.value;
      var i := 0;
      while i < |records|
        invariant 0 <= i <= |records|
        invariant annual.rows == StampAll(records[..i], timestamp)
        invariant quarterly.rows == old(quarterly.rows)
      {
        annual.Insert(Stamped(records[i], timestamp));
        i := i + 1;
      }
      assert records[..i] == records;
      return Uploaded;
    } else if datasetType == "Quarterly" {
      quarterly.Truncate();
      var processed := ProcessQuarterlyFile(lines, parseReal);
      if processed.Failure? {
        return Raised(processed.error);
      }
      var records := processed.value;
      var i := 0;
      while i < |records|
        invariant 0 <= i <= |records|
        invariant quarterly.rows == StampAll(records[..i], timestamp)
        invariant annual.rows == old(annual.rows)
      {
        quarterly.Insert(Stamped(records[i], timestamp));
        i := i + 1;
      }
      assert records[..i] == records;
      return Uploaded;
    }
    return Rejected;
  }
}
