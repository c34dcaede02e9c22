/**
 * The quarter period codec shared by the two quarterly scripts:
 * `custom_quarterly_parser` (one variant per script), `date_to_quarter_string`,
 * and the two ways forecast quarters are labelled.
 */
module QuarterCodec {

  import opened Wrappers
  import opened Text

  /** The exceptions the parsers can raise: a bad unpack, a short token, a non-digit. */
  datatype ParseError = UnpackError | IndexError | ValueError

  /** The period text the scripts build from a dataset row: `str(year) + ' Q' + str(quarter)`. */
  function YearQuarterString(year: int, quarter: int): string {
    IntToString(year) + " Q" + IntToString(quarter)
  }

  /** The canonical quarter label `"<year>-Q<n>"`. */
  function QuarterString(year: int, quarter: int): string {
    IntToString(year) + "-Q" + IntToString(quarter)
  }

  /**
   * `int(quarter[1])`: only the character right after the leading one
   * (normally `Q`) is read; a missing character is an IndexError and a
   * non-digit a ValueError.
   */
  function QuarterDigit(token: string): (r: Result<int, ParseError>)
    ensures r.Success? <==> |token| >= 2 && '0' <= token[1] <= '9'
    ensures r.Success? ==> 0 <= r.value < 10 && DigitChar(r.value) == token[1]
  {
    if |token| < 2 then Failure(IndexError)
    else match DigitValue(token[1])
      case None => Failure(ValueError)
      case Some(d) => Success(d)
  }

  /** The first month of quarter `q`: `(q - 1) * 3 + 1`. It is a calendar month exactly for quarters 1 to 4. */
  function FirstMonth(q: int): (m: int)
    ensures 1 <= q <= 4 <==> 1 <= m <= 12
    ensures m % 3 == 1
  {
    (q - 1) * 3 + 1
  }

  /** `custom_quarterly_parser` of the Holt-Winters script: `"Y Qn"` becomes `"Y-Qn"`. */
  function HwQuarterlyParse(yq: string): (r: Result<string, ParseError>)
    ensures r.Failure? <==> |Split(yq)| != 2 || QuarterDigit(Split(yq)[1]).Failure?
  {
    var parts := Split(yq);
    if |parts| != 2 then Failure(UnpackError)
    else match QuarterDigit(parts[1])
      case Failure(e) => Failure(e)
      case Success(n) => Success(parts[0] + "-Q" + IntToString(n))
  }

  /** `custom_quarterly_parser` of the ARIMA script: `"Y Qn"` becomes `"Y-MM-01"`, MM the quarter's first month. */
  function ArimaQuarterlyParse(yq: string): (r: Result<string, ParseError>)
    ensures r.Failure? <==> |Split(yq)| != 2 || QuarterDigit(Split(yq)[1]).Failure?
  {
    var parts := Split(yq);
    if |parts| != 2 then Failure(UnpackError)
    else match QuarterDigit(parts[1])
      case Failure(e) => Failure(e)
      case Success(n) => Success(parts[0] + "-" + ZeroPad2(FirstMonth(n)) + "-01")
  }

  /** `(month - 1) // 3 + 1`: the quarter a calendar month falls in. */
  function QuarterOfMonth(month: int): (q: int)
    requires 1 <= month <= 12
    ensures 1 <= q <= 4
    ensures FirstMonth(q) <= month < FirstMonth(q) + 3
  {
    (month - 1) / 3 + 1
  }

  /** `date_to_quarter_string` on a date of the given year and month. */
  function DateToQuarterString(year: int, month: int): string
    requires 1 <= month <= 12
  {
    QuarterString(year, QuarterOfMonth(month))
  }

  lemma DigitString(d: int)
    requires 0 <= d < 10
    ensures IntToString(d) == [DigitChar(d)]
  {
  }

  /**
   * The Holt-Winters parser on a year word and a quarter word: the result
   * is the year, `-Q` and the one character after the quarter word's first;
   * whatever follows that character is ignored.
   */
  lemma HwParseReadsOneCharacter(year: string, token: string)
    requires year != [] && NoSpace(year)
    requires |token| >= 2 && NoSpace(token) && '0' <= token[1] <= '9'
    ensures HwQuarterlyParse(year + " " + token) == Success(year + "-Q" + [token[1]])
  {
    SplitTwoWords(year, token);
    var d := QuarterDigit(token).value;
    DigitString(d);
  }

  /** The leading decimal digit of a natural number. */
  function LeadingDigit(n: nat): (d: nat)
    ensures d < 10
    ensures n > 0 ==> d > 0
  {
    if n < 10 then n else LeadingDigit(n / 10)
  }

  lemma {:induction false} LeadingDigitIsFirstChar(n: nat)
    ensures NatToString(n)[0] == DigitChar(LeadingDigit(n))
  {
    if n >= 10 {
      LeadingDigitIsFirstChar(n / 10);
    }
  }

  /**
   * The Holt-Winters parser on the period text of a dataset row: a
   * non-negative quarter keeps only its leading digit (quarter 12 reads as
   * quarter 1); a negative quarter raises a ValueError at the minus sign.
   */
  lemma HwParseOfRow(year: int, quarter: int)
    ensures quarter >= 0 ==> HwQuarterlyParse(YearQuarterString(year, quarter))
                             == Success(QuarterString(year, LeadingDigit(quarter)))
    ensures quarter < 0 ==> HwQuarterlyParse(YearQuarterString(year, quarter)) == Failure(ValueError)
  {
    var y := IntToString(year);
    var token := "Q" + IntToString(quarter);
    assert YearQuarterString(year, quarter) == y + " " + token;
    assert NoSpace(token) by { assert forall i :: 1 <= i < |token| ==> token[i] == IntToString(quarter)[i - 1]; }
    if quarter >= 0 {
      HwParseOfWords(year, y, quarter, token);
    } else {
      SplitTwoWords(y, token);
      assert Split(y + " " + token)[1] == token;
    }
  }

  lemma HwParseOfWords(year: int, y: string, quarter: nat, token: string)
    requires y == IntToString(year) && token == "Q" + IntToString(quarter) && NoSpace(token)
    ensures HwQuarterlyParse(y + " " + token) == Success(QuarterString(year, LeadingDigit(quarter)))
  {
    var d := LeadingDigit(quarter);
    LeadingDigitIsFirstChar(quarter);
    assert token[1] == DigitChar(d);
    HwParseReadsOneCharacter(y, token);
    DigitString(d);
    assert QuarterString(year, d) == y + "-Q" + [DigitChar(d)];
  }

  /** The ARIMA parser on a year word and a quarter word reads the one character after the first. */
  lemma ArimaParseReadsOneCharacter(year: string, token: string)
    requires year != [] && NoSpace(year)
    requires |token| >= 2 && NoSpace(token) && '0' <= token[1] <= '9'
    ensures ArimaQuarterlyParse(year + " " + token)
            == Success(year + "-" + ZeroPad2(FirstMonth(QuarterDigit(token).value)) + "-01")
  {
    SplitTwoWords(year, token);
  }

  /** The zero-padded first months of the four quarters: 01, 04, 07, 10. */
  lemma FirstMonthPadded(quarter: int)
    requires 1 <= quarter <= 4
    ensures ZeroPad2(FirstMonth(quarter)) == ["01", "04", "07", "10"][quarter - 1]
  {
    if quarter == 4 {
      assert NatToString(10) == NatToString(1) + [DigitChar(0)];
    }
  }

  /** The ARIMA parser on the period text of a dataset row with quarter 1 to 4 gives that quarter's first day. */
  lemma ArimaParseOfRow(year: int, quarter: int)
    requires 1 <= quarter <= 4
    ensures ArimaQuarterlyParse(YearQuarterString(year, quarter))
            == Success(IntToString(year) + "-" + ["01", "04", "07", "10"][quarter - 1] + "-01")
  {
    var y := IntToString(year);
    var token := "Q" + IntToString(quarter);
    assert YearQuarterString(year, quarter) == y + " " + token;
    DigitString(quarter);
    assert QuarterDigit(token) == Success(quarter);
    ArimaParseReadsOneCharacter(y, token);
    FirstMonthPadded(quarter);
  }

  /**
   * Round trip: from quarter q in 1..4 to its first month and back through
   * `date_to_quarter_string` gives `"Y-Qq"`, which is also what the
   * Holt-Winters parser makes of the row's period text.
   */
  lemma QuarterMonthRoundTrip(year: int, quarter: int)
    requires 1 <= quarter <= 4
    ensures QuarterOfMonth(FirstMonth(quarter)) == quarter
    ensures DateToQuarterString(year, FirstMonth(quarter)) == QuarterString(year, quarter)
    ensures HwQuarterlyParse(YearQuarterString(year, quarter)) == Success(DateToQuarterString(year, FirstMonth(quarter)))
  {
    HwParseOfRow(year, quarter);
  }

  /** The forecast horizon in quarters for the years `start..end`: `(end - start + 1) * 4`. */
  function ForecastSteps(start: int, end: int): (n: int)
    ensures start <= end ==> n >= 4 && n % 4 == 0
    ensures start == 2024 && end == 2030 ==> n == 28
  {
    (end - start + 1) * 4
  }

  const QuarterNames: seq<string> := ["Q1", "Q2", "Q3", "Q4"]

  /** `[f"{year}-{quarter}" for year in range(start, end + 1) for quarter in quarters]`. */
  function ForecastLabels(start: int, end: int): seq<string>
  {
    YearBlocks(start, end, YearLabels)
  }

  /** The blocks `f(start) + f(start + 1) + ... + f(end)`, one per year. */
  function YearBlocks<T>(start: int, end: int, f: int -> seq<T>): seq<T>
    decreases end - start
  {
    if start > end then []
    else f(start) + YearBlocks(start + 1, end, f)
  }

  /** `[f"{year}-{quarter}" for quarter in quarters]` for one year. */
  function YearLabels(year: int): (r: seq<string>)
    ensures |r| == 4
  {
    [IntToString(year) + "-" + QuarterNames[0], IntToString(year) + "-" + QuarterNames[1],
     IntToString(year) + "-" + QuarterNames[2], IntToString(year) + "-" + QuarterNames[3]]
  }

  /** Label q - 1 of one year's four is the canonical label of quarter q of that year. */
  lemma YearLabelsAt(year: int, q: int)
    requires 1 <= q <= 4
    ensures YearLabels(year)[q - 1] == QuarterString(year, q)
  {
    QuarterNameString(year, q);
  }

  /** The year, a dash and the k-th quarter name make the canonical label of quarter k. */
  lemma QuarterNameString(year: int, q: int)
    requires 1 <= q <= 4
    ensures IntToString(year) + "-" + QuarterNames[q - 1] == QuarterString(year, q)
  {
    DigitString(q);
    var y := IntToString(year);
    assert QuarterNames[q - 1] == ['Q', DigitChar(q)];
    assert y + "-" + ['Q', DigitChar(q)] == y + "-Q" + [DigitChar(q)];
  }

  /** Python's `xs[:k]`, a negative `k` counting from the end. */
  function PySliceTo<T>(xs: seq<T>, k: int): (r: seq<T>)
    ensures k >= 0 ==> r == xs[..if k <= |xs| then k else |xs|]
    ensures k < 0 ==> r == xs[..if |xs| + k >= 0 then |xs| + k else 0]
  {
    if k >= 0 then xs[..if k <= |xs| then k else |xs|]
    else xs[..if |xs| + k >= 0 then |xs| + k else 0]
  }

  lemma ForecastLabelsLength(start: int, end: int)
    ensures |ForecastLabels(start, end)| == if start <= end then ForecastSteps(start, end) else 0
  {
    YearBlocksLength(start, end, YearLabels);
  }

  /** Four labels a year make `4 * (end - start + 1)` of them. */
  lemma {:induction false} YearBlocksLength<T>(start: int, end: int, f: int -> seq<T>)
    requires forall x :: |f(x)| == 4
    ensures |YearBlocks(start, end, f)| == if start <= end then ForecastSteps(start, end) else 0
    decreases end - start
  {
    if start <= end {
      YearBlocksLength(start + 1, end, f);
    }
  }

  lemma {:induction false} ForecastLabelAt(start: int, end: int, k: nat)
    requires k < |ForecastLabels(start, end)|
    ensures ForecastLabels(start, end)[k] == QuarterString(start + k / 4, k % 4 + 1)
  {
    YearQuarterAt(start, end, k / 4, k % 4 + 1, k, start + k / 4);
  }

  /** Label `i = 4y + q - 1` is quarter q of year `start + y`. */
  lemma YearQuarterAt(start: int, end: int, y: nat, q: int, i: int, year: int)
    requires 1 <= q <= 4 && i == 4 * y + q - 1 && year == start + y
    requires i < |ForecastLabels(start, end)|
    ensures ForecastLabels(start, end)[i] == QuarterString(year, q)
  {
    YearBlockAt(start, end, y, q - 1, i, year);
    YearLabelsAt(year, q);
  }

  /** Label `i = 4y + j` is label j of year `start + y`'s four. */
  lemma YearBlockAt(start: int, end: int, y: nat, j: int, i: int, year: int)
    requires 0 <= j < 4 && i == 4 * y + j && year == start + y
    requires i < |ForecastLabels(start, end)|
    ensures ForecastLabels(start, end)[i] == YearLabels(year)[j]
  {
    BlockAt(start, end, YearLabels, y, j, i, year);
  }

  /** Element `i = 4y + j` of four-element yearly blocks is element j of year `start + y`'s block. */
  lemma {:induction false} BlockAt<T>(start: int, end: int, f: int -> seq<T>, y: nat, j: int, i: int, year: int)
    requires forall x :: |f(x)| == 4
    requires 0 <= j < 4 && i == 4 * y + j && year == start + y
    requires i < |YearBlocks(start, end, f)|
    ensures YearBlocks(start, end, f)[i] == f(year)[j]
    decreases y
  {
    assert YearBlocks(start, end, f) == f(start) + YearBlocks(start + 1, end, f);
    if y > 0 {
      BlockAt(start + 1, end, f, y - 1, j, i - 4, year);
    }
  }

  /**
   * The forecast labels: the years start..end, each followed by Q1..Q4,
   * `(end - start + 1) * 4` of them; label k is year `start + k / 4`,
   * quarter `k % 4 + 1`.
   */
  lemma ForecastLabelsShape(start: int, end: int)
    ensures |ForecastLabels(start, end)| == if start <= end then ForecastSteps(start, end) else 0
    ensures forall k :: 0 <= k < |ForecastLabels(start, end)| ==>
              ForecastLabels(start, end)[k] == QuarterString(start + k / 4, k % 4 + 1)
  {
    ForecastLabelsLength(start, end);
    forall k | 0 <= k < |ForecastLabels(start, end)|
      ensures ForecastLabels(start, end)[k] == QuarterString(start + k / 4, k % 4 + 1)
    {
      ForecastLabelAt(start, end, k);
    }
  }

  /** The `[:forecast_steps]` truncation never removes a label. */
  lemma LabelTruncationIsNoOp(start: int, end: int)
    ensures PySliceTo(ForecastLabels(start, end), ForecastSteps(start, end)) == ForecastLabels(start, end)
  {
    ForecastLabelsShape(start, end);
  }

  /** The label of the quarter `n` quarters after quarter `quarter` of `year`. */
  function QuarterLabelAfter(year: int, quarter: int, n: int): string {
    PeriodLabel(PeriodAfter(year, quarter, n))
  }

  /** The running count of quarters `n` quarters after quarter `quarter` of `year`. */
  function PeriodAfter(year: int, quarter: int, n: int): int {
    year * 4 + (quarter - 1) + n
  }

  /** The label of the quarter with running count `index`: year `index / 4`, quarter `index % 4 + 1`. */
  function PeriodLabel(index: int): string {
    QuarterString(index / 4, index % 4 + 1)
  }

  /** Running count `4y + q - 1` is quarter q of year y. */
  lemma PeriodLabelOf(index: int, y: int, q: int)
    requires 1 <= q <= 4 && index == 4 * y + q - 1
    ensures PeriodLabel(index) == QuarterString(y, q)
  {
    assert index / 4 == y && index % 4 == q - 1;
    SamePeriodSameString(index / 4, index % 4 + 1, y, q);
  }

  /** The labels of the `steps` quarters after quarter `quarter` of `year`. */
  function QuartersAfter(year: int, quarter: int, steps: nat): (r: seq<string>)
    ensures |r| == steps
  {
    seq(steps, k requires 0 <= k < steps => NextLabel(year, quarter, k))
  }

  /** The label at 0-based position `k` of the quarters following quarter `quarter` of `year`. */
  function NextLabel(year: int, quarter: int, k: int): string {
    QuarterLabelAfter(year, quarter, k + 1)
  }

  lemma QuartersAfterAt(year: int, quarter: int, steps: nat, k: int)
    requires 0 <= k < steps
    ensures QuartersAfter(year, quarter, steps)[k] == QuarterLabelAfter(year, quarter, k + 1)
  {
  }

  /** Counting on from the last quarter of `start - 1`: the k-th next quarter is quarter `k % 4 + 1` of `start + k / 4`. */
  lemma QuarterAfterYearEnd(start: int, k: nat)
    ensures QuarterLabelAfter(start - 1, 4, k + 1) == QuarterString(start + k / 4, k % 4 + 1)
  {
    PeriodLabelOf(PeriodAfter(start - 1, 4, k + 1), start + k / 4, k % 4 + 1);
  }

  lemma SamePeriodSameString(y1: int, q1: int, y2: int, q2: int)
    requires y1 == y2 && q1 == q2
    ensures QuarterString(y1, q1) == QuarterString(y2, q2)
  {
  }

  lemma QuartersAfterMatchesAt(start: int, end: int, k: nat)
    requires start <= end
    requires k < ForecastSteps(start, end)
    ensures k < |ForecastLabels(start, end)|
    ensures QuartersAfter(start - 1, 4, ForecastSteps(start, end))[k] == ForecastLabels(start, end)[k]
  {
    ForecastLabelsLength(start, end);
    QuartersAfterAt(start - 1, 4, ForecastSteps(start, end), k);
    QuarterAfterYearEnd(start, k);
    ForecastLabelAt(start, end, k);
  }

  /**
   * Continuing from the last quarter of `start - 1` gives exactly the
   * Holt-Winters labels for `start..end`.
   */
  lemma QuartersAfterMatchesForecastLabels(start: int, end: int)
    requires start <= end
    ensures QuartersAfter(start - 1, 4, ForecastSteps(start, end)) == ForecastLabels(start, end)
  {
    ForecastLabelsLength(start, end);
    var steps := ForecastSteps(start, end);
    forall k | 0 <= k < steps
      ensures QuartersAfter(start - 1, 4, steps)[k] == ForecastLabels(start, end)[k]
    {
      QuartersAfterMatchesAt(start, end, k);
    }
  }
}
