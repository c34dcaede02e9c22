/**
 * `holt_winters_annual.py`: the fixed per-sector parameters and horizon,
 * the result rows and their names, and `insert_predictions_to_db`, which
 * truncates the result table and inserts a row only when no row with the
 * same name `sector-year` is there yet. The exponential-smoothing fit and
 * forecast are parameters.
 */
module HoltWintersAnnual {

  import opened Wrappers
  import opened Text
  import opened Upload
  import opened Series
  import opened GridSearch
  import opened Sink

  /** The sectors `load_data_from_db` keeps; the list is repeated for the pivot filter. */
  const RelevantSectors: set<string> := {
    "Agriculture, Forestry & Fishing", "Mining & Quarrying", "Manufacturing",
    "Electricity, Gas and Water", "Construction", "Wholesale & Retail Trade, Restaurants & hotels",
    "Transport, Storage & Communication", "Finance, Insurance and Business services",
    "Community, Social & Personal Services", "Government Activities", "Total Riyadh GDP"
  }

  /** `best_params_dict`, in insertion order; 'Total Riyadh GDP' is commented out there. */
  const BestParams: seq<(string, Candidate)> := [
    ("Agriculture, Forestry & Fishing", Candidate(Mul, Add, 3)),
    ("Mining & Quarrying", Candidate(Mul, Add, 3)),
    ("Manufacturing", Candidate(Add, NoComponent, 3)),
    ("Electricity, Gas and Water", Candidate(Mul, NoComponent, 3)),
    ("Construction", Candidate(Mul, NoComponent, 3)),
    ("Wholesale & Retail Trade, Restaurants & hotels", Candidate(Mul, Mul, 3)),
    ("Transport, Storage & Communication", Candidate(Mul, Mul, 3)),
    ("Finance, Insurance and Business services", Candidate(Mul, Mul, 3)),
    ("Community, Social & Personal Services", Candidate(Mul, Mul, 3)),
    ("Government Activities", Candidate(Mul, Mul, 3))
  ]

  /** `prediction_years`, `list(range(2024, 2031))`. */
  const PredictionYears: seq<int> := [2024, 2025, 2026, 2027, 2028, 2029, 2030]

  /** The fixed parameters name ten distinct allow-listed sectors; 'Total Riyadh GDP' is not among them. */
  lemma BestParamsSectors()
    ensures |BestParams| == 10
    ensures forall i, j :: 0 <= i < j < |BestParams| ==> BestParams[i].0 != BestParams[j].0
    ensures forall i :: 0 <= i < |BestParams| ==> BestParams[i].0 in RelevantSectors
    ensures "Total Riyadh GDP" in RelevantSectors
    ensures forall i :: 0 <= i < |BestParams| ==> BestParams[i].0 != "Total Riyadh GDP"
  {
    var lengths := seq(|BestParams|, i requires 0 <= i < |BestParams| => |BestParams[i].0|);
    assert lengths == [31, 18, 13, 26, 12, 46, 34, 40, 37, 21];
  }

  /** Each fixed triple is one the grid search would try. */
  lemma BestParamsTried()
    ensures forall i :: 0 <= i < |BestParams| ==> Tried(BestParams[i].1) && BestParams[i].1 in Candidates()
  {
    forall i | 0 <= i < |BestParams| ensures Tried(BestParams[i].1) && BestParams[i].1 in Candidates() {
      PeriodThreeTried(BestParams[i].1);
    }
  }

  /** A period-3 triple with a trend component is enumerated, and tried. */
  lemma PeriodThreeTried(c: Candidate)
    requires c.trend != NoComponent && c.period == 3
    ensures Tried(c) && c in Candidates()
  {
    var a := if c.trend == Add then 0 else 1;
    var b := match c.seasonal case Add => 0 case Mul => 1 case NoComponent => 2;
    CandidateOrder(a, b, 0);
    assert Candidates()[12 * a + 4 * b] == c;
  }

  /** The horizon is `range(2024, 2031)`: the seven years 2024..2030. */
  lemma PredictionYearsValue()
    ensures PredictionYears == Range(2024, 2031)
  {
  }

  // ------------------------------------------------------------ result rows

  /** A row of `tabHolt Winters Annual`. */
  datatype HwAnnualRow = HwAnnualRow(name: string, sector: string, year: int, gdp: real, rmse: real)

  /** `f"{sector}-{year}"`, the unique key of the table. */
  function RowName(sector: string, year: int): string {
    sector + "-" + IntToString(year)
  }

  /** What follows the last `'-'` of a string (all of it when there is none). */
  function AfterLastDash(s: string): string {
    if s == [] then []
    else if s[|s| - 1] == '-' then []
    else AfterLastDash(s[..|s| - 1]) + [s[|s| - 1]]
  }

  lemma {:induction false} AfterLastDashOf(a: string, b: string)
    requires '-' !in b
    ensures AfterLastDash(a + "-" + b) == b
  {
    if b != [] {
      var n := |b| - 1;
      assert (a + "-" + b)[..|a + "-" + b| - 1] == a + "-" + b[..n];
      assert b[n] in b;
      AfterLastDashOf(a, b[..n]);
      assert b == b[..n] + [b[n]];
    } else {
      assert a + "-" + b == a + "-";
    }
  }

  /** Joined at a dash, the parts are recovered when the second has no dash of its own. */
  lemma DashJoinInjective(a: string, b: string, c: string, d: string)
    requires '-' !in b && '-' !in d
    requires a + "-" + b == c + "-" + d
    ensures a == c && b == d
  {
    AfterLastDashOf(a, b);
    AfterLastDashOf(c, d);
    assert a == (a + "-" + b)[..|a|];
    assert c == (c + "-" + d)[..|c|];
  }

  /** For years that are not negative, the name determines the sector and the year. */
  lemma RowNameInjective(s1: string, y1: int, s2: string, y2: int)
    requires y1 >= 0 && y2 >= 0
    requires RowName(s1, y1) == RowName(s2, y2)
    ensures s1 == s2 && y1 == y2
  {
    var d1, d2 := IntToString(y1), IntToString(y2);
    assert '-' !in d1 by { assert forall i :: 0 <= i < |d1| ==> '0' <= d1[i] <= '9'; }
    assert '-' !in d2 by { assert forall i :: 0 <= i < |d2| ==> '0' <= d2[i] <= '9'; }
    DashJoinInjective(s1, d1, s2, d2);
    IntToStringInjective(y1, y2);
  }

  /** With a negative year two different pairs share a name, so one of the two rows is never stored. */
  lemma NegativeYearNamesCollide()
    ensures RowName("Construction-", 1) == RowName("Construction", -1)
  {
    assert IntToString(1) == "1";
    assert IntToString(-1) == "-1";
  }

  // --------------------------------------------------------- the key check

  /** `SELECT COUNT(*) ... WHERE name = %s`, as a reference. */
  function NameCount(rows: seq<HwAnnualRow>, name: string): nat {
    if rows == [] then 0
    else NameCount(rows[..|rows| - 1], name) + (if rows[|rows| - 1].name == name then 1 else 0)
  }

  predicate HasName(rows: seq<HwAnnualRow>, name: string) {
    exists i :: 0 <= i < |rows| && rows[i].name == name
  }

  lemma {:induction false} NameCountZero(rows: seq<HwAnnualRow>, name: string)
    ensures NameCount(rows, name) == 0 <==> !HasName(rows, name)
  {
    if rows != [] {
      var init := rows[..|rows| - 1];
      NameCountZero(init, name);
      assert forall i :: 0 <= i < |init| ==> init[i] == rows[i];
      if HasName(rows, name) && rows[|rows| - 1].name != name {
        var i :| 0 <= i < |rows| && rows[i].name == name;
        assert init[i].name == name;
      }
    }
  }

  /** The count query, scanning the table. */
  method CountByName(rows: seq<HwAnnualRow>, name: string) returns (n: nat)
    ensures n == NameCount(rows, name)
    ensures n == 0 <==> !HasName(rows, name)
  {
    n := 0;
    var i := 0;
    while i < |rows|
      invariant 0 <= i <= |rows|
      invariant n == NameCount(rows[..i], name)
    {
      assert rows[..i + 1][..i] == rows[..i];
      if rows[i].name == name {
        n := n + 1;
      }
      i := i + 1;
    }
    assert rows[..|rows|] == rows;
    NameCountZero(rows, name);
  }

  /** The table after truncation and a check-then-insert of each candidate row in turn. */
  function KeyedInsert(cands: seq<HwAnnualRow>): seq<HwAnnualRow> {
    if cands == [] then []
    else
      var prev := KeyedInsert(cands[..|cands| - 1]);
      var c := cands[|cands| - 1];
      if NameCount(prev, c.name) == 0 then prev + [c] else prev
  }

  /** No earlier candidate has the name of candidate `j`. */
  predicate FirstOfName(cands: seq<HwAnnualRow>, j: int) {
    0 <= j < |cands| && forall k :: 0 <= k < j ==> cands[k].name != cands[j].name
  }

  /** The name of every candidate is in the table afterwards. */
  lemma {:induction false} KeyedInsertHasEveryName(cands: seq<HwAnnualRow>)
    ensures forall j :: 0 <= j < |cands| ==> HasName(KeyedInsert(cands), cands[j].name)
  {
    if cands != [] {
      var n := |cands| - 1;
      var init := cands[..n];
      KeyedInsertHasEveryName(init);
      var prev := KeyedInsert(init);
      var r := KeyedInsert(cands);
      NameCountZero(prev, cands[n].name);
      forall j | 0 <= j < |cands| ensures HasName(r, cands[j].name) {
        if j < n {
          assert cands[j] == init[j];
          var i :| 0 <= i < |prev| && prev[i].name == init[j].name;
          assert r[i] == prev[i];
        } else if NameCount(prev, cands[n].name) == 0 {
          assert r[|prev|] == cands[n];
        }
      }
    }
  }

  /** Names in the table are unique. */
  lemma {:induction false} KeyedInsertUniqueNames(cands: seq<HwAnnualRow>)
    ensures forall i, j :: 0 <= i < j < |KeyedInsert(cands)| ==> KeyedInsert(cands)[i].name != KeyedInsert(cands)[j].name
  {
    if cands != [] {
      var n := |cands| - 1;
      KeyedInsertUniqueNames(cands[..n]);
      NameCountZero(KeyedInsert(cands[..n]), cands[n].name);
    }
  }

  /** Every stored row is a candidate that is the first of its name. */
  lemma {:induction false} KeyedInsertStoresFirsts(cands: seq<HwAnnualRow>)
    ensures forall x :: x in KeyedInsert(cands) ==> exists j :: FirstOfName(cands, j) && cands[j] == x
  {
    if cands != [] {
      var n := |cands| - 1;
      var init := cands[..n];
      KeyedInsertStoresFirsts(init);
      KeyedInsertHasEveryName(init);
      var prev := KeyedInsert(init);
      var c := cands[n];
      NameCountZero(prev, c.name);
      forall x | x in KeyedInsert(cands) ensures exists j :: FirstOfName(cands, j) && cands[j] == x {
        if x in prev {
          var j :| FirstOfName(init, j) && init[j] == x;
          assert forall k :: 0 <= k < j ==> cands[k] == init[k];
          assert FirstOfName(cands, j) && cands[j] == x;
        } else {
          assert x == c && NameCount(prev, c.name) == 0;
          forall k | 0 <= k < n ensures cands[k].name != c.name {
            assert cands[k] == init[k];
          }
          assert FirstOfName(cands, n);
        }
      }
    }
  }

  /** Every candidate that is the first of its name is stored. */
  lemma {:induction false} KeyedInsertKeepsFirsts(cands: seq<HwAnnualRow>)
    ensures forall j :: FirstOfName(cands, j) ==> cands[j] in KeyedInsert(cands)
  {
    if cands != [] {
      var n := |cands| - 1;
      var init := cands[..n];
      var prev := KeyedInsert(init);
      KeyedInsertKeepsFirsts(init);
      assert forall x :: x in prev ==> x in KeyedInsert(cands);
      forall j | FirstOfName(cands, j) ensures cands[j] in KeyedInsert(cands) {
        if j < n {
          FirstOfNamePrefix(cands, n, j);
        } else {
          SeenNameNotFirst(cands);
        }
      }
    }
  }

  /** Being the first of its name survives cutting the candidates after it. */
  lemma FirstOfNamePrefix(cands: seq<HwAnnualRow>, n: int, j: int)
    requires 0 <= j < n <= |cands| && FirstOfName(cands, j)
    ensures FirstOfName(cands[..n], j) && cands[..n][j] == cands[j]
  {
    forall k | 0 <= k < j ensures cands[..n][k].name != cands[..n][j].name {
      assert cands[..n][k] == cands[k];
    }
  }

  /** A last candidate whose name the table already holds is not the first of its name. */
  lemma SeenNameNotFirst(cands: seq<HwAnnualRow>)
    requires cands != []
    ensures NameCount(KeyedInsert(cands[..|cands| - 1]), cands[|cands| - 1].name) != 0 ==> !FirstOfName(cands, |cands| - 1)
  {
    var n := |cands| - 1;
    var init := cands[..n];
    var prev := KeyedInsert(init);
    var c := cands[n];
    NameCountZero(prev, c.name);
    if NameCount(prev, c.name) != 0 {
      KeyedInsertStoresFirsts(init);
      var i :| 0 <= i < |prev| && prev[i].name == c.name;
      assert prev[i] in prev;
      var j :| FirstOfName(init, j) && init[j] == prev[i];
      assert cands[j] == init[j];
      assert cands[j].name == c.name && j < n;
    }
  }

  /**
   * Rows inserted before the others win: a candidate among `first` that is
   * the first of its name there is stored, and it is the only stored row
   * with that name, whatever `later` holds.
   */
  lemma EarlierRowsWin(first: seq<HwAnnualRow>, later: seq<HwAnnualRow>, j: int)
    requires FirstOfName(first, j)
    ensures first[j] in KeyedInsert(first + later)
    ensures forall x :: x in KeyedInsert(first + later) && x.name == first[j].name ==> x == first[j]
  {
    var all := first + later;
    assert forall k :: 0 <= k < |first| ==> all[k] == first[k];
    assert FirstOfName(all, j);
    KeyedInsertKeepsFirsts(all);
    KeyedInsertUniqueNames(all);
    var r := KeyedInsert(all);
    forall x | x in r && x.name == first[j].name ensures x == first[j] {
      var a :| 0 <= a < |r| && r[a] == x;
      var b :| 0 <= b < |r| && r[b] == first[j];
    }
  }

  // ------------------------------------------------------- candidate rows

  /** `df[df['sector'] == sector]`, in row order. */
  function SectorRecords(df: seq<AnnualRecord>, sector: string): (r: seq<AnnualRecord>)
    ensures forall x :: x in r <==> x in df && x.sector == sector
  {
    if df == [] then []
    else SectorRecords(df[..|df| - 1], sector) +
         (if df[|df| - 1].sector == sector then [df[|df| - 1]] else [])
  }

  /** The kept rows of a concatenation are the kept rows of each part, in order, duplicates included. */
  lemma {:induction false} SectorRecordsConcat(a: seq<AnnualRecord>, b: seq<AnnualRecord>, sector: string)
    ensures SectorRecords(a + b, sector) == SectorRecords(a, sector) + SectorRecords(b, sector)
    decreases |b|
  {
    if b == [] {
      assert a + b == a;
    } else {
      var n := |b| - 1;
      var last := if b[n].sector == sector then [b[n]] else [];
      assert (a + b)[..|a + b| - 1] == a + b[..n];
      assert (a + b)[|a + b| - 1] == b[n];
      assert SectorRecords(a + b, sector) == SectorRecords(a + b[..n], sector) + last;
      assert SectorRecords(b, sector) == SectorRecords(b[..n], sector) + last;
      SectorRecordsConcat(a, b[..n], sector);
    }
  }

  /** One row is kept exactly when it passes the filter. */
  lemma SectorRecordsOne(x: AnnualRecord, sector: string)
    ensures SectorRecords([x], sector) == if x.sector == sector then [x] else []
  {
    assert [x][..0] == [];
  }

  /** The historical row a record gives: its raw gdp, rmse 0. */
  function HistoryRow(x: AnnualRecord): HwAnnualRow {
    HwAnnualRow(RowName(x.sector, x.year), x.sector, x.year, x.gdp, 0.0)
  }

  function HistoryRows(records: seq<AnnualRecord>): (r: seq<HwAnnualRow>)
    ensures |r| == |records|
  {
    if records == [] then [] else HistoryRows(records[..|records| - 1]) + [HistoryRow(records[|records| - 1])]
  }

  /** Every historical row carries rmse 0 and the name `sector-year` of its own sector and year. */
  lemma {:induction false} HistoryRowsShape(records: seq<AnnualRecord>)
    ensures forall x :: x in HistoryRows(records) ==> x.rmse == 0.0 && x.name == RowName(x.sector, x.year)
  {
    if records != [] {
      HistoryRowsShape(records[..|records| - 1]);
    }
  }

  /** The historical candidates of the given sectors, sector after sector. */
  function HistoryOfSectors(sectors: seq<string>, df: seq<AnnualRecord>): seq<HwAnnualRow> {
    if sectors == [] then []
    else HistoryOfSectors(sectors[..|sectors| - 1], df) + HistoryRows(SectorRecords(df, sectors[|sectors| - 1]))
  }

  /** The historical candidates: `for sector in df['sector'].unique()`, then that sector's rows. */
  function HistoryCandidates(df: seq<AnnualRecord>): seq<HwAnnualRow> {
    HistoryOfSectors(Unique(SectorNames(df)), df)
  }

  /** `zip(prediction_years, forecast)`: one row per pair, as long as the shorter of the two. */
  function ForecastRows(sector: string, years: seq<int>, forecast: seq<real>, rmse: real): seq<HwAnnualRow> {
    var n := if |years| < |forecast| then |years| else |forecast|;
    seq(n, k requires 0 <= k < n => HwAnnualRow(RowName(sector, years[k]), sector, years[k], forecast[k], rmse))
  }

  /** `rmse_values.get(sector, 0)`. */
  function RmseOf(rmseValues: map<string, real>, sector: string): real {
    if sector in rmseValues then rmseValues[sector] else 0.0
  }

  /** The forecast candidates: sector after sector, each forecast zipped with the horizon. */
  function ForecastCandidates(predictions: seq<(string, seq<real>)>, years: seq<int>, rmseValues: map<string, real>): seq<HwAnnualRow> {
    if predictions == [] then []
    else
      var p := predictions[|predictions| - 1];
      ForecastCandidates(predictions[..|predictions| - 1], years, rmseValues) +
      ForecastRows(p.0, years, p.1, RmseOf(rmseValues, p.0))
  }

  /** A seven-value forecast gives rows for exactly the years 2024..2030, in order, paired with the values. */
  lemma SevenForecastYears(sector: string, forecast: seq<real>, rmse: real)
    requires |forecast| == |PredictionYears|
    ensures |ForecastRows(sector, PredictionYears, forecast, rmse)| == 7
    ensures forall k :: 0 <= k < 7 ==>
              ForecastRows(sector, PredictionYears, forecast, rmse)[k].year == 2024 + k &&
              ForecastRows(sector, PredictionYears, forecast, rmse)[k].gdp == forecast[k]
  {
  }

  /** The rows the table ends with after `insert_predictions_to_db(predictions, rmse_values)`. */
  function StoredRows(df: seq<AnnualRecord>, predictions: seq<(string, seq<real>)>, years: seq<int>, rmseValues: map<string, real>): seq<HwAnnualRow> {
    KeyedInsert(HistoryCandidates(df) + ForecastCandidates(predictions, years, rmseValues))
  }

  /** Every stored row is a candidate. */
  lemma StoredAreCandidates(cands: seq<HwAnnualRow>, x: HwAnnualRow)
    requires x in KeyedInsert(cands)
    ensures x in cands
  {
    KeyedInsertStoresFirsts(cands);
  }

  lemma {:induction false} HistoryShape(sectors: seq<string>, df: seq<AnnualRecord>)
    ensures forall x :: x in HistoryOfSectors(sectors, df) ==> x.rmse == 0.0 && x.name == RowName(x.sector, x.year)
  {
    if sectors != [] {
      HistoryShape(sectors[..|sectors| - 1], df);
      HistoryRowsShape(SectorRecords(df, sectors[|sectors| - 1]));
    }
  }

  lemma {:induction false} ForecastShape(predictions: seq<(string, seq<real>)>, years: seq<int>, rmseValues: map<string, real>)
    ensures forall x :: x in ForecastCandidates(predictions, years, rmseValues) ==>
              x.rmse == RmseOf(rmseValues, x.sector) && x.name == RowName(x.sector, x.year)
  {
    if predictions != [] {
      ForecastShape(predictions[..|predictions| - 1], years, rmseValues);
    }
  }

  /**
   * With `rmse_values` reset to `{}` before the call, every stored row,
   * historical or forecast, carries rmse 0; every name is `sector-year`,
   * and names are unique.
   */
  lemma StoredRowsShape(df: seq<AnnualRecord>, predictions: seq<(string, seq<real>)>, years: seq<int>)
    ensures forall x :: x in StoredRows(df, predictions, years, map[]) ==> x.rmse == 0.0 && x.name == RowName(x.sector, x.year)
    ensures forall i, j :: 0 <= i < j < |StoredRows(df, predictions, years, map[])| ==>
              StoredRows(df, predictions, years, map[])[i].name != StoredRows(df, predictions, years, map[])[j].name
  {
    var h := HistoryCandidates(df);
    var f := ForecastCandidates(predictions, years, map[]);
    HistoryShape(Unique(SectorNames(df)), df);
    ForecastShape(predictions, years, map[]);
    forall x | x in StoredRows(df, predictions, years, map[])
      ensures x.rmse == 0.0 && x.name == RowName(x.sector, x.year)
    {
      StoredAreCandidates(h + f, x);
    }
    KeyedInsertUniqueNames(h + f);
  }

  /** Two sub-sector rows of Construction in 2015. */
  function TwoSubSectors(): seq<AnnualRecord> {
    [AnnualRecord("Construction", "Buildings", 2015, 1.0), AnnualRecord("Construction", "Roads", 2015, 2.0)]
  }

  lemma UniqueOfTwoEqual(a: string)
    ensures Unique([a, a]) == [a]
  {
    assert [a, a][..1] == [a];
    assert [a][..0] == [];
    assert Unique([a]) == [a];
    assert a in Unique([a]);
  }

  lemma SectorRecordsOfTwo(x: AnnualRecord, y: AnnualRecord)
    requires x.sector == y.sector
    ensures SectorRecords([x, y], x.sector) == [x, y]
  {
    assert [x, y][..1] == [x];
    assert [x][..0] == [];
    assert SectorRecords([x], x.sector) == [x];
  }

  lemma HistoryOfOneSector(s: string, df: seq<AnnualRecord>)
    ensures HistoryOfSectors([s], df) == HistoryRows(SectorRecords(df, s))
  {
    assert [s][..0] == [];
  }

  lemma HistoryOfSameSector(x: AnnualRecord, y: AnnualRecord)
    requires x.sector == y.sector
    ensures HistoryCandidates([x, y]) == [HistoryRow(x), HistoryRow(y)]
  {
    var df := [x, y];
    assert SectorNames(df) == [x.sector, x.sector];
    UniqueOfTwoEqual(x.sector);
    SectorRecordsOfTwo(x, y);
    HistoryOfOneSector(x.sector, df);
  }

  lemma TwoSubSectorsHistory()
    ensures HistoryCandidates(TwoSubSectors()) == [HistoryRow(TwoSubSectors()[0]), HistoryRow(TwoSubSectors()[1])]
  {
    HistoryOfSameSector(TwoSubSectors()[0], TwoSubSectors()[1]);
  }

  /**
   * For a repeated (sector, year), for instance one per sub-sector, only the
   * first raw row is stored, with its own gdp, while the pivot the model is
   * fitted on holds the sum.
   */
  lemma FirstRawRowKept()
    ensures KeyedInsert(HistoryCandidates(TwoSubSectors())) == [HistoryRow(TwoSubSectors()[0])]
    ensures var p := AnnualPivotHw(TwoSubSectors(), RelevantSectors);
            ("Construction", 2015) in p && p[("Construction", 2015)] == 3.0
  {
    var df := TwoSubSectors();
    TwoSubSectorsHistory();
    SameKeySameName(df[0], df[1]);
    FirstOfTwoKept(HistoryRow(df[0]), HistoryRow(df[1]));
    PivotOfTwoSubSectors();
  }

  /** Two raw rows for one (sector, year) give historical rows of one name. */
  lemma SameKeySameName(x: AnnualRecord, y: AnnualRecord)
    requires x.sector == y.sector && x.year == y.year
    ensures HistoryRow(x).name == HistoryRow(y).name
  {
  }

  /** Of two candidates with one name, the keyed insert keeps the first. */
  lemma FirstOfTwoKept(a: HwAnnualRow, b: HwAnnualRow)
    requires a.name == b.name
    ensures KeyedInsert([a, b]) == [a]
  {
    assert [a, b][..1] == [a];
    assert [a][..0] == [];
    assert KeyedInsert([a]) == [a];
    assert NameCount([a], b.name) == 1;
    assert KeyedInsert([a, b]) == if NameCount(KeyedInsert([a]), b.name) == 0 then KeyedInsert([a]) + [b] else KeyedInsert([a]);
  }

  lemma SumOfTwo(x: AnnualRecord, y: AnnualRecord, allow: set<string>)
    requires x.sector == y.sector && x.year == y.year && x.sector in allow
    ensures AllowListed([x, y], allow) == [x, y]
    ensures SumGdp([x, y], x.sector, x.year) == x.gdp + y.gdp
    ensures x.sector in SectorSet([x, y]) && x.year in YearSet([x, y])
  {
    assert [x, y][..1] == [x];
    assert [x][..0] == [];
    assert SumGdp([x], x.sector, x.year) == x.gdp;
    assert AllowListed([x], allow) == [x];
    assert 0 <= 0 < |[x, y]| && [x, y][0] == x;
  }

  lemma PivotOfTwoSubSectors()
    ensures var p := AnnualPivotHw(TwoSubSectors(), RelevantSectors);
            ("Construction", 2015) in p && p[("Construction", 2015)] == 3.0
  {
    var df := TwoSubSectors();
    SumOfTwo(df[0], df[1], RelevantSectors);
    PivotDomain(df, RelevantSectors, "Construction", 2015);
    PivotCells(df, RelevantSectors);
  }

  // ------------------------------------------------------- the table writes

  lemma KeyedInsertSnoc(xs: seq<HwAnnualRow>, c: HwAnnualRow)
    ensures KeyedInsert(xs + [c]) ==
              if NameCount(KeyedInsert(xs), c.name) == 0 then KeyedInsert(xs) + [c] else KeyedInsert(xs)
  {
    assert (xs + [c])[..|xs|] == xs;
  }

  /** Historical rows win over forecast rows with the same name. */
  lemma HistoryWinsOverForecast(df: seq<AnnualRecord>, predictions: seq<(string, seq<real>)>, years: seq<int>,
                                rmseValues: map<string, real>, j: int)
    requires FirstOfName(HistoryCandidates(df), j)
    ensures HistoryCandidates(df)[j] in StoredRows(df, predictions, years, rmseValues)
    ensures forall x :: x in StoredRows(df, predictions, years, rmseValues) && x.name == HistoryCandidates(df)[j].name ==>
              x == HistoryCandidates(df)[j]
  {
    EarlierRowsWin(HistoryCandidates(df), ForecastCandidates(predictions, years, rmseValues), j);
  }

  /** Every row of one sector's forecast is among the forecast candidates. */
  lemma {:induction false} ForecastCandidatesContain(predictions: seq<(string, seq<real>)>, years: seq<int>, rmseValues: map<string, real>,
                                                  i: int, x: HwAnnualRow)
    requires 0 <= i < |predictions|
    requires x in ForecastRows(predictions[i].0, years, predictions[i].1, RmseOf(rmseValues, predictions[i].0))
    ensures x in ForecastCandidates(predictions, years, rmseValues)
  {
    var n := |predictions| - 1;
    if i < n {
      assert predictions[..n][i] == predictions[i];
      ForecastCandidatesContain(predictions[..n], years, rmseValues, i, x);
      EarlierCandidateKept(predictions, years, rmseValues, x);
    } else {
      LastCandidateKept(predictions, years, rmseValues, x);
    }
  }

  /** A candidate of all but the last sector stays a candidate. */
  lemma EarlierCandidateKept(predictions: seq<(string, seq<real>)>, years: seq<int>, rmseValues: map<string, real>, x: HwAnnualRow)
    requires predictions != []
    requires x in ForecastCandidates(predictions[..|predictions| - 1], years, rmseValues)
    ensures x in ForecastCandidates(predictions, years, rmseValues)
  {
    var n := |predictions| - 1;
    InLeft(x, ForecastCandidates(predictions[..n], years, rmseValues),
           ForecastRows(predictions[n].0, years, predictions[n].1, RmseOf(rmseValues, predictions[n].0)));
  }

  /** A row of the last sector's forecast is a candidate. */
  lemma LastCandidateKept(predictions: seq<(string, seq<real>)>, years: seq<int>, rmseValues: map<string, real>, x: HwAnnualRow)
    requires predictions != []
    requires var n := |predictions| - 1;
             x in ForecastRows(predictions[n].0, years, predictions[n].1, RmseOf(rmseValues, predictions[n].0))
    ensures x in ForecastCandidates(predictions, years, rmseValues)
  {
    var n := |predictions| - 1;
    InRight(x, ForecastCandidates(predictions[..n], years, rmseValues),
            ForecastRows(predictions[n].0, years, predictions[n].1, RmseOf(rmseValues, predictions[n].0)));
  }

  lemma InLeft(x: HwAnnualRow, a: seq<HwAnnualRow>, b: seq<HwAnnualRow>)
    requires x in a
    ensures x in a + b
  {
  }

  lemma InRight(x: HwAnnualRow, a: seq<HwAnnualRow>, b: seq<HwAnnualRow>)
    requires x in b
    ensures x in a + b
  {
  }

  /** Every predicted sector has a stored row named for each horizon year its forecast covers. */
  lemma ForecastYearsStored(df: seq<AnnualRecord>, predictions: seq<(string, seq<real>)>, years: seq<int>,
                            rmseValues: map<string, real>, i: int, k: int)
    requires 0 <= i < |predictions| && 0 <= k < |years| && k < |predictions[i].1|
    ensures HasName(StoredRows(df, predictions, years, rmseValues), RowName(predictions[i].0, years[k]))
  {
    var fr := ForecastRows(predictions[i].0, years, predictions[i].1, RmseOf(rmseValues, predictions[i].0));
    ForecastCandidatesContain(predictions, years, rmseValues, i, fr[k]);
    var h := HistoryCandidates(df);
    var all := h + ForecastCandidates(predictions, years, rmseValues);
    InRight(fr[k], h, ForecastCandidates(predictions, years, rmseValues));
    var j :| 0 <= j < |all| && all[j] == fr[k];
    KeyedInsertHasEveryName(all);
  }

  /** One check-then-insert: `SELECT COUNT(*)`, then `INSERT` when the count is 0. */
  method InsertIfAbsent(table: Table<HwAnnualRow>, ghost before: seq<HwAnnualRow>, row: HwAnnualRow)
    requires table.rows == KeyedInsert(before)
    modifies table
    ensures table.rows == KeyedInsert(before + [row])
  {
    KeyedInsertSnoc(before, row);
    var n := CountByName(table.rows, row.name);
    if n == 0 {
      table.Insert(row);
    }
  }

  lemma HistoryRowsSnoc(before: seq<HwAnnualRow>, records: seq<AnnualRecord>, j: int)
    requires 0 <= j < |records|
    ensures before + HistoryRows(records[..j + 1]) == (before + HistoryRows(records[..j])) + [HistoryRow(records[j])]
  {
    assert records[..j + 1][..j] == records[..j];
  }

  lemma PrefixSnoc(before: seq<HwAnnualRow>, rows: seq<HwAnnualRow>, k: int)
    requires 0 <= k < |rows|
    ensures before + rows[..k + 1] == (before + rows[..k]) + [rows[k]]
  {
    assert rows[..k + 1] == rows[..k] + [rows[k]];
  }

  /** `for index, row in sector_data.iterrows()`: the historical rows of one sector. */
  method InsertSectorHistory(table: Table<HwAnnualRow>, ghost before: seq<HwAnnualRow>, sectorData: seq<AnnualRecord>)
    requires table.rows == KeyedInsert(before)
    modifies table
    ensures table.rows == KeyedInsert(before + HistoryRows(sectorData))
  {
    var j := 0;
    assert before + HistoryRows(sectorData[..0]) == before;
    while j < |sectorData|
      invariant 0 <= j <= |sectorData|
      invariant table.rows == KeyedInsert(before + HistoryRows(sectorData[..j]))
    {
      var row := HistoryRow(sectorData[j]);
      HistoryRowsSnoc(before, sectorData, j);
      InsertIfAbsent(table, before + HistoryRows(sectorData[..j]), row);
      j := j + 1;
    }
    assert sectorData[..j] == sectorData;
  }

  /** `for year, gdp in zip(prediction_years, forecast)`: the forecast rows of one sector. */
  method InsertSectorForecast(table: Table<HwAnnualRow>, ghost before: seq<HwAnnualRow>,
                              sector: string, years: seq<int>, forecast: seq<real>, rmse: real)
    requires table.rows == KeyedInsert(before)
    modifies table
    ensures table.rows == KeyedInsert(before + ForecastRows(sector, years, forecast, rmse))
  {
    ghost var rows := ForecastRows(sector, years, forecast, rmse);
    var n := if |years| < |forecast| then |years| else |forecast|;
    assert |rows| == n;
    var k := 0;
    assert before + rows[..0] == before;
    while k < n
      invariant 0 <= k <= n
      invariant table.rows == KeyedInsert(before + rows[..k])
    {
      var year, gdp := years[k], forecast[k];
      var row := HwAnnualRow(RowName(sector, year), sector, year, gdp, rmse);
      assert row == rows[k];
      PrefixSnoc(before, rows, k);
      InsertIfAbsent(table, before + rows[..k], row);
      k := k + 1;
    }
    assert rows[..k] == rows;
  }

  /** The historical half: `for sector in df['sector'].unique()`, each sector's rows in turn. */
  method InsertHistory(table: Table<HwAnnualRow>, df: seq<AnnualRecord>)
    requires table.rows == []
    modifies table
    ensures table.rows == KeyedInsert(HistoryCandidates(df))
  {
    var sectors := Unique(SectorNames(df));
    var i := 0;
    while i < |sectors|
      invariant 0 <= i <= |sectors|
      invariant table.rows == KeyedInsert(HistoryOfSectors(sectors[..i], df))
    {
      InsertSectorHistory(table, HistoryOfSectors(sectors[..i], df), SectorRecords(df, sectors[i]));
      HistoryOfSectorsSnoc(sectors, df, i);
      i := i + 1;
    }
    assert sectors[..i] == sectors;
  }

  lemma HistoryOfSectorsSnoc(sectors: seq<string>, df: seq<AnnualRecord>, i: int)
    requires 0 <= i < |sectors|
    ensures HistoryOfSectors(sectors[..i + 1], df) == HistoryOfSectors(sectors[..i], df) + HistoryRows(SectorRecords(df, sectors[i]))
  {
    assert sectors[..i + 1][..i] == sectors[..i];
  }

  lemma ForecastCandidatesSnoc(history: seq<HwAnnualRow>, predictions: seq<(string, seq<real>)>, years: seq<int>,
                               rmseValues: map<string, real>, p: int)
    requires 0 <= p < |predictions|
    ensures history + ForecastCandidates(predictions[..p + 1], years, rmseValues) ==
            (history + ForecastCandidates(predictions[..p], years, rmseValues)) +
            ForecastRows(predictions[p].0, years, predictions[p].1, RmseOf(rmseValues, predictions[p].0))
  {
    assert predictions[..p + 1][..p] == predictions[..p];
  }

  /** The forecast half: `for sector, forecast in predictions.items()`, each sector's rows in turn. */
  method InsertForecasts(table: Table<HwAnnualRow>, ghost history: seq<HwAnnualRow>,
                         predictions: seq<(string, seq<real>)>, years: seq<int>, rmseValues: map<string, real>)
    requires table.rows == KeyedInsert(history)
    modifies table
    ensures table.rows == KeyedInsert(history + ForecastCandidates(predictions, years, rmseValues))
  {
    assert history + ForecastCandidates(predictions[..0], years, rmseValues) == history;
    var p := 0;
    while p < |predictions|
      invariant 0 <= p <= |predictions|
      invariant table.rows == KeyedInsert(history + ForecastCandidates(predictions[..p], years, rmseValues))
    {
      var sector := predictions[p].0;
      var rmse := RmseOf(rmseValues, sector);
      ForecastCandidatesSnoc(history, predictions, years, rmseValues, p);
      InsertSectorForecast(table, history + ForecastCandidates(predictions[..p], years, rmseValues),
                           sector, years, predictions[p].1, rmse);
      p := p + 1;
    }
    assert predictions[..p] == predictions;
  }

  /**
   * `insert_predictions_to_db(predictions, rmse_values)` given the loaded
   * rows: truncate, then the historical rows sector by sector, then the
   * forecast rows, each inserted only if its name is absent.
   */
  method InsertPredictionsToDb(table: Table<HwAnnualRow>, df: seq<AnnualRecord>,
                               predictions: seq<(string, seq<real>)>, years: seq<int>, rmseValues: map<string, real>)
    modifies table
    ensures table.rows == StoredRows(df, predictions, years, rmseValues)
  {
    table.Truncate();
    InsertHistory(table, df);
    InsertForecasts(table, HistoryCandidates(df), predictions, years, rmseValues);
  }

  // ------------------------------------------------------------ main_annual

  /** The earliest and the latest year among the rows. */
  function MinYear(df: seq<AnnualRecord>): (y: int)
    requires df != []
    ensures forall i :: 0 <= i < |df| ==> y <= df[i].year
    ensures exists i :: 0 <= i < |df| && df[i].year == y
  {
    if |df| == 1 then df[0].year
    else
      var m := MinYear(df[1..]);
      assert forall i :: 1 <= i < |df| ==> df[1..][i - 1] == df[i];
      if df[0].year <= m then df[0].year else m
  }

  function MaxYear(df: seq<AnnualRecord>): (y: int)
    requires df != []
    ensures forall i :: 0 <= i < |df| ==> df[i].year <= y
    ensures exists i :: 0 <= i < |df| && df[i].year == y
  {
    if |df| == 1 then df[0].year
    else
      var m := MaxYear(df[1..]);
      assert forall i :: 1 <= i < |df| ==> df[1..][i - 1] == df[i];
      if df[0].year >= m then df[0].year else m
  }

  /** The pivot's columns: every year among the rows, ascending. */
  function Columns(df: seq<AnnualRecord>): (c: seq<int>)
    ensures forall y :: y in c <==> y in YearSet(df)
    ensures forall i, j :: 0 <= i < j < |c| ==> c[i] < c[j]
  {
    if df == [] then []
    else
      var lo, hi := MinYear(df), MaxYear(df);
      assert forall y :: y in YearSet(df) ==> lo <= y <= hi;
      YearWindow(YearSet(df), lo, hi)
  }

  /** `pivot_df.loc[sector].values`, for a sector in the pivot's index. */
  function SectorSeries(data: seq<AnnualRecord>, allow: set<string>, sector: string): (ts: seq<real>)
    requires sector in SectorSet(AllowListed(data, allow))
    ensures |ts| == |Columns(AllowListed(data, allow))|
  {
    var df := AllowListed(data, allow);
    var p := AnnualPivotHw(data, allow);
    var cols := Columns(df);
    assert forall i :: 0 <= i < |cols| ==> (sector, cols[i]) in p by {
      forall i | 0 <= i < |cols| ensures (sector, cols[i]) in p {
        PivotDomain(data, allow, sector, cols[i]);
      }
    }
    SectorRow(p, sector, cols)
  }

  /** `pivot_df` as a table from each sector of its index to that sector's row of values. */
  function PivotRows(data: seq<AnnualRecord>, allow: set<string>): map<string, seq<real>> {
    map s | s in SectorSet(AllowListed(data, allow)) :: SectorSeries(data, allow, s)
  }

  /**
   * The discarded rmse pass on one series: fit ('add', 'add', 3) on the
   * first 80% and score the rest. Its value is overwritten, but a fit that
   * raises stops the script.
   */
  function HoldoutScore(ts: seq<real>, fitScore: (seq<real>, seq<real>, Candidate) -> Option<real>): Option<real> {
    var split := TrainTestSplit(ts);
    fitScore(split.0, split.1, Candidate(Add, Add, 3))
  }

  /** Why `main_annual` stops before writing anything. */
  datatype AnnualFailure =
    | NoData                      // the dataset is empty, so `df` is never bound
    | HoldoutFitFailed            // a fit of the discarded rmse pass raised
    | MissingSector(sector: string) // `pivot_df.loc[sector]` raised KeyError
    | ForecastFailed(sector: string)

  /** The fine-tuned forecasts of the given sectors, in order, or the first error. */
  function PredictionsOf(params: seq<(string, Candidate)>, pivot: map<string, seq<real>>, steps: nat,
                         forecastOf: (seq<real>, Candidate, nat) -> Option<seq<real>>)
    : Result<seq<(string, seq<real>)>, AnnualFailure>
  {
    if params == [] then Success([])
    else
      var prev := PredictionsOf(params[..|params| - 1], pivot, steps, forecastOf);
      var p := params[|params| - 1];
      if prev.Failure? then prev
      else if p.0 !in pivot then Failure(MissingSector(p.0))
      else match forecastOf(pivot[p.0], p.1, steps)
        case None => Failure(ForecastFailed(p.0))
        case Some(f) => Success(prev.value + [(p.0, f)])
  }

  /** The forecasts `main_annual` hands to `insert_predictions_to_db`, or why it stops. */
  function MainAnnualPlan(data: seq<AnnualRecord>, allow: set<string>, params: seq<(string, Candidate)>, steps: nat,
                          fitScore: (seq<real>, seq<real>, Candidate) -> Option<real>,
                          forecastOf: (seq<real>, Candidate, nat) -> Option<seq<real>>)
    : Result<seq<(string, seq<real>)>, AnnualFailure>
  {
    var pivot := PivotRows(data, allow);
    if data == [] then Failure(NoData)
    else if exists s :: s in pivot && HoldoutScore(pivot[s], fitScore).None? then Failure(HoldoutFitFailed)
    else PredictionsOf(params, pivot, steps, forecastOf)
  }

  /**
   * On success there is one forecast per fixed sector, in the fixed order,
   * each the one its fixed triple gives on that sector's row of the pivot;
   * every fixed sector is then in the pivot.
   */
  lemma {:induction false} PredictionsShape(params: seq<(string, Candidate)>, pivot: map<string, seq<real>>, steps: nat,
                                            forecastOf: (seq<real>, Candidate, nat) -> Option<seq<real>>)
    requires PredictionsOf(params, pivot, steps, forecastOf).Success?
    ensures |PredictionsOf(params, pivot, steps, forecastOf).value| == |params|
    ensures forall i :: 0 <= i < |params| ==>
              params[i].0 in pivot &&
              PredictionsOf(params, pivot, steps, forecastOf).value[i].0 == params[i].0 &&
              forecastOf(pivot[params[i].0], params[i].1, steps) == Some(PredictionsOf(params, pivot, steps, forecastOf).value[i].1)
  {
    if params != [] {
      var n := |params| - 1;
      PredictionsShape(params[..n], pivot, steps, forecastOf);
      assert forall i :: 0 <= i < n ==> params[..n][i] == params[i];
    }
  }

  /** Any fixed sector missing from the pivot makes the script stop without writing. */
  lemma {:induction false} MissingSectorStops(params: seq<(string, Candidate)>, pivot: map<string, seq<real>>, steps: nat,
                                              forecastOf: (seq<real>, Candidate, nat) -> Option<seq<real>>, i: int)
    requires 0 <= i < |params| && params[i].0 !in pivot
    ensures PredictionsOf(params, pivot, steps, forecastOf).Failure?
  {
    var n := |params| - 1;
    if i < n {
      MissingSectorStops(params[..n], pivot, steps, forecastOf, i);
    }
  }

  /** The discarded rmse pass: every sector of the pivot, fitted once. */
  method HoldoutPass(pivot: map<string, seq<real>>, sectors: seq<string>,
                     fitScore: (seq<real>, seq<real>, Candidate) -> Option<real>)
    returns (raised: bool)
    requires forall s :: s in pivot <==> s in sectors
    ensures raised <==> exists s :: s in pivot && HoldoutScore(pivot[s], fitScore).None?
  {
    var i := 0;
    while i < |sectors|
      invariant 0 <= i <= |sectors|
      invariant forall k :: 0 <= k < i ==> HoldoutScore(pivot[sectors[k]], fitScore).Some?
    {
      var ts := pivot[sectors[i]];
      var train, test := TrainTestSplit(ts).0, TrainTestSplit(ts).1;
      var rmse := fitScore(train, test, Candidate(Add, Add, 3));
      if rmse.None? {
        return true;
      }
      i := i + 1;
    }
    return false;
  }

  /** The fine-tuning loop: `for sector, params in best_params_dict.items()`. */
  method FineTune(pivot: map<string, seq<real>>, params: seq<(string, Candidate)>, steps: nat,
                  forecastOf: (seq<real>, Candidate, nat) -> Option<seq<real>>)
    returns (r: Result<seq<(string, seq<real>)>, AnnualFailure>)
    ensures r == PredictionsOf(params, pivot, steps, forecastOf)
  {
    var predictions: seq<(string, seq<real>)> := [];
    var i := 0;
    while i < |params|
      invariant 0 <= i <= |params|
      invariant PredictionsOf(params[..i], pivot, steps, forecastOf) == Success(predictions)
    {
      var (sector, c) := params[i];
      assert params[..i + 1][..i] == params[..i];
      if sector !in pivot {
        FailureStays(params, pivot, steps, forecastOf, i + 1);
        return Failure(MissingSector(sector));
      }
      var forecast := forecastOf(pivot[sector], c, steps);
      if forecast.None? {
        FailureStays(params, pivot, steps, forecastOf, i + 1);
        return Failure(ForecastFailed(sector));
      }
      predictions := predictions + [(sector, forecast.value)];
      i := i + 1;
    }
    assert params[..i] == params;
    return Success(predictions);
  }

  /** Once a prefix of the fine-tuning fails, the whole of it fails the same way. */
  lemma {:induction false} FailureStays(params: seq<(string, Candidate)>, pivot: map<string, seq<real>>, steps: nat,
                                        forecastOf: (seq<real>, Candidate, nat) -> Option<seq<real>>, n: int)
    requires 0 <= n <= |params| && PredictionsOf(params[..n], pivot, steps, forecastOf).Failure?
    ensures PredictionsOf(params, pivot, steps, forecastOf) == PredictionsOf(params[..n], pivot, steps, forecastOf)
    decreases |params| - n
  {
    if n < |params| {
      assert params[..n + 1][..n] == params[..n];
      FailureStays(params, pivot, steps, forecastOf, n + 1);
    } else {
      assert params[..n] == params;
    }
  }

  /**
   * `main_annual()`: load, pivot, the discarded rmse pass, the fine-tuned
   * forecasts, then `insert_predictions_to_db(fine_tuned_predictions, {})`.
   * The table is untouched when the script stops early. The allow-list, the
   * fixed parameters and the horizon are those of the script.
   */
  method MainAnnual(table: Table<HwAnnualRow>, data: seq<AnnualRecord>,
                    fitScore: (seq<real>, seq<real>, Candidate) -> Option<real>,
                    forecastOf: (seq<real>, Candidate, nat) -> Option<seq<real>>)
    returns (r: Result<seq<(string, seq<real>)>, AnnualFailure>)
    modifies table
    ensures r == MainAnnualPlan(data, RelevantSectors, BestParams, |PredictionYears|, fitScore, forecastOf)
    ensures r.Failure? ==> table.rows == old(table.rows)
    ensures r.Success? ==> table.rows == StoredRows(AllowListed(data, RelevantSectors), r.value, PredictionYears, map[])
  {
    if data == [] {
      return Failure(NoData);
    }
    var df := AllowListed(data, RelevantSectors);
    var pivot := PivotRows(data, RelevantSectors);
    var sectors := Unique(SectorNames(df));
    SectorsOfPivot(data, RelevantSectors);
    var raised := HoldoutPass(pivot, sectors, fitScore);
    if raised {
      return Failure(HoldoutFitFailed);
    }
    r := FineTune(pivot, BestParams, |PredictionYears|, forecastOf);
    if r.Success? {
      InsertPredictionsToDb(table, df, r.value, PredictionYears, map[]);
    }
  }

  /** The pivot's index holds the distinct sectors of the loaded rows. */
  lemma SectorsOfPivot(data: seq<AnnualRecord>, allow: set<string>)
    ensures forall s :: s in PivotRows(data, allow) <==> s in Unique(SectorNames(AllowListed(data, allow)))
  {
    var df := AllowListed(data, allow);
    forall s | s in SectorSet(df) ensures s in SectorNames(df) {
      var i :| 0 <= i < |df| && df[i].sector == s;
      assert SectorNames(df)[i] == s;
    }
  }
}
