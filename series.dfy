/**
 * Series preparation: the sector allow-list, the sum over each
 * (sector, year), the zero-filled pivot, the column window a series is read
 * from, the 80/20 train/holdout split, the conditional first difference,
 * the chronological sort of quarterly rows and `unique()` over sectors.
 */
module Series {

  import opened Wrappers
  import opened Upload
  import opened QuarterCodec
  import opened Text

  // ---------------------------------------------------------------- sectors

  /** `df[df['sector'].isin(allow)]`: the rows of allow-listed sectors, in order. */
  function AllowListed(rows: seq<AnnualRecord>, allow: set<string>): (r: seq<AnnualRecord>)
    ensures |r| <= |rows|
    ensures forall x :: x in r <==> x in rows && x.sector in allow
  {
    if rows == [] then []
    else AllowListed(rows[..|rows| - 1], allow) +
         (if rows[|rows| - 1].sector in allow then [rows[|rows| - 1]] else [])
  }

  /** The kept rows of a concatenation are the kept rows of each part, in order, duplicates included. */
  lemma {:induction false} AllowListedConcat(a: seq<AnnualRecord>, b: seq<AnnualRecord>, allow: set<string>)
    ensures AllowListed(a + b, allow) == AllowListed(a, allow) + AllowListed(b, allow)
    decreases |b|
  {
    if b == [] {
      assert a + b == a;
    } else {
      var n := |b| - 1;
      var last := if b[n].sector in allow then [b[n]] else [];
      assert (a + b)[..|a + b| - 1] == a + b[..n];
      assert (a + b)[|a + b| - 1] == b[n];
      assert AllowListed(a + b, allow) == AllowListed(a + b[..n], allow) + last;
      assert AllowListed(b, allow) == AllowListed(b[..n], allow) + last;
      AllowListedConcat(a, b[..n], allow);
    }
  }

  /** One row is kept exactly when it passes the filter. */
  lemma AllowListedOne(x: AnnualRecord, allow: set<string>)
    ensures AllowListed([x], allow) == if x.sector in allow then [x] else []
  {
    assert [x][..0] == [];
  }

  /** `unique()`: each value once, in order of first appearance. */
  function Unique(xs: seq<string>): (r: seq<string>)
    ensures forall x :: x in r <==> x in xs
    ensures forall i, j :: 0 <= i < j < |r| ==> r[i] != r[j]
  {
    if xs == [] then []
    else
      var init := Unique(xs[..|xs| - 1]);
      if xs[|xs| - 1] in init then init else init + [xs[|xs| - 1]]
  }

  /** Each name comes strictly before the next one in Python's string order. */
  predicate SortedNames(xs: seq<string>) {
    forall i :: 0 <= i < |xs| - 1 ==> StringLess(xs[i], xs[i + 1])
  }

  /** `x` placed before the first name of the sorted `xs` that it is less than. */
  function InsertName(x: string, xs: seq<string>): (r: seq<string>)
    ensures multiset(r) == multiset(xs) + multiset{x}
    ensures r[0] == x || (xs != [] && r[0] == xs[0])
  {
    if xs == [] then [x]
    else if StringLess(x, xs[0]) then [x] + xs
    else
      assert xs == [xs[0]] + xs[1..];
      [xs[0]] + InsertName(x, xs[1..])
  }

  /** The index order of `pivot(index='sector')`: the sector names, sorted. */
  function SortNames(xs: seq<string>): (r: seq<string>)
    ensures multiset(r) == multiset(xs)
  {
    if xs == [] then []
    else
      assert xs == xs[..|xs| - 1] + [xs[|xs| - 1]];
      InsertName(xs[|xs| - 1], SortNames(xs[..|xs| - 1]))
  }

  lemma {:induction false} InsertNameSorted(x: string, xs: seq<string>)
    requires SortedNames(xs) && x !in xs
    ensures SortedNames(InsertName(x, xs))
  {
    if xs != [] && !StringLess(x, xs[0]) {
      StringLessTotal(x, xs[0]);
      assert SortedNames(xs[1..]) by {
        forall i | 0 <= i < |xs[1..]| - 1 ensures StringLess(xs[1..][i], xs[1..][i + 1]) {
          assert xs[1..][i] == xs[i + 1] && xs[1..][i + 1] == xs[i + 2];
        }
      }
      InsertNameSorted(x, xs[1..]);
      var r := InsertName(x, xs[1..]);
      assert r[0] == x || StringLess(xs[0], r[0]);
      assert InsertName(x, xs) == [xs[0]] + r;
    }
  }

  /** Sorting names without repetitions leaves each name strictly before the next. */
  lemma {:induction false} SortNamesSorted(xs: seq<string>)
    requires forall i, j :: 0 <= i < j < |xs| ==> xs[i] != xs[j]
    ensures SortedNames(SortNames(xs))
  {
    if xs != [] {
      var n := |xs| - 1;
      var init := xs[..n];
      SortNamesSorted(init);
      assert xs[n] !in init by {
        forall i | 0 <= i < n ensures init[i] != xs[n] {
          assert init[i] == xs[i];
        }
      }
      assert xs[n] !in SortNames(init) by {
        assert xs[n] !in multiset(init);
        assert multiset(SortNames(init)) == multiset(init);
        assert xs[n] !in multiset(SortNames(init));
      }
      InsertNameSorted(xs[n], SortNames(init));
    }
  }

  /** In names sorted one after the next, every earlier name is less than every later one. */
  lemma {:induction false} SortedNamesOrdered(xs: seq<string>, i: int, j: int)
    requires SortedNames(xs) && 0 <= i < j < |xs|
    ensures StringLess(xs[i], xs[j])
    decreases j - i
  {
    if j > i + 1 {
      SortedNamesOrdered(xs, i + 1, j);
      StringLessTransitive(xs[i], xs[i + 1], xs[j]);
    }
  }

  /** The sorted names are the same names, each once, each before every later one. */
  lemma SortNamesShape(xs: seq<string>)
    requires forall i, j :: 0 <= i < j < |xs| ==> xs[i] != xs[j]
    ensures forall x :: x in SortNames(xs) <==> x in xs
    ensures |SortNames(xs)| == |xs|
    ensures forall i, j :: 0 <= i < j < |SortNames(xs)| ==> StringLess(SortNames(xs)[i], SortNames(xs)[j])
  {
    var r := SortNames(xs);
    assert forall x :: x in r <==> x in multiset(r);
    assert |r| == |multiset(r)|;
    SortNamesSorted(xs);
    forall i, j | 0 <= i < j < |r| ensures StringLess(r[i], r[j]) {
      SortedNamesOrdered(r, i, j);
    }
  }

  /** The position of the first occurrence of `x` in `xs`. */
  function FirstIndex<T(==)>(xs: seq<T>, x: T): (i: nat)
    requires x in xs
    ensures i < |xs| && xs[i] == x && x !in xs[..i]
  {
    if xs[0] == x then 0 else 1 + FirstIndex(xs[1..], x)
  }

  lemma FirstIndexOfPrefix<T>(xs: seq<T>, n: nat, x: T)
    requires n <= |xs| && x in xs[..n]
    ensures FirstIndex(xs, x) == FirstIndex(xs[..n], x)
  {
    var i := FirstIndex(xs[..n], x);
    assert xs[..n][..i] == xs[..i];
  }

  /** The values of `unique()` come in the order of their first appearance. */
  lemma {:induction false} UniqueKeepsFirstAppearanceOrder(xs: seq<string>)
    ensures forall i, j :: 0 <= i < j < |Unique(xs)| ==>
              FirstIndex(xs, Unique(xs)[i]) < FirstIndex(xs, Unique(xs)[j])
  {
    if xs != [] {
      var n := |xs| - 1;
      var init := xs[..n];
      UniqueKeepsFirstAppearanceOrder(init);
      var u := Unique(init);
      forall i, j | 0 <= i < j < |Unique(xs)|
        ensures FirstIndex(xs, Unique(xs)[i]) < FirstIndex(xs, Unique(xs)[j])
      {
        assert u[i] in init;
        FirstIndexOfPrefix(xs, n, u[i]);
        if j < |u| {
          assert u[j] in init;
          FirstIndexOfPrefix(xs, n, u[j]);
        } else {
          assert Unique(xs)[j] == xs[n] && xs[n] !in init;
          assert FirstIndex(xs, xs[n]) == n;
        }
      }
    }
  }

  // ---------------------------------------------------------- sum and pivot

  /** The reference sum: the gdp of every row with this sector and year. */
  function SumGdp(rows: seq<AnnualRecord>, sector: string, year: int): real {
    if rows == [] then 0.0
    else SumGdp(rows[..|rows| - 1], sector, year) +
         (var x := rows[|rows| - 1]; if x.sector == sector && x.year == year then x.gdp else 0.0)
  }

  /** The (sector, year) pairs that occur in the rows. */
  function KeysOf(rows: seq<AnnualRecord>): set<(string, int)> {
    set i | 0 <= i < |rows| :: (rows[i].sector, rows[i].year)
  }

  /** `groupby(['sector', 'year']).sum()`, accumulated row by row. */
  function GroupSum(rows: seq<AnnualRecord>): (g: map<(string, int), real>)
    ensures g.Keys == KeysOf(rows)
    ensures forall k :: k in g ==> g[k] == SumGdp(rows, k.0, k.1)
  {
    if rows == [] then map[]
    else
      var init := rows[..|rows| - 1];
      var x := rows[|rows| - 1];
      var g0 := GroupSum(init);
      var key := (x.sector, x.year);
      assert KeysOf(rows) == KeysOf(init) + {key} by {
        forall k | k in KeysOf(rows) ensures k in KeysOf(init) + {key} {
          var i :| 0 <= i < |rows| && k == (rows[i].sector, rows[i].year);
          if i < |init| { assert init[i] == rows[i]; }
        }
        forall k | k in KeysOf(init) ensures k in KeysOf(rows) {
          var i :| 0 <= i < |init| && k == (init[i].sector, init[i].year);
          assert rows[i] == init[i];
        }
      }
      assert forall k :: k !in KeysOf(init) ==> SumGdp(init, k.0, k.1) == 0.0 by {
        forall k | k !in KeysOf(init) ensures SumGdp(init, k.0, k.1) == 0.0 {
          SumOfAbsentKey(init, k.0, k.1);
        }
      }
      g0[key := (if key in g0 then g0[key] else 0.0) + x.gdp]
  }

  /** A pair with no row sums to 0. */
  lemma {:induction false} SumOfAbsentKey(rows: seq<AnnualRecord>, sector: string, year: int)
    requires (sector, year) !in KeysOf(rows)
    ensures SumGdp(rows, sector, year) == 0.0
  {
    if rows != [] {
      var init := rows[..|rows| - 1];
      assert KeysOf(init) <= KeysOf(rows) by {
        forall k | k in KeysOf(init) ensures k in KeysOf(rows) {
          var i :| 0 <= i < |init| && k == (init[i].sector, init[i].year);
          assert rows[i] == init[i];
        }
      }
      assert (rows[|rows| - 1].sector, rows[|rows| - 1].year) in KeysOf(rows);
      SumOfAbsentKey(init, sector, year);
    }
  }

  /** Keeps only the entries of allow-listed sectors. */
  function RestrictSectors(g: map<(string, int), real>, allow: set<string>): map<(string, int), real> {
    map k | k in g && k.0 in allow :: g[k]
  }

  /** The sectors and the years that occur among the keys. */
  function SectorsOf(g: map<(string, int), real>): set<string> {
    set k | k in g :: k.0
  }

  function YearsOf(g: map<(string, int), real>): set<int> {
    set k | k in g :: k.1
  }

  /**
   * `pivot(index='sector', columns='year')` then `fillna(0)`: one cell for
   * every sector and every year that occur, holding the grouped value or 0.
   */
  function PivotFill(g: map<(string, int), real>): (p: map<(string, int), real>)
    ensures forall s, y :: (s, y) in p <==> s in SectorsOf(g) && y in YearsOf(g)
    ensures forall k :: k in p ==> p[k] == if k in g then g[k] else 0.0
  {
    var cells := set s, y | s in SectorsOf(g) && y in YearsOf(g) :: (s, y);
    map k | k in cells :: if k in g then g[k] else 0.0
  }

  /** The Holt-Winters annual pivot: filter the rows, `pivot_table(aggfunc='sum')`, `fillna(0)`, filter the index again. */
  function AnnualPivotHw(rows: seq<AnnualRecord>, allow: set<string>): map<(string, int), real> {
    RestrictSectors(PivotFill(GroupSum(AllowListed(rows, allow))), allow)
  }

  /** The ARIMA annual pivot: `groupby().sum()`, filter, `pivot`, `fillna(0)`. */
  function AnnualPivotArima(rows: seq<AnnualRecord>, allow: set<string>): map<(string, int), real> {
    PivotFill(RestrictSectors(GroupSum(rows), allow))
  }

  lemma {:induction false} SumOfAllowListed(rows: seq<AnnualRecord>, allow: set<string>, sector: string, year: int)
    requires sector in allow
    ensures SumGdp(AllowListed(rows, allow), sector, year) == SumGdp(rows, sector, year)
  {
    if rows != [] {
      SumOfAllowListed(rows[..|rows| - 1], allow, sector, year);
      var x := rows[|rows| - 1];
      var init := AllowListed(rows[..|rows| - 1], allow);
      if x.sector in allow {
        assert AllowListed(rows, allow) == init + [x];
        assert (init + [x])[..|init|] == init;
      } else {
        assert AllowListed(rows, allow) == init;
      }
    }
  }

  lemma KeysOfAllowListed(rows: seq<AnnualRecord>, allow: set<string>, k: (string, int))
    ensures k in KeysOf(AllowListed(rows, allow)) <==> k in KeysOf(rows) && k.0 in allow
  {
    var f := AllowListed(rows, allow);
    if k in KeysOf(f) {
      var i :| 0 <= i < |f| && k == (f[i].sector, f[i].year);
      assert f[i] in rows;
      var j :| 0 <= j < |rows| && rows[j] == f[i];
    }
    if k in KeysOf(rows) && k.0 in allow {
      var j :| 0 <= j < |rows| && k == (rows[j].sector, rows[j].year);
      assert rows[j] in f;
      var i :| 0 <= i < |f| && f[i] == rows[j];
    }
  }

  /** Summing and then filtering by sector is the same as filtering and then summing. */
  lemma GroupThenFilter(rows: seq<AnnualRecord>, allow: set<string>)
    ensures RestrictSectors(GroupSum(rows), allow) == GroupSum(AllowListed(rows, allow))
  {
    var a := RestrictSectors(GroupSum(rows), allow);
    var b := GroupSum(AllowListed(rows, allow));
    forall k ensures k in a <==> k in b {
      KeysOfAllowListed(rows, allow, k);
    }
    forall k | k in a ensures a[k] == b[k] {
      SumOfAllowListed(rows, allow, k.0, k.1);
    }
  }

  /**
   * The two scripts' pivots agree, and a cell exists exactly for an
   * allow-listed sector and a year that occur among the allow-listed rows;
   * it holds the sum of that pair's gdp, which is 0 where the pair has no row.
   */
  lemma PivotCells(rows: seq<AnnualRecord>, allow: set<string>)
    ensures AnnualPivotHw(rows, allow) == AnnualPivotArima(rows, allow)
    ensures forall s, y :: (s, y) in AnnualPivotArima(rows, allow) ==>
              s in allow && AnnualPivotArima(rows, allow)[(s, y)] == SumGdp(rows, s, y)
    ensures forall s, y :: (s, y) in AnnualPivotArima(rows, allow) && (s, y) !in KeysOf(rows) ==>
              AnnualPivotArima(rows, allow)[(s, y)] == 0.0
  {
    PivotsAgree(rows, allow);
    PivotSums(rows, allow);
    var p := AnnualPivotArima(rows, allow);
    forall s, y | (s, y) in p && (s, y) !in KeysOf(rows) ensures p[(s, y)] == 0.0 {
      SumOfAbsentKey(rows, s, y);
    }
  }

  /** Every key of the allow-listed grouping is of an allow-listed sector. */
  lemma GroupKeysAllowed(rows: seq<AnnualRecord>, allow: set<string>)
    ensures forall k :: k in GroupSum(AllowListed(rows, allow)) ==> k.0 in allow
  {
    forall k | k in GroupSum(AllowListed(rows, allow)) ensures k.0 in allow {
      KeysOfAllowListed(rows, allow, k);
    }
  }

  lemma PivotsAgree(rows: seq<AnnualRecord>, allow: set<string>)
    ensures AnnualPivotHw(rows, allow) == AnnualPivotArima(rows, allow)
  {
    GroupThenFilter(rows, allow);
    GroupKeysAllowed(rows, allow);
    var g := GroupSum(AllowListed(rows, allow));
    var p := PivotFill(g);
    PivotFillSectors(g, allow);
    RestrictAllowed(p, allow);
    assert AnnualPivotArima(rows, allow) == p;
  }

  lemma PivotFillSectors(g: map<(string, int), real>, allow: set<string>)
    requires forall k :: k in g ==> k.0 in allow
    ensures forall k :: k in PivotFill(g) ==> k.0 in allow
  {
    forall k | k in PivotFill(g) ensures k.0 in allow {
      assert (k.0, k.1) in PivotFill(g);
      var k' :| k' in g && k'.0 == k.0;
    }
  }

  /** Restricting to the sectors every key already has changes nothing. */
  lemma RestrictAllowed(p: map<(string, int), real>, allow: set<string>)
    requires forall k :: k in p ==> k.0 in allow
    ensures RestrictSectors(p, allow) == p
  {
  }

  lemma PivotSums(rows: seq<AnnualRecord>, allow: set<string>)
    ensures forall s, y :: (s, y) in AnnualPivotArima(rows, allow) ==>
              s in allow && AnnualPivotArima(rows, allow)[(s, y)] == SumGdp(rows, s, y)
  {
    GroupThenFilter(rows, allow);
    GroupKeysAllowed(rows, allow);
    var g := GroupSum(AllowListed(rows, allow));
    var p := PivotFill(g);
    assert AnnualPivotArima(rows, allow) == p;
    forall s, y | (s, y) in p
      ensures s in allow && p[(s, y)] == SumGdp(rows, s, y)
    {
      var k :| k in g && k.0 == s;
      SumOfAllowListed(rows, allow, s, y);
      if (s, y) !in g {
        KeysOfAllowListed(rows, allow, (s, y));
        SumOfAbsentKey(rows, s, y);
      }
    }
  }

  /** The sectors and the years among a set of rows. */
  function SectorSet(rows: seq<AnnualRecord>): set<string> {
    set i | 0 <= i < |rows| :: rows[i].sector
  }

  /** The sector column. */
  function SectorNames(df: seq<AnnualRecord>): (r: seq<string>)
    ensures |r| == |df| && forall i :: 0 <= i < |df| ==> r[i] == df[i].sector
  {
    seq(|df|, i requires 0 <= i < |df| => df[i].sector)
  }

  function YearSet(rows: seq<AnnualRecord>): set<int> {
    set i | 0 <= i < |rows| :: rows[i].year
  }

  /**
   * The Holt-Winters pivot has a cell for exactly the allow-listed sectors
   * and the years that occur among the allow-listed rows.
   */
  lemma PivotDomain(rows: seq<AnnualRecord>, allow: set<string>, s: string, y: int)
    ensures (s, y) in AnnualPivotHw(rows, allow) <==>
              s in SectorSet(AllowListed(rows, allow)) && y in YearSet(AllowListed(rows, allow))
  {
    var f := AllowListed(rows, allow);
    var g := GroupSum(f);
    if s in SectorSet(f) {
      var i :| 0 <= i < |f| && f[i].sector == s;
      assert (f[i].sector, f[i].year) in KeysOf(f);
      assert f[i] in rows;
    }
    if y in YearSet(f) {
      var i :| 0 <= i < |f| && f[i].year == y;
      assert (f[i].sector, f[i].year) in KeysOf(f);
    }
    if s in SectorsOf(g) {
      var k :| k in g && k.0 == s;
      var i :| 0 <= i < |f| && k == (f[i].sector, f[i].year);
    }
    if y in YearsOf(g) {
      var k :| k in g && k.1 == y;
      var i :| 0 <= i < |f| && k == (f[i].sector, f[i].year);
    }
  }

  // ------------------------------------------------------------- the series

  /** The years `lo..hi` that are columns, ascending: what `loc[..., lo:hi]` selects. */
  function YearWindow(years: set<int>, lo: int, hi: int): (w: seq<int>)
    ensures forall i :: 0 <= i < |w| ==> w[i] in years && lo <= w[i] <= hi
    ensures forall y :: y in years && lo <= y <= hi ==> y in w
    ensures forall i, j :: 0 <= i < j < |w| ==> w[i] < w[j]
    decreases hi - lo
  {
    if lo > hi then []
    else (if lo in years then [lo] else []) + YearWindow(years, lo + 1, hi)
  }

  /** With every year of `lo..hi` a column, the window is all of `lo..hi` (9 years for 2015..2023). */
  lemma {:induction false} FullYearWindow(years: set<int>, lo: int, hi: int)
    requires lo <= hi + 1
    requires forall y :: lo <= y <= hi ==> y in years
    ensures YearWindow(years, lo, hi) == Range(lo, hi + 1)
    ensures |YearWindow(years, lo, hi)| == hi - lo + 1
    decreases hi - lo
  {
    if lo <= hi {
      FullYearWindow(years, lo + 1, hi);
      assert YearWindow(years, lo, hi) == [lo] + YearWindow(years, lo + 1, hi);
      assert Range(lo, hi + 1) == [lo] + Range(lo + 1, hi + 1);
    }
  }

  /** `list(range(lo, hi))`, also `np.arange(lo, hi)`. */
  function Range(lo: int, hi: int): (r: seq<int>)
    ensures |r| == if lo <= hi then hi - lo else 0
    ensures forall k :: 0 <= k < |r| ==> r[k] == lo + k
    decreases hi - lo
  {
    if lo >= hi then [] else [lo] + Range(lo + 1, hi)
  }

  /** A sector's row of the pivot over the given columns. */
  function SectorRow(p: map<(string, int), real>, sector: string, columns: seq<int>): (ts: seq<real>)
    requires forall i :: 0 <= i < |columns| ==> (sector, columns[i]) in p
    ensures |ts| == |columns|
    ensures forall i :: 0 <= i < |ts| ==> ts[i] == p[(sector, columns[i])]
  {
    seq(|columns|, i requires 0 <= i < |columns| => p[(sector, columns[i])])
  }

  /** `int(len(ts) * 0.8)`: the largest k with 5k <= 4n. */
  function TrainSize(n: nat): (k: nat)
    ensures k <= n
    ensures 5 * k <= 4 * n < 5 * k + 5
  {
    (4 * n) / 5
  }

  /** `ts[:train_size], ts[train_size:]`. */
  function TrainTestSplit(ts: seq<real>): (r: (seq<real>, seq<real>))
    ensures r.0 + r.1 == ts
    ensures |r.0| == TrainSize(|ts|) && |r.1| == |ts| - TrainSize(|ts|)
  {
    (ts[..TrainSize(|ts|)], ts[TrainSize(|ts|)..])
  }

  /** `np.diff`: the differences of neighbouring values. */
  function FirstDifference(s: seq<real>): seq<real> {
    if |s| == 0 then [] else seq(|s| - 1, i requires 0 <= i < |s| - 1 => s[i + 1] - s[i])
  }

  /** The sum of the first `k` values. */
  function PrefixSum(d: seq<real>, k: nat): real
    requires k <= |d|
  {
    if k == 0 then 0.0 else PrefixSum(d, k - 1) + d[k - 1]
  }

  /** The first difference loses nothing but the first value: summing it back rebuilds the series. */
  lemma {:induction false} FirstDifferenceInverse(s: seq<real>, k: nat)
    requires k < |s|
    ensures |FirstDifference(s)| == |s| - 1
    ensures s[k] == s[0] + PrefixSum(FirstDifference(s), k)
  {
    if k > 0 {
      FirstDifferenceInverse(s, k - 1);
    }
  }

  /** The threshold above which the ADF p-value marks a series non-stationary. */
  const StationarityThreshold: real := 0.05

  /**
   * `make_stationary`, the ADF p-value supplied: above 0.05 the series is
   * replaced by its first difference (one value shorter), otherwise it is
   * returned unchanged.
   */
  function MakeStationary(s: seq<real>, pValue: real): (r: seq<real>)
    ensures pValue > StationarityThreshold && |s| > 0 ==>
              |r| == |s| - 1 && forall i :: 0 <= i < |r| ==> r[i] == s[i + 1] - s[i]
    ensures pValue > StationarityThreshold && |s| == 0 ==> r == []
    ensures pValue <= StationarityThreshold ==> r == s
  {
    if pValue > StationarityThreshold then FirstDifference(s) else s
  }

  // ------------------------------------------------------ quarterly ordering

  /** The quarter `pd.to_datetime` reads from the parsed period: the leading digit of the quarter. */
  function ParsedQuarter(r: QuarterlyRecord): int {
    if r.quarter >= 0 then LeadingDigit(r.quarter) else -1
  }

  /** The period text of a row parses to a date exactly when its parsed quarter is 1 to 4. */
  predicate HasDate(r: QuarterlyRecord) {
    1 <= ParsedQuarter(r) <= 4
  }

  /** The chronological index of a row's date: four per year. */
  function PeriodIndex(r: QuarterlyRecord): int {
    r.year * 4 + ParsedQuarter(r) - 1
  }

  predicate SortedByPeriod(rows: seq<QuarterlyRecord>) {
    forall i, j :: 0 <= i < j < |rows| ==> PeriodIndex(rows[i]) <= PeriodIndex(rows[j])
  }

  /** Appending a row no earlier than every row keeps the order. */
  lemma AppendKeepsSorted(rows: seq<QuarterlyRecord>, x: QuarterlyRecord)
    requires SortedByPeriod(rows)
    requires forall e :: e in rows ==> PeriodIndex(e) <= PeriodIndex(x)
    ensures SortedByPeriod(rows + [x])
  {
    forall i, j | 0 <= i < j < |rows| + 1
      ensures PeriodIndex((rows + [x])[i]) <= PeriodIndex((rows + [x])[j])
    {
      assert (rows + [x])[i] == rows[i];
      if j == |rows| {
        assert rows[i] in rows;
      } else {
        assert (rows + [x])[j] == rows[j];
      }
    }
  }

  /** A row placed after every row of the same or an earlier period. */
  function InsertByPeriod(sorted: seq<QuarterlyRecord>, x: QuarterlyRecord): (r: seq<QuarterlyRecord>)
    requires SortedByPeriod(sorted)
    ensures SortedByPeriod(r)
    ensures multiset(r) == multiset(sorted) + multiset{x}
    ensures |r| == |sorted| + 1
  {
    if sorted == [] then [x]
    else
      var last := sorted[|sorted| - 1];
      if PeriodIndex(last) <= PeriodIndex(x) then
        SortedBelowLast(sorted, PeriodIndex(x));
        AppendKeepsSorted(sorted, x);
        sorted + [x]
      else
        var init := sorted[..|sorted| - 1];
        SortedBelowLast(sorted, PeriodIndex(last));
        SortedPrefix(sorted);
        var r0 := InsertByPeriod(init, x);
        PermutationBelow(r0, init, x, PeriodIndex(last));
        AppendKeepsSorted(r0, last);
        assert sorted == init + [last];
        r0 + [last]
  }

  /** In a sorted sequence every row is no later than the last, hence no later than any bound the last respects. */
  lemma SortedBelowLast(sorted: seq<QuarterlyRecord>, bound: int)
    requires SortedByPeriod(sorted) && sorted != [] && PeriodIndex(sorted[|sorted| - 1]) <= bound
    ensures forall e :: e in sorted ==> PeriodIndex(e) <= bound
    ensures forall e :: e in sorted[..|sorted| - 1] ==> PeriodIndex(e) <= bound
  {
    forall e | e in sorted ensures PeriodIndex(e) <= bound {
      var k :| 0 <= k < |sorted| && sorted[k] == e;
    }
    assert forall e :: e in sorted[..|sorted| - 1] ==> e in sorted;
  }

  lemma SortedPrefix(sorted: seq<QuarterlyRecord>)
    requires SortedByPeriod(sorted) && sorted != []
    ensures SortedByPeriod(sorted[..|sorted| - 1])
  {
  }

  /** A reordering of rows no later than a bound, plus one more such row, stays below the bound. */
  lemma PermutationBelow(r: seq<QuarterlyRecord>, rows: seq<QuarterlyRecord>, x: QuarterlyRecord, bound: int)
    requires multiset(r) == multiset(rows) + multiset{x}
    requires PeriodIndex(x) <= bound && forall e :: e in rows ==> PeriodIndex(e) <= bound
    ensures forall e :: e in r ==> PeriodIndex(e) <= bound
  {
    forall e | e in r ensures PeriodIndex(e) <= bound {
      assert e in multiset(r);
      if e != x {
        assert e in multiset(rows);
      }
    }
  }

  /** `sort_index()` over the parsed dates: ascending by period, a permutation of the rows. */
  function SortByPeriod(rows: seq<QuarterlyRecord>): (r: seq<QuarterlyRecord>)
    ensures SortedByPeriod(r)
    ensures multiset(r) == multiset(rows)
  {
    if rows == [] then []
    else
      assert rows == rows[..|rows| - 1] + [rows[|rows| - 1]];
      InsertByPeriod(SortByPeriod(rows[..|rows| - 1]), rows[|rows| - 1])
  }

  /**
   * Parse every row's period and sort: if one row's period text does not
   * give a date, `pd.to_datetime` raises and nothing is returned.
   */
  function PrepareQuarterly(rows: seq<QuarterlyRecord>): (r: Option<seq<QuarterlyRecord>>)
    ensures r.Some? <==> forall i :: 0 <= i < |rows| ==> HasDate(rows[i])
    ensures r.Some? ==> SortedByPeriod(r.value) && multiset(r.value) == multiset(rows)
  {
    if forall i :: 0 <= i < |rows| ==> HasDate(rows[i]) then Some(SortByPeriod(rows)) else None
  }

  /** A row with a quarter of 1..4, as every uploaded row has, sorts by (year, quarter). */
  lemma PeriodIndexOfUploadedRow(r: QuarterlyRecord)
    requires 1 <= r.quarter <= 4
    ensures HasDate(r) && PeriodIndex(r) == r.year * 4 + r.quarter - 1
  {
  }

  /** `data[data['sector'] == sector]['gdp']`: that sector's values, in row order. */
  function SectorValues(rows: seq<QuarterlyRecord>, sector: string): (r: seq<real>)
    ensures |r| <= |rows|
  {
    if rows == [] then []
    else SectorValues(rows[..|rows| - 1], sector) +
         (if rows[|rows| - 1].sector == sector then [rows[|rows| - 1].gdp] else [])
  }

  /** The values of a concatenation are the values of each part, in order. */
  lemma {:induction false} SectorValuesConcat(a: seq<QuarterlyRecord>, b: seq<QuarterlyRecord>, sector: string)
    ensures SectorValues(a + b, sector) == SectorValues(a, sector) + SectorValues(b, sector)
    decreases |b|
  {
    if b == [] {
      assert a + b == a;
    } else {
      var n := |b| - 1;
      var last := if b[n].sector == sector then [b[n].gdp] else [];
      assert (a + b)[..|a + b| - 1] == a + b[..n];
      assert (a + b)[|a + b| - 1] == b[n];
      assert SectorValues(a + b, sector) == SectorValues(a + b[..n], sector) + last;
      assert SectorValues(b, sector) == SectorValues(b[..n], sector) + last;
      SectorValuesConcat(a, b[..n], sector);
    }
  }

  /** One row contributes its gdp exactly when it belongs to the sector. */
  lemma SectorValuesOne(x: QuarterlyRecord, sector: string)
    ensures SectorValues([x], sector) == if x.sector == sector then [x.gdp] else []
  {
    assert [x][..0] == [];
  }

  /** The sector column of the rows. */
  function SectorsOfRows(rows: seq<QuarterlyRecord>): (r: seq<string>)
    ensures |r| == |rows| && forall i :: 0 <= i < |r| ==> r[i] == rows[i].sector
  {
    seq(|rows|, i requires 0 <= i < |rows| => rows[i].sector)
  }

  // ------------------------------------------------------ post-processing

  /** `clip(lower=0)`: negative values become 0, the others are kept. */
  function Clip(xs: seq<real>): (r: seq<real>)
    ensures |r| == |xs|
    ensures forall k :: 0 <= k < |xs| ==> r[k] >= 0.0
    ensures forall k :: 0 <= k < |xs| ==> (xs[k] >= 0.0 ==> r[k] == xs[k]) && (xs[k] < 0.0 ==> r[k] == 0.0)
  {
    seq(|xs|, k requires 0 <= k < |xs| => if xs[k] < 0.0 then 0.0 else xs[k])
  }

  /** Clipping is idempotent, and a series with no negative value is left as it is. */
  lemma ClipIdempotent(xs: seq<real>)
    ensures Clip(Clip(xs)) == Clip(xs)
    ensures (forall k :: 0 <= k < |xs| ==> xs[k] >= 0.0) ==> Clip(xs) == xs
  {
  }
}
