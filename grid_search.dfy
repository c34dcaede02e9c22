/**
 * The Holt-Winters annual grid search: every (trend, seasonal, period)
 * triple in `itertools.product` order, the all-`None` pair skipped, a
 * candidate whose fit raises skipped, and the first strictly lowest score
 * kept. Fitting and scoring a candidate is a parameter: it gives the rmse
 * on the holdout, or None when the library raises.
 */
module GridSearch {

  import opened Wrappers

  /** A trend or seasonal component: 'add', 'mul' or None. */
  datatype Component = Add | Mul | NoComponent

  datatype Candidate = Candidate(trend: Component, seasonal: Component, period: int)

  const ComponentOptions: seq<Component> := [Add, Mul, NoComponent]
  const PeriodOptions: seq<int> := [3, 4, 5, 6]

  /** The candidates for one trend and one seasonal component, period innermost. */
  function PeriodRow(t: Component, s: Component, ps: seq<int>): (r: seq<Candidate>)
    ensures |r| == |ps|
    ensures forall k :: 0 <= k < |ps| ==> r[k] == Candidate(t, s, ps[k])
  {
    if ps == [] then [] else [Candidate(t, s, ps[0])] + PeriodRow(t, s, ps[1..])
  }

  function SeasonalBlock(t: Component, ss: seq<Component>, ps: seq<int>): (r: seq<Candidate>)
    ensures |r| == |ss| * |ps|
  {
    if ss == [] then [] else PeriodRow(t, ss[0], ps) + SeasonalBlock(t, ss[1..], ps)
  }

  /** `product(ts, ss, ps)`: trend outermost, then seasonal, then period. */
  function Product(ts: seq<Component>, ss: seq<Component>, ps: seq<int>): (r: seq<Candidate>)
    ensures |r| == |ts| * (|ss| * |ps|)
  {
    if ts == [] then [] else SeasonalBlock(ts[0], ss, ps) + Product(ts[1..], ss, ps)
  }

  /** The enumeration the search walks. */
  function Candidates(): seq<Candidate> {
    Product(ComponentOptions, ComponentOptions, PeriodOptions)
  }

  lemma {:induction false} SeasonalBlockAt(t: Component, ss: seq<Component>, ps: seq<int>, b: nat, c: nat)
    requires |ps| == 4 && b < |ss| && c < 4
    ensures 4 * b + c < |SeasonalBlock(t, ss, ps)|
    ensures SeasonalBlock(t, ss, ps)[4 * b + c] == Candidate(t, ss[b], ps[c])
  {
    if b == 0 {
      assert SeasonalBlock(t, ss, ps)[c] == PeriodRow(t, ss[0], ps)[c];
    } else {
      SeasonalBlockAt(t, ss[1..], ps, b - 1, c);
      assert SeasonalBlock(t, ss, ps)[4 * b + c] == SeasonalBlock(t, ss[1..], ps)[4 * (b - 1) + c];
    }
  }

  /**
   * With three components and four periods, the candidate at position
   * `12a + 4b + c` is the triple of the a-th trend, b-th seasonal and c-th
   * period: the order of `itertools.product`.
   */
  lemma {:induction false} ProductAt(ts: seq<Component>, ss: seq<Component>, ps: seq<int>, a: nat, b: nat, c: nat)
    requires |ss| == 3 && |ps| == 4
    requires a < |ts| && b < 3 && c < 4
    ensures 12 * a + 4 * b + c < |Product(ts, ss, ps)|
    ensures Product(ts, ss, ps)[12 * a + 4 * b + c] == Candidate(ts[a], ss[b], ps[c])
  {
    SeasonalBlockAt(ts[0], ss, ps, b, c);
    var head := SeasonalBlock(ts[0], ss, ps);
    var rest := Product(ts[1..], ss, ps);
    assert |head| == |ss| * |ps| == 12;
    assert Product(ts, ss, ps) == head + rest;
    assert |Product(ts, ss, ps)| == 12 + |rest|;
    if a == 0 {
      assert (head + rest)[4 * b + c] == head[4 * b + c];
    } else {
      ProductAt(ts[1..], ss, ps, a - 1, b, c);
      var i := 12 * (a - 1) + 4 * b + c;
      assert 12 * a + 4 * b + c == 12 + i;
      assert (head + rest)[12 + i] == rest[i];
    }
  }

  /** The enumeration has 36 triples; the one at 12a + 4b + c has the a-th trend, b-th seasonal and c-th period. */
  lemma CandidateOrder(a: nat, b: nat, c: nat)
    requires a < 3 && b < 3 && c < 4
    ensures |Candidates()| == 36
    ensures Candidates()[12 * a + 4 * b + c] ==
              Candidate(ComponentOptions[a], ComponentOptions[b], PeriodOptions[c])
  {
    ProductAt(ComponentOptions, ComponentOptions, PeriodOptions, a, b, c);
  }

  /** `if seasonal is None and trend is None: continue`. */
  predicate Tried(c: Candidate) {
    !(c.trend == NoComponent && c.seasonal == NoComponent)
  }

  /** The candidates in order that are tried. */
  function TriedOf(cs: seq<Candidate>): (r: seq<Candidate>)
    ensures forall c :: c in r <==> c in cs && Tried(c)
  {
    if cs == [] then [] else (if Tried(cs[0]) then [cs[0]] else []) + TriedOf(cs[1..])
  }

  lemma TriedOfConcat(a: seq<Candidate>, b: seq<Candidate>)
    ensures TriedOf(a + b) == TriedOf(a) + TriedOf(b)
  {
    if a != [] {
      assert (a + b)[0] == a[0];
      assert (a + b)[1..] == a[1..] + b;
      TriedOfConcat(a[1..], b);
    } else {
      assert a + b == b;
    }
  }

  lemma {:induction false} TriedRow(t: Component, s: Component, ps: seq<int>)
    ensures TriedOf(PeriodRow(t, s, ps)) == if t == NoComponent && s == NoComponent then [] else PeriodRow(t, s, ps)
  {
    if ps != [] {
      TriedRow(t, s, ps[1..]);
      TriedOfConcat([Candidate(t, s, ps[0])], PeriodRow(t, s, ps[1..]));
    }
  }

  lemma BlockTried(t: Component)
    ensures |TriedOf(SeasonalBlock(t, ComponentOptions, PeriodOptions))| == if t == NoComponent then 8 else 12
  {
    var ps := PeriodOptions;
    var r0, r1, r2 := PeriodRow(t, Add, ps), PeriodRow(t, Mul, ps), PeriodRow(t, NoComponent, ps);
    assert SeasonalBlock(t, ComponentOptions, ps) == r0 + (r1 + r2);
    TriedOfConcat(r0, r1 + r2);
    TriedOfConcat(r1, r2);
    TriedRow(t, Add, ps);
    TriedRow(t, Mul, ps);
    TriedRow(t, NoComponent, ps);
  }

  /**
   * Of the 36 triples, the 4 with neither trend nor seasonal component
   * (the last four, by `CandidateOrder`) are skipped: 32 are tried.
   */
  lemma ThirtyTwoTried()
    ensures |TriedOf(Candidates())| == 32
  {
    var cs := ComponentOptions;
    var ps := PeriodOptions;
    var b0, b1, b2 := SeasonalBlock(Add, cs, ps), SeasonalBlock(Mul, cs, ps), SeasonalBlock(NoComponent, cs, ps);
    assert Candidates() == b0 + (b1 + b2);
    TriedOfConcat(b0, b1 + b2);
    TriedOfConcat(b1, b2);
    BlockTried(Add);
    BlockTried(Mul);
    BlockTried(NoComponent);
  }

  // ------------------------------------------------------------ selection

  /** `best_rmse`: `float('inf')` until a candidate succeeds. */
  datatype Score = Infinity | Finite(value: real)

  predicate Below(r: real, best: Score) {
    best.Infinity? || r < best.value
  }

  /**
   * The reference selection over a prefix of the enumeration, left to right:
   * a tried candidate whose score exists replaces the best on a strictly
   * lower score.
   */
  function Select(cs: seq<Candidate>, score: Candidate -> Option<real>): (Score, Option<Candidate>) {
    if cs == [] then (Infinity, None)
    else
      var prev := Select(cs[..|cs| - 1], score);
      var c := cs[|cs| - 1];
      if Tried(c) && score(c).Some? && Below(score(c).value, prev.0) then (Finite(score(c).value), Some(c))
      else prev
  }

  /** A candidate that counts: tried, and its fit and forecast did not raise. */
  predicate Scored(c: Candidate, score: Candidate -> Option<real>) {
    Tried(c) && score(c).Some?
  }

  /**
   * `grid_search(train, test)`. `fitScore(train, test, c)` is the rmse of
   * candidate `c` fitted on `train` and scored on `test`, or None when
   * fitting or forecasting raises.
   */
  method Search(train: seq<real>, test: seq<real>, fitScore: (seq<real>, seq<real>, Candidate) -> Option<real>)
    returns (bestRmse: Score, bestParams: Option<Candidate>)
    ensures (bestRmse, bestParams) == Select(Candidates(), c => fitScore(train, test, c))
  {
    bestRmse, bestParams := SearchOver(Candidates(), train, test, fitScore);
  }

  /** The search loop over a given enumeration. */
  method SearchOver(cs: seq<Candidate>, train: seq<real>, test: seq<real>, fitScore: (seq<real>, seq<real>, Candidate) -> Option<real>)
    returns (bestRmse: Score, bestParams: Option<Candidate>)
    ensures (bestRmse, bestParams) == Select(cs, c => fitScore(train, test, c))
  {
    ghost var score := c => fitScore(train, test, c);
    bestRmse, bestParams := Infinity, None;
    var i := 0;
    while i < |cs|
      invariant 0 <= i <= |cs|
      invariant (bestRmse, bestParams) == Select(cs[..i], score)
    {
      var c := cs[i];
      assert cs[..i + 1][..i] == cs[..i];
      if Tried(c) {
        var rmse := fitScore(train, test, c);
        if rmse.Some? && Below(rmse.value, bestRmse) {
          bestRmse, bestParams := Finite(rmse.value), Some(c);
        }
      }
      i := i + 1;
    }
    assert cs[..|cs|] == cs;
  }

  /** Position `k` holds a counting candidate that beats every earlier one strictly and no later one beats. */
  predicate FirstMinimumAt(cs: seq<Candidate>, score: Candidate -> Option<real>, k: int) {
    0 <= k < |cs| && Scored(cs[k], score) &&
    (forall j :: 0 <= j < k && Scored(cs[j], score) ==> score(cs[j]).value > score(cs[k]).value) &&
    (forall j :: k < j < |cs| && Scored(cs[j], score) ==> score(cs[j]).value >= score(cs[k]).value)
  }

  lemma KeepMinimum(cs: seq<Candidate>, score: Candidate -> Option<real>, k: int)
    requires cs != [] && FirstMinimumAt(cs[..|cs| - 1], score, k)
    requires Scored(cs[|cs| - 1], score) ==> score(cs[|cs| - 1]).value >= score(cs[k]).value
    ensures FirstMinimumAt(cs, score, k)
  {
    assert forall j :: 0 <= j < |cs| - 1 ==> cs[..|cs| - 1][j] == cs[j];
  }

  lemma NewMinimum(cs: seq<Candidate>, score: Candidate -> Option<real>)
    requires cs != [] && Scored(cs[|cs| - 1], score)
    requires forall j :: 0 <= j < |cs| - 1 && Scored(cs[j], score) ==> score(cs[j]).value > score(cs[|cs| - 1]).value
    ensures FirstMinimumAt(cs, score, |cs| - 1)
  {
  }

  /** The selection keeps nothing, and the score stays infinite, exactly when no candidate counts. */
  lemma {:induction false} SelectNone(cs: seq<Candidate>, score: Candidate -> Option<real>)
    ensures Select(cs, score).1.None? <==> forall j :: 0 <= j < |cs| ==> !Scored(cs[j], score)
    ensures Select(cs, score).1.None? <==> Select(cs, score).0 == Infinity
  {
    if cs != [] {
      var n := |cs| - 1;
      SelectNone(cs[..n], score);
      assert forall j :: 0 <= j < n ==> cs[j] == cs[..n][j];
    }
  }

  /**
   * When the selection keeps a candidate, it is one that counts, its score
   * is the minimum over all that count, and every one before it scored
   * strictly higher (ties go to the first).
   */
  lemma {:induction false} SelectIsFirstMinimum(cs: seq<Candidate>, score: Candidate -> Option<real>)
    ensures Select(cs, score).1.Some? ==>
              exists k :: FirstMinimumAt(cs, score, k) && Select(cs, score).1.value == cs[k] &&
                Select(cs, score).0 == Finite(score(cs[k]).value)
  {
    if cs != [] {
      var n := |cs| - 1;
      var init := cs[..n];
      SelectIsFirstMinimum(init, score);
      SelectNone(init, score);
      var prev := Select(init, score);
      var c := cs[n];
      if prev.1.None? {
        if Scored(c, score) {
          assert forall j :: 0 <= j < n ==> cs[j] == init[j];
          NewMinimum(cs, score);
        }
      } else {
        var k :| FirstMinimumAt(init, score, k) && prev.1.value == init[k] &&
                 prev.0 == Finite(score(init[k]).value);
        if Scored(c, score) && Below(score(c).value, prev.0) {
          assert forall j :: 0 <= j < n ==> cs[j] == init[j];
          NewMinimum(cs, score);
        } else {
          KeepMinimum(cs, score, k);
          assert cs[k] == init[k];
        }
      }
    }
  }
}
