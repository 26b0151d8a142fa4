/** The regression health score: five components, the available ones weighted and averaged. */
module Health {
  import opened Common
  import opened StoreModel
  import opened CrossSim
  import opened IndexingModel
  import opened Tables
  import IndexInvariants
  import Ids
  import TextOrder

  datatype Data = Data(
    totalTests: nat, passedTests: nat, overallCoverage: Option<real>,
    totalAssertions: nat, vacuousAssertions: nat, failingAssertions: nat,
    flakyTests: nat, historyCohorts: nat, divergentTests: nat, crossSimCohorts: nat)

  /** Rounding to a number of digits: never swaps two values, does nothing twice, and keeps the ends of the scale. */
  ghost predicate RoundingOk(round: real -> real) {
    && (forall x, y :: x <= y ==> round(x) <= round(y))
    && (forall x :: round(round(x)) == round(x))
    && round(0.0) == 0.0 && round(100.0) == 100.0
  }

  function AtLeastZero(x: real): real { if x < 0.0 then 0.0 else x }

  function Ratio(part: nat, whole: nat): real
    requires whole > 0
  {
    part as real / whole as real
  }

  function PassRate(d: Data, round: real -> real): real {
    if d.totalTests > 0 then round(Ratio(d.passedTests, d.totalTests) * 100.0)
    else 0.0
  }

  function AssertionScore(d: Data, round: real -> real): Option<real> {
    if d.totalAssertions == 0 then None
    else
      var penalty := (d.vacuousAssertions * 5 + d.failingAssertions * 20) as real;
      Some(AtLeastZero(round(100.0 - if penalty > 100.0 then 100.0 else penalty)))
  }

  /** Twice the share is taken off, down to zero. */
  function ShareScore(part: nat, whole: nat, round: real -> real): Option<real> {
    if whole == 0 then None else Some(AtLeastZero(round(100.0 - Ratio(part, whole) * 200.0)))
  }

  const WEIGHTS: seq<real> := [0.30, 0.35, 0.15, 0.10, 0.10]

  function Components(d: Data, round: real -> real): (r: seq<Option<real>>)
    ensures |r| == |WEIGHTS|
  {
    [ Some(PassRate(d, round)),
      if d.overallCoverage.Some? then Some(round(d.overallCoverage.value)) else None,
      AssertionScore(d, round),
      ShareScore(d.flakyTests, d.historyCohorts, round),
      ShareScore(d.divergentTests, d.crossSimCohorts, round) ]
  }

  function WeightSum(ws: seq<real>, cs: seq<Option<real>>): real
    requires |ws| == |cs|
  {
    if ws == [] then 0.0 else (if cs[0].Some? then ws[0] else 0.0) + WeightSum(ws[1..], cs[1..])
  }

  function Weighted(w: real, c: Option<real>): real { if c.Some? then c.value * w else 0.0 }

  function ScoreSum(ws: seq<real>, cs: seq<Option<real>>): real
    requires |ws| == |cs|
  {
    if ws == [] then 0.0 else Weighted(ws[0], cs[0]) + ScoreSum(ws[1..], cs[1..])
  }

  /** The weights of the available components are renormalised; without any the divisor is one. */
  function Score(ws: seq<real>, cs: seq<Option<real>>, round: real -> real): real
    requires |ws| == |cs|
  {
    var total := WeightSum(ws, cs);
    round(ScoreSum(ws, cs) / if total != 0.0 then total else 1.0)
  }

  function HealthScore(d: Data, round: real -> real): real {
    Score(WEIGHTS, Components(d, round), round)
  }

  ghost predicate Positive(ws: seq<real>) { forall i :: 0 <= i < |ws| ==> ws[i] > 0.0 }

  ghost predicate Between(cs: seq<Option<real>>, lo: real, hi: real) {
    forall i :: 0 <= i < |cs| && cs[i].Some? ==> lo <= cs[i].value <= hi
  }

  lemma ScaleUp(a: real, b: real, w: real)
    requires a <= b && w >= 0.0
    ensures a * w <= b * w
  {
    assert (b - a) * w >= 0.0;
  }

  lemma ScaleBounds(w: real, c: real, lo: real, hi: real)
    requires w >= 0.0 && lo <= c <= hi
    ensures lo * w <= c * w <= hi * w
  {
    ScaleUp(lo, c, w);
    ScaleUp(c, hi, w);
  }

  lemma {:induction false} SumBounds(ws: seq<real>, cs: seq<Option<real>>, lo: real, hi: real)
    requires |ws| == |cs| && Positive(ws) && Between(cs, lo, hi)
    ensures Scaled(lo, WeightSum(ws, cs)) <= ScoreSum(ws, cs) <= Scaled(hi, WeightSum(ws, cs))
  {
    if ws != [] {
      SumBounds(ws[1..], cs[1..], lo, hi);
      if cs[0].Some? {
        BoundOneMore(ws[0], cs[0].value, WeightSum(ws[1..], cs[1..]), ScoreSum(ws[1..], cs[1..]), lo, hi);
      }
    }
  }

  function Scaled(a: real, w: real): real { a * w }

  lemma BoundOneMore(w: real, c: real, weights: real, scores: real, lo: real, hi: real)
    requires w >= 0.0 && lo <= c <= hi && Scaled(lo, weights) <= scores <= Scaled(hi, weights)
    ensures Scaled(lo, w + weights) <= c * w + scores <= Scaled(hi, w + weights)
  {
    ScaleBounds(w, c, lo, hi);
    Distribute(lo, w, weights);
    Distribute(hi, w, weights);
  }

  lemma {:induction false} WeightsPositive(ws: seq<real>, cs: seq<Option<real>>)
    requires |ws| == |cs| && Positive(ws)
    ensures WeightSum(ws, cs) >= 0.0
    ensures (exists i :: 0 <= i < |cs| && cs[i].Some?) ==> WeightSum(ws, cs) > 0.0
  {
    if ws != [] {
      WeightsPositive(ws[1..], cs[1..]);
      if i :| 0 <= i < |cs| && cs[i].Some? {
        if i > 0 { assert cs[1..][i - 1].Some?; }
      }
    }
  }

  lemma Distribute(a: real, x: real, y: real)
    ensures a * (x + y) == a * x + a * y
  {
  }

  lemma QuotientBounds(s: real, w: real, lo: real, hi: real)
    requires w > 0.0 && lo * w <= s <= hi * w
    ensures lo <= s / w <= hi
  {
    var q := s / w;
    assert q * w == s;
    if q < lo { ScaleStrictly(q, lo, w); }
    if q > hi { ScaleStrictly(hi, q, w); }
  }

  lemma ScaleStrictly(a: real, b: real, w: real)
    requires a < b && w > 0.0
    ensures a * w < b * w
  {
  }

  /** The score lies between any two bounds of the available components that rounding leaves alone. */
  lemma ScoreBounds(ws: seq<real>, cs: seq<Option<real>>, round: real -> real, lo: real, hi: real)
    requires |ws| == |cs| && Positive(ws) && RoundingOk(round) && Between(cs, lo, hi)
    requires exists i :: 0 <= i < |cs| && cs[i].Some?
    requires round(lo) == lo && round(hi) == hi
    ensures lo <= Score(ws, cs, round) <= hi
  {
    SumBounds(ws, cs, lo, hi);
    WeightsPositive(ws, cs);
    QuotientBounds(ScoreSum(ws, cs), WeightSum(ws, cs), lo, hi);
  }

  ghost predicate IsLeast(cs: seq<Option<real>>, v: real) {
    (exists i :: 0 <= i < |cs| && cs[i] == Some(v)) && forall i :: 0 <= i < |cs| && cs[i].Some? ==> v <= cs[i].value
  }

  ghost predicate IsGreatest(cs: seq<Option<real>>, v: real) {
    (exists i :: 0 <= i < |cs| && cs[i] == Some(v)) && forall i :: 0 <= i < |cs| && cs[i].Some? ==> cs[i].value <= v
  }

  /** Values that rounding leaves alone, on the scale from 0 to 100. */
  ghost predicate Rounded(cs: seq<Option<real>>, round: real -> real) {
    forall i :: 0 <= i < |cs| && cs[i].Some? ==> round(cs[i].value) == cs[i].value && 0.0 <= cs[i].value <= 100.0
  }

  lemma RoundedOnScale(x: real, round: real -> real)
    requires RoundingOk(round) && x <= 100.0
    ensures var y := AtLeastZero(round(x)); round(y) == y && 0.0 <= y <= 100.0
    ensures x >= 0.0 ==> AtLeastZero(round(x)) == round(x)
  {
    assert round(x) <= round(100.0);
    if x >= 0.0 { assert round(0.0) <= round(x); }
  }

  lemma RatioBounds(part: nat, whole: nat)
    requires whole > 0
    ensures Ratio(part, whole) >= 0.0
    ensures part <= whole ==> Ratio(part, whole) <= 1.0
  {
    var q := Ratio(part, whole);
    assert q * (whole as real) == part as real;
  }

  lemma PassRateRounded(d: Data, round: real -> real)
    requires RoundingOk(round) && d.passedTests <= d.totalTests
    ensures var y := PassRate(d, round); round(y) == y && 0.0 <= y <= 100.0
  {
    if d.totalTests > 0 {
      RatioBounds(d.passedTests, d.totalTests);
      RoundedOnScale(Ratio(d.passedTests, d.totalTests) * 100.0, round);
    }
  }

  lemma AssertionScoreRounded(d: Data, round: real -> real)
    requires RoundingOk(round)
    ensures AssertionScore(d, round).Some? ==>
      var y := AssertionScore(d, round).value; round(y) == y && 0.0 <= y <= 100.0
  {
    var penalty := (d.vacuousAssertions * 5 + d.failingAssertions * 20) as real;
    RoundedOnScale(100.0 - if penalty > 100.0 then 100.0 else penalty, round);
  }

  lemma ShareScoreRounded(part: nat, whole: nat, round: real -> real)
    requires RoundingOk(round)
    ensures ShareScore(part, whole, round).Some? ==>
      var y := ShareScore(part, whole, round).value; round(y) == y && 0.0 <= y <= 100.0
  {
    if whole > 0 {
      RatioBounds(part, whole);
      RoundedOnScale(100.0 - Ratio(part, whole) * 200.0, round);
    }
  }

  /** Each component is a rounded value on the scale, given what the tables guarantee about the counts. */
  lemma ComponentsRounded(d: Data, round: real -> real)
    requires RoundingOk(round) && d.passedTests <= d.totalTests
    requires d.overallCoverage.Some? ==> 0.0 <= d.overallCoverage.value <= 100.0
    ensures Rounded(Components(d, round), round)
  {
    hide PassRate, AssertionScore, ShareScore;
    PassRateRounded(d, round);
    if d.overallCoverage.Some? { RoundedOnScale(d.overallCoverage.value, round); }
    AssertionScoreRounded(d, round);
    ShareScoreRounded(d.flakyTests, d.historyCohorts, round);
    ShareScoreRounded(d.divergentTests, d.crossSimCohorts, round);
  }

  /** Values that rounding leaves alone. */
  ghost predicate Settled(cs: seq<Option<real>>, round: real -> real) {
    forall i :: 0 <= i < |cs| && cs[i].Some? ==> round(cs[i].value) == cs[i].value
  }

  lemma ComponentsSettled(d: Data, round: real -> real)
    requires RoundingOk(round)
    ensures Settled(Components(d, round), round)
  {
    hide AssertionScore, ShareScore, PassRate;
    PassRateSettled(d, round);
    AssertionScoreRounded(d, round);
    ShareScoreRounded(d.flakyTests, d.historyCohorts, round);
    ShareScoreRounded(d.divergentTests, d.crossSimCohorts, round);
    if d.overallCoverage.Some? { RoundTwice(d.overallCoverage.value, round); }
  }

  lemma RoundTwice(x: real, round: real -> real)
    requires RoundingOk(round)
    ensures round(round(x)) == round(x)
  {
  }

  lemma PassRateSettled(d: Data, round: real -> real)
    requires RoundingOk(round)
    ensures round(PassRate(d, round)) == PassRate(d, round)
  {
    if d.totalTests > 0 { RoundTwice(Ratio(d.passedTests, d.totalTests) * 100.0, round); }
  }

  /**
   The health score lies between the least and the greatest available component. Those are on the
   scale when the overall coverage is.
   */
  lemma HealthScoreBounds(d: Data, round: real -> real, least: real, greatest: real)
    requires RoundingOk(round)
    requires IsLeast(Components(d, round), least) && IsGreatest(Components(d, round), greatest)
    ensures least <= HealthScore(d, round) <= greatest
    ensures d.passedTests <= d.totalTests && OnScaleOrNone(d.overallCoverage) ==> 0.0 <= least && greatest <= 100.0
  {
    hide Components;
    var cs := Components(d, round);
    ComponentsSettled(d, round);
    FirstAvailable(d, round);
    var i :| 0 <= i < |cs| && cs[i] == Some(least);
    var j :| 0 <= j < |cs| && cs[j] == Some(greatest);
    assert Between(cs, least, greatest);
    ScoreBounds(WEIGHTS, cs, round, least, greatest);
    if d.passedTests <= d.totalTests && OnScaleOrNone(d.overallCoverage) { ComponentsRounded(d, round); }
  }

  lemma FirstAvailable(d: Data, round: real -> real)
    ensures Components(d, round)[0].Some?
  {
  }

  predicate OnScaleOrNone(coverage: Option<real>) { coverage.Some? ==> 0.0 <= coverage.value <= 100.0 }

  /** The score before its final rounding. */
  function RawScore(d: Data, round: real -> real): real {
    var cs := Components(d, round);
    var total := WeightSum(WEIGHTS, cs);
    ScoreSum(WEIGHTS, cs) / if total != 0.0 then total else 1.0
  }

  /** Only tests that all pass, or no tests at all, beside the coverage. */
  function CoverageOnly(tests: nat, coverage: real): Data { Data(tests, tests, Some(coverage), 0, 0, 0, 0, 0, 0, 0) }

  lemma CoverageOnlyScore(tests: nat, coverage: real, round: real -> real)
    requires RoundingOk(round)
    ensures RawScore(CoverageOnly(tests, coverage), round)
      == ((if tests > 0 then 30.0 else 0.0) + round(coverage) * 0.35) / 0.65
  {
    var cs := Components(CoverageOnly(tests, coverage), round);
    if tests > 0 {
      assert Ratio(tests, tests) == 1.0;
      assert cs[0] == Some(100.0);
    }
    assert cs == [cs[0], Some(round(coverage)), None, None, None];
    assert WEIGHTS[1..] == [0.35, 0.15, 0.10, 0.10] && cs[1..] == [Some(round(coverage)), None, None, None];
    assert WEIGHTS[1..][1..] == [0.15, 0.10, 0.10] && cs[1..][1..] == [None, None, None];
    NoneCounts(WEIGHTS[1..][1..], cs[1..][1..]);
    assert WeightSum(WEIGHTS[1..], cs[1..]) == 0.35 && ScoreSum(WEIGHTS[1..], cs[1..]) == round(coverage) * 0.35;
    assert cs[0] == Some(if tests > 0 then 100.0 else 0.0);
    assert WeightSum(WEIGHTS, cs) == 0.65;
  }

  lemma {:induction false} NoneCounts(ws: seq<real>, cs: seq<Option<real>>)
    requires |ws| == |cs| && forall i :: 0 <= i < |cs| ==> cs[i].None?
    ensures WeightSum(ws, cs) == 0.0 && ScoreSum(ws, cs) == 0.0
  {
    if ws != [] { NoneCounts(ws[1..], cs[1..]); }
  }

  lemma RawOnScale(d: Data, round: real -> real)
    requires RoundingOk(round) && Rounded(Components(d, round), round)
    ensures 0.0 <= RawScore(d, round) <= 100.0
  {
    hide Components;
    var cs := Components(d, round);
    FirstAvailable(d, round);
    assert Between(cs, 0.0, 100.0);
    SumBounds(WEIGHTS, cs, 0.0, 100.0);
    WeightsPositive(WEIGHTS, cs);
    QuotientBounds(ScoreSum(WEIGHTS, cs), WeightSum(WEIGHTS, cs), 0.0, 100.0);
  }

  /**
   The overall coverages that keep the score on the scale, whatever the other components are, are
   exactly those that round to a value on the scale.
   */
  lemma CoverageScaleExact(coverage: real, round: real -> real)
    requires RoundingOk(round)
    ensures (forall d: Data :: d.overallCoverage == Some(coverage) && d.passedTests <= d.totalTests ==>
        0.0 <= RawScore(d, round) <= 100.0)
      <==> 0.0 <= round(coverage) <= 100.0
  {
    hide RawScore;
    if 0.0 <= round(coverage) <= 100.0 {
      forall d: Data | d.overallCoverage == Some(coverage) && d.passedTests <= d.totalTests
        ensures 0.0 <= RawScore(d, round) <= 100.0
      {
        RoundedCoverage(d, coverage, round);
        RawOnScale(d, round);
      }
    } else {
      CoverageOnlyScore(0, coverage, round);
      CoverageOnlyScore(1, coverage, round);
      var low, high := CoverageOnly(0, coverage), CoverageOnly(1, coverage);
      assert low.overallCoverage == high.overallCoverage == Some(coverage);
      OffScale(round(coverage));
    }
  }

  lemma RoundedCoverage(d: Data, coverage: real, round: real -> real)
    requires RoundingOk(round) && d.overallCoverage == Some(coverage) && d.passedTests <= d.totalTests
    requires 0.0 <= round(coverage) <= 100.0
    ensures Rounded(Components(d, round), round)
  {
    hide PassRate, AssertionScore, ShareScore;
    PassRateRounded(d, round);
    AssertionScoreRounded(d, round);
    ShareScoreRounded(d.flakyTests, d.historyCohorts, round);
    ShareScoreRounded(d.divergentTests, d.crossSimCohorts, round);
  }

  lemma OffScale(c: real)
    ensures c < 0.0 ==> (0.0 + c * 0.35) / 0.65 < 0.0
    ensures c > 100.0 ==> (30.0 + c * 0.35) / 0.65 > 100.0
  {
  }

  /** `b` has the same components available as `a`, none of them lower. */
  ghost predicate Dominates(a: seq<Option<real>>, b: seq<Option<real>>) {
    && |a| == |b|
    && forall i :: 0 <= i < |a| ==> a[i].Some? == b[i].Some? && (a[i].Some? ==> a[i].value <= b[i].value)
  }

  lemma WeightedGrows(w: real, x: Option<real>, y: Option<real>)
    requires w >= 0.0 && x.Some? == y.Some? && (x.Some? ==> x.value <= y.value)
    ensures Weighted(w, x) <= Weighted(w, y)
  {
    if x.Some? { ScaleUp(x.value, y.value, w); }
  }

  lemma {:induction false} SumsGrow(ws: seq<real>, a: seq<Option<real>>, b: seq<Option<real>>)
    requires |ws| == |a| && Positive(ws) && Dominates(a, b)
    ensures WeightSum(ws, a) == WeightSum(ws, b) && ScoreSum(ws, a) <= ScoreSum(ws, b)
  {
    hide Weighted;
    if ws != [] {
      SumsGrow(ws[1..], a[1..], b[1..]);
      WeightedGrows(ws[0], a[0], b[0]);
    }
  }

  lemma QuotientGrows(s: real, t: real, w: real)
    requires w > 0.0 && s <= t
    ensures s / w <= t / w
  {
    assert (s / w) * w == s && (t / w) * w == t;
  }

  /** With the same components available, raising them never lowers the score. */
  lemma ScoreMonotone(ws: seq<real>, a: seq<Option<real>>, b: seq<Option<real>>, round: real -> real)
    requires |ws| == |a| && Positive(ws) && RoundingOk(round) && Dominates(a, b)
    ensures Score(ws, a, round) <= Score(ws, b, round)
  {
    SumsGrow(ws, a, b);
    WeightsPositive(ws, a);
    var w := WeightSum(ws, a);
    QuotientGrows(ScoreSum(ws, a), ScoreSum(ws, b), if w != 0.0 then w else 1.0);
  }

  // ---- average coverage ----

  function Total(xs: seq<real>): real { if xs == [] then 0.0 else xs[0] + Total(xs[1..]) }

  function Mean(xs: seq<real>): real
    requires xs != []
  {
    Total(xs) / |xs| as real
  }

  lemma {:induction false} TotalBounds(xs: seq<real>, lo: real, hi: real)
    requires forall i :: 0 <= i < |xs| ==> lo <= xs[i] <= hi
    ensures lo * |xs| as real <= Total(xs) <= hi * |xs| as real
  {
    if xs != [] {
      TotalBounds(xs[1..], lo, hi);
      Distribute(lo, 1.0, |xs[1..]| as real);
      Distribute(hi, 1.0, |xs[1..]| as real);
    }
  }

  lemma MeanBounds(xs: seq<real>, lo: real, hi: real)
    requires xs != [] && forall i :: 0 <= i < |xs| ==> lo <= xs[i] <= hi
    ensures lo <= Mean(xs) <= hi
  {
    TotalBounds(xs, lo, hi);
    QuotientBounds(Total(xs), |xs| as real, lo, hi);
  }

  /** The mean over kinds of the mean over each kind's metrics, rounded at both levels; None without metrics. */
  function OverallCoverage(kinds: seq<seq<real>>, round: real -> real): Option<real>
    requires forall k :: k in kinds ==> k != []
  {
    if kinds == [] then None
    else Some(round(Mean(seq(|kinds|, i requires 0 <= i < |kinds| => assert kinds[i] in kinds; round(Mean(kinds[i]))))))
  }

  lemma SingleMean(x: real)
    ensures Mean([x]) == x
  {
    assert Total([x]) == x + Total([x][1..]) && [x][1..] == [];
  }

  lemma SingleKind(x: real, round: real -> real)
    ensures OverallCoverage([[x]], round) == Some(round(round(x)))
  {
    var kinds := [[x]];
    SingleMean(x);
    SingleMean(round(x));
    assert seq(|kinds|, i requires 0 <= i < |kinds| => assert kinds[i] in kinds; round(Mean(kinds[i]))) == [round(x)];
  }

  /** Metrics on the scale give an overall coverage on the scale. */
  lemma OverallCoverageBounds(kinds: seq<seq<real>>, round: real -> real)
    requires forall k :: k in kinds ==> k != []
    requires forall k :: k in kinds ==> forall i :: 0 <= i < |k| ==> 0.0 <= k[i] <= 100.0
    requires RoundingOk(round)
    ensures OverallCoverage(kinds, round).Some? ==> 0.0 <= OverallCoverage(kinds, round).value <= 100.0
  {
    if kinds != [] {
      var means := seq(|kinds|, i requires 0 <= i < |kinds| => assert kinds[i] in kinds; round(Mean(kinds[i])));
      forall i | 0 <= i < |means| ensures 0.0 <= means[i] <= 100.0 {
        assert kinds[i] in kinds;
        MeanBounds(kinds[i], 0.0, 100.0);
        RoundedOnScale(Mean(kinds[i]), round);
      }
      MeanBounds(means, 0.0, 100.0);
      RoundedOnScale(Mean(means), round);
    }
  }

  // ---- the counts behind the score, from the index ----

  ghost predicate InScopeOf(d: Db, suite: Option<string>, runId: Option<string>, testRun: string) {
    if runId.Some? && runId.value != "" then testRun == runId.value
    else suite.Some? && suite.value != "" ==> testRun in d.runs && d.runs[testRun].suite == suite.value
  }

  ghost function TestsInScope(d: Db, suite: Option<string>, runId: Option<string>): set<string> {
    set t | t in d.tests && InScopeOf(d, suite, runId, d.tests[t].runId)
  }

  ghost function PassedInScope(d: Db, suite: Option<string>, runId: Option<string>): set<string> {
    set t | t in TestsInScope(d, suite, runId) && d.tests[t].status == "pass"
  }

  /** The distinct assertion ids of the status rows in scope. */
  ghost function AssertionsInScope(d: Db, suite: Option<string>, runId: Option<string>): set<string> {
    set i | 0 <= i < |d.sva.rows| && InScopeOf(d, suite, runId, d.sva.rows[i].data.runId)
      :: d.sva.rows[i].data.assertionId
  }

  ghost function VacuousInScope(d: Db, suite: Option<string>, runId: Option<string>): set<string> {
    set i | 0 <= i < |d.sva.rows| && InScopeOf(d, suite, runId, d.sva.rows[i].data.runId)
        && (d.sva.rows[i].data.vacuousCount > 0 || d.sva.rows[i].data.status == "vacuous")
      :: d.sva.rows[i].data.assertionId
  }

  ghost function FailingInScope(d: Db, suite: Option<string>, runId: Option<string>): set<string> {
    set i | 0 <= i < |d.sva.rows| && InScopeOf(d, suite, runId, d.sva.rows[i].data.runId)
        && (d.sva.rows[i].data.failCount > 0 || d.sva.rows[i].data.status in {"fail", "failing"})
      :: d.sva.rows[i].data.assertionId
  }

  datatype ScopeError = RunNotFound | WrongSuite

  /** A run fixes the suite; asking for another suite as well is refused. */
  function EffectiveSuite(d: Db, runId: Option<string>, suite: Option<string>): Result<Option<string>, ScopeError> {
    if !Ids.Given(runId) then Success(suite)
    else if runId.value !in d.runs then Result.Failure(RunNotFound)
    else if Ids.Given(suite) && d.runs[runId.value].suite != suite.value then Result.Failure(WrongSuite)
    else Success(Some(d.runs[runId.value].suite))
  }

  /** A scope is refused exactly when its run is unknown or of another suite than asked for. */
  lemma ScopeExact(d: Db, runId: Option<string>, suite: Option<string>)
    ensures var given := runId.GetOr("") != "";
      && (EffectiveSuite(d, runId, suite) == Result.Failure(RunNotFound) <==> given && runId.value !in d.runs)
      && (EffectiveSuite(d, runId, suite) == Result.Failure(WrongSuite) <==>
            && given && runId.value in d.runs
            && suite.Some? && suite.value != "" && d.runs[runId.value].suite != suite.value)
      && (EffectiveSuite(d, runId, suite).Success? ==>
            EffectiveSuite(d, runId, suite).value == if given then Some(d.runs[runId.value].suite) else suite)
  {
  }

  /** What is counted for a run lies within what is counted for its suite. */
  lemma RunWithinSuite(d: Db, runId: string, suite: Option<string>)
    requires runId != "" && EffectiveSuite(d, Some(runId), suite).Success?
    ensures var s := EffectiveSuite(d, Some(runId), suite).value;
      && TestsInScope(d, s, Some(runId)) <= TestsInScope(d, s, None)
      && FlakyTests(d, s, Some(runId)) <= FlakyTests(d, s, None)
      && RepeatedTests(d, s, Some(runId)) <= RepeatedTests(d, s, None)
      && MultiSimCohorts(d, s, Some(runId)) <= MultiSimCohorts(d, s, None)
  {
  }

  // ---- coverage in scope ----

  function Covered(ms: seq<CoverageMetric>): (r: seq<real>)
    ensures |r| == |ms| && forall i :: 0 <= i < |ms| ==> r[i] == ms[i].covered
  {
    seq(|ms|, i requires 0 <= i < |ms| => ms[i].covered)
  }

  /** The covered values of one kind, in row order. */
  function CoveredOf(rows: seq<Coverage>, kind: string): seq<real> {
    if rows == [] then []
    else
      var front, row := CoveredOf(rows[..|rows| - 1], kind), rows[|rows| - 1];
      if row.kind == kind then front + Covered(row.metrics) else front
  }

  /** `cov_totals`: the covered values under their kinds; a kind without values is left out. */
  method CollectCoverage(rows: seq<Coverage>) returns (totals: map<string, seq<real>>)
    ensures forall k :: Lookup(totals, k).GetOr([]) == CoveredOf(rows, k)
    ensures forall k :: k in totals ==> totals[k] != []
  {
    totals := map[];
    for i := 0 to |rows|
      invariant forall k :: Lookup(totals, k).GetOr([]) == CoveredOf(rows[..i], k)
      invariant forall k :: k in totals ==> totals[k] != []
    {
      assert rows[..i + 1][..i] == rows[..i];
      var row := rows[i];
      var j := 0;
      while j < |row.metrics|
        invariant 0 <= j <= |row.metrics|
        invariant forall k :: (
          Lookup(totals, k).GetOr([])
            == CoveredOf(rows[..i], k) + if k == row.kind then Covered(row.metrics)[..j] else [])
        invariant forall k :: k in totals ==> totals[k] != []
      {
        assert Covered(row.metrics)[..j + 1] == Covered(row.metrics)[..j] + [row.metrics[j].covered];
        totals := totals[row.kind := Lookup(totals, row.kind).GetOr([]) + [row.metrics[j].covered]];
        j := j + 1;
      }
      assert Covered(row.metrics)[..|row.metrics|] == Covered(row.metrics);
    }
    assert rows[..|rows|] == rows;
  }

  /** The coverage rows in scope, in table order. */
  ghost function CoverageInScope(d: Db, rows: seq<Row<Coverage>>, suite: Option<string>, runId: Option<string>)
    : seq<Coverage>
  {
    if rows == [] then []
    else
      var front, row := CoverageInScope(d, rows[..|rows| - 1], suite, runId), rows[|rows| - 1].data;
      if InScopeOf(d, suite, runId, row.runId) then front + [row] else front
  }

  /** The value lists of the kinds that have values, in the order of their names. */
  function KindsOf(totals: map<string, seq<real>>): (r: seq<seq<real>>)
    requires forall k :: k in totals ==> totals[k] != []
    ensures forall v :: v in r ==> v != []
  {
    var names := TextOrder.Sorted(totals.Keys);
    seq(|names|, i requires 0 <= i < |names| => assert names[i] in names; totals[names[i]])
  }

  function KindNames(rows: seq<Coverage>): set<string> { set i | 0 <= i < |rows| :: rows[i].kind }

  /** What the collection loop yields, said about the rows. */
  function TotalsOf(rows: seq<Coverage>): map<string, seq<real>> {
    map k | k in KindNames(rows) && CoveredOf(rows, k) != [] :: CoveredOf(rows, k)
  }

  lemma {:induction false} CoveredKinds(rows: seq<Coverage>, kind: string)
    ensures CoveredOf(rows, kind) != [] ==> kind in KindNames(rows)
  {
    if rows != [] {
      var n := |rows| - 1;
      CoveredKinds(rows[..n], kind);
      if kind in KindNames(rows[..n]) {
        var i :| 0 <= i < n && rows[..n][i].kind == kind;
        assert rows[i].kind == kind;
      }
    }
  }

  lemma TotalsUnique(totals: map<string, seq<real>>, rows: seq<Coverage>)
    requires forall k :: Lookup(totals, k).GetOr([]) == CoveredOf(rows, k)
    requires forall k :: k in totals ==> totals[k] != []
    ensures totals == TotalsOf(rows)
  {
    forall k ensures k in totals <==> k in TotalsOf(rows) {
      CoveredKinds(rows, k);
      assert Lookup(totals, k).GetOr([]) == CoveredOf(rows, k);
    }
    forall k | k in totals ensures totals[k] == TotalsOf(rows)[k] {
      assert Lookup(totals, k).GetOr([]) == CoveredOf(rows, k);
    }
  }

  method CoverageScore(rows: seq<Coverage>, round: real -> real) returns (r: Option<real>)
    ensures r == OverallCoverage(KindsOf(TotalsOf(rows)), round)
  {
    var totals := CollectCoverage(rows);
    TotalsUnique(totals, rows);
    r := OverallCoverage(KindsOf(totals), round);
  }

  ghost predicate OnScale(m: CoverageMetric) { 0.0 <= m.covered <= 100.0 }

  ghost predicate AllOnScale(ms: seq<CoverageMetric>) { forall i :: 0 <= i < |ms| ==> OnScale(ms[i]) }

  lemma {:induction false} CoveredOnScale(rows: seq<Coverage>, kind: string)
    requires forall i :: 0 <= i < |rows| ==> AllOnScale(rows[i].metrics)
    ensures forall i :: 0 <= i < |CoveredOf(rows, kind)| ==> 0.0 <= CoveredOf(rows, kind)[i] <= 100.0
  {
    if rows != [] {
      CoveredOnScale(rows[..|rows| - 1], kind);
      var ms := rows[|rows| - 1].metrics;
      assert forall i :: 0 <= i < |ms| ==> OnScale(ms[i]);
    }
  }

  lemma {:induction false} ScopeKeepsScale(
    d: Db, rows: seq<Row<Coverage>>, suite: Option<string>, runId: Option<string>)
    requires forall i :: 0 <= i < |rows| ==> AllOnScale(rows[i].data.metrics)
    ensures forall i :: 0 <= i < |CoverageInScope(d, rows, suite, runId)| ==>
      AllOnScale(CoverageInScope(d, rows, suite, runId)[i].metrics)
  {
    if rows != [] { ScopeKeepsScale(d, rows[..|rows| - 1], suite, runId); }
  }

  /** Overall coverage of the rows in scope. */
  ghost function CoverageOf(d: Db, suite: Option<string>, runId: Option<string>, round: real -> real): Option<real> {
    OverallCoverage(KindsOf(TotalsOf(CoverageInScope(d, d.coverage.rows, suite, runId))), round)
  }

  lemma CoverageOnScale(d: Db, suite: Option<string>, runId: Option<string>, round: real -> real)
    requires RoundingOk(round)
    requires forall i :: 0 <= i < |d.coverage.rows| ==> AllOnScale(d.coverage.rows[i].data.metrics)
    ensures CoverageOf(d, suite, runId, round).Some? ==> 0.0 <= CoverageOf(d, suite, runId, round).value <= 100.0
  {
    var rows := CoverageInScope(d, d.coverage.rows, suite, runId);
    ScopeKeepsScale(d, d.coverage.rows, suite, runId);
    var totals := TotalsOf(rows);
    var names := TextOrder.Sorted(totals.Keys);
    forall v | v in KindsOf(totals) ensures forall i :: 0 <= i < |v| ==> 0.0 <= v[i] <= 100.0 {
      var j :| 0 <= j < |names| && KindsOf(totals)[j] == v;
      assert names[j] in names;
      CoveredOnScale(rows, names[j]);
    }
    OverallCoverageBounds(KindsOf(totals), round);
  }

  ghost function DataOf(d: Db, suite: Option<string>, runId: Option<string>, round: real -> real): Data {
    Data(
      |TestsInScope(d, suite, runId)|, |PassedInScope(d, suite, runId)|, CoverageOf(d, suite, runId, round),
      |AssertionsInScope(d, suite, runId)|, |VacuousInScope(d, suite, runId)|, |FailingInScope(d, suite, runId)|,
      |FlakyTests(d, suite, runId)|, |RepeatedTests(d, suite, runId)|,
      ReportedRows(d, suite, 5_000), |MultiSimCohorts(d, suite, runId)|)
  }

  /** The divergent tests are the rows left after the limit. */
  lemma DivergentCount(d: Db, suite: Option<string>, runId: Option<string>, round: real -> real)
    ensures DataOf(d, suite, runId, round).divergentTests == ReportedRows(d, suite, 5_000)
  {
  }

  /**
   For every index the indexer can build and every scope, the score is between its least and greatest
   component, and these are on the scale when the metrics in the index are; no more assertions are
   vacuous or failing than there are, and no more tests are flaky than repeated.
   */
  lemma HealthOfIndex(
    lib: Library, steps: seq<Step>, suite: Option<string>, runId: Option<string>,
    round: real -> real, round2: real -> real, least: real, greatest: real)
    requires LibraryOk(lib) && RoundingOk(round) && RoundingOk(round2)
    requires var cs := Components(DataOf(IndexSteps(lib, EMPTY, steps), suite, runId, round2), round);
      IsLeast(cs, least) && IsGreatest(cs, greatest)
    ensures var data := DataOf(IndexSteps(lib, EMPTY, steps), suite, runId, round2);
      && least <= HealthScore(data, round) <= greatest
      && (OnScaleOrNone(data.overallCoverage) ==> 0.0 <= least && greatest <= 100.0)
      && data.vacuousAssertions <= data.totalAssertions && data.failingAssertions <= data.totalAssertions
      && data.flakyTests <= data.historyCohorts
    ensures var d := IndexSteps(lib, EMPTY, steps);
      (forall row :: row in d.coverage.rows ==> AllOnScale(row.data.metrics))
      ==> OnScaleOrNone(CoverageOf(d, suite, runId, round2))
  {
    hide IndexSteps, Components, HealthScore;
    var d := IndexSteps(lib, EMPTY, steps);
    IndexInvariants.ReachableOneRowPerTest(lib, steps);
    FlakyWithinRepeated(d, suite, runId);
    SubsetCard(PassedInScope(d, suite, runId), TestsInScope(d, suite, runId));
    SubsetCard(VacuousInScope(d, suite, runId), AssertionsInScope(d, suite, runId));
    SubsetCard(FailingInScope(d, suite, runId), AssertionsInScope(d, suite, runId));
    if forall row :: row in d.coverage.rows ==> AllOnScale(row.data.metrics) {
      forall i | 0 <= i < |d.coverage.rows| ensures AllOnScale(d.coverage.rows[i].data.metrics) {
        assert d.coverage.rows[i] in d.coverage.rows;
      }
      CoverageOnScale(d, suite, runId, round2);
    }
    HealthScoreBounds(DataOf(d, suite, runId, round2), round, least, greatest);
  }

  /** Rounding moves no value further than the distance. */
  ghost predicate Close(round: real -> real, distance: real) {
    forall x :: x - distance <= round(x) <= x + distance
  }

  /** Results in tenths. */
  ghost predicate Tenths(round: real -> real) { forall x :: WholeTenths(round(x)) }

  ghost predicate WholeTenths(x: real) { exists k: int :: x == Tenth(k) }

  function Tenth(k: int): real { k as real / 10.0 }

  lemma NextTenth(x: real)
    requires WholeTenths(x)
    ensures x > 100.0 ==> x >= 100.1
    ensures x < 0.0 ==> x <= -0.1
  {
    var k: int :| x == Tenth(k);
    assert x > 100.0 ==> k >= 1001;
    assert x < 0.0 ==> k <= -1;
  }

  /**
   With a rounding to one digit the same holds of the score itself: it stays on the scale, whatever
   the other components, exactly for the overall coverages that round to a value on it.
   */
  lemma ScoreScaleExact(coverage: real, round: real -> real)
    requires RoundingOk(round) && Close(round, 0.05) && Tenths(round)
    ensures (forall d: Data :: d.overallCoverage == Some(coverage) && d.passedTests <= d.totalTests ==>
        0.0 <= HealthScore(d, round) <= 100.0)
      <==> 0.0 <= round(coverage) <= 100.0
  {
    hide RawScore, HealthScore;
    forall d: Data ensures HealthScore(d, round) == round(RawScore(d, round)) { ScoreIsRounded(d, round); }
    if 0.0 <= round(coverage) <= 100.0 {
      CoverageScaleExact(coverage, round);
      forall d: Data | d.overallCoverage == Some(coverage) && d.passedTests <= d.totalTests
        ensures 0.0 <= HealthScore(d, round) <= 100.0
      {
        assert round(0.0) <= round(RawScore(d, round)) <= round(100.0);
      }
    } else {
      var c := round(coverage);
      assert WholeTenths(c);
      NextTenth(c);
      CoverageOnlyScore(0, coverage, round);
      CoverageOnlyScore(1, coverage, round);
      var low, high := CoverageOnly(0, coverage), CoverageOnly(1, coverage);
      assert low.overallCoverage == high.overallCoverage == Some(coverage);
      FarOffScale(c);
    }
  }

  lemma ScoreIsRounded(d: Data, round: real -> real)
    ensures HealthScore(d, round) == round(RawScore(d, round))
  {
  }

  lemma FarOffScale(c: real)
    ensures c <= -0.1 ==> (0.0 + c * 0.35) / 0.65 < -0.05
    ensures c >= 100.1 ==> (30.0 + c * 0.35) / 0.65 > 100.05
  {
  }

  /** Data of an index with nothing but a coverage of 200 or so. */
  lemma TwoHundred(coverage: real, round: real -> real)
    requires RoundingOk(round) && Close(round, 0.05) && 199.9 <= coverage
    ensures HealthScore(CoverageOnly(0, coverage), round) > 100.0
  {
    CoverageOnlyScore(0, coverage, round);
    var c := round(coverage);
    assert c >= 199.85;
    assert (0.0 + c * 0.35) / 0.65 > 107.0;
  }
}
