/** What the numbers behind the health score, and its components, say about what was indexed. */
module HealthMeaning {
  import opened Common
  import opened StoreModel
  import opened IndexingModel
  import opened IndexInvariants
  import opened IndexHistory
  import opened FinishedIndex
  import opened Health
  import opened Ids
  import Tables

  // ---- tests that pass ----

  /** The tests in scope that failed when they were last written. */
  ghost function LastFailures(lib: Library, steps: seq<Step>, suite: Option<string>, runId: Option<string>): set<string>
  {
    var ws, d := AllTestWrites(lib, steps), IndexSteps(lib, EMPTY, steps);
    set i | 0 <= i < |ws| && IsLast(ws, i) && InScopeOf(d, suite, runId, ws[i].row.runId) && ws[i].row.status == "fail"
      :: ws[i].id
  }

  /** A written status is a verdict, and a failing one comes from an artifact that fails the run. */
  lemma {:induction false} WriteStatus(lib: Library, steps: seq<Step>, k: nat)
    requires k < |AllTestWrites(lib, steps)|
    ensures var row := AllTestWrites(lib, steps)[k].row;
      row.status == "pass" || (row.status == "fail" && SomeoneFails(lib, steps, row.runId))
  {
    hide RunIdOf, TestIdOf;
    var n := |steps| - 1;
    var front := AllTestWrites(lib, steps[..n]);
    var row := AllTestWrites(lib, steps)[k].row;
    if k < |front| {
      WriteStatus(lib, steps[..n], k);
      if row.status == "fail" {
        var i :| 0 <= i < n && Contributes(lib, steps[..n][i].artifact, row.runId);
        assert Contributes(lib, steps[i].artifact, row.runId);
      }
    } else {
      assert AllTestWrites(lib, steps)[k] == TestWrites(lib, steps[n])[k - |front|];
      OneWriteStatus(lib, steps[n], k - |front|);
    }
  }

  lemma OneWriteStatus(lib: Library, step: Step, k: nat)
    requires k < |TestWrites(lib, step)|
    ensures var row := TestWrites(lib, step)[k].row;
      row.status == "pass" || (row.status == "fail" && Contributes(lib, step.artifact, row.runId))
  {
    hide RunIdOf, TestIdOf;
    if step.artifact.JunitArtifact? && step.artifact.junit.location.withinLimit {
      var cases := step.artifact.junit.cases;
      var runId := RunIdOf(lib, step.artifact.junit.location, true);
      assert TestWrites(lib, step)[k] == CaseWrite(lib, step.now, runId, cases[k]);
      assert cases[k] in cases;
    }
  }

  /** The tests that do not pass are exactly those that failed when they were last written. */
  lemma PassedAreTheOthers(
    lib: Library, steps: seq<Step>, suite: Option<string>, runId: Option<string>, round: real -> real)
    ensures var data := DataOf(IndexSteps(lib, EMPTY, steps), suite, runId, round);
      data.passedTests + |LastFailures(lib, steps, suite, runId)| == data.totalTests
  {
    hide IndexSteps, AllTestWrites, InScopeOf;
    var d, ws := IndexSteps(lib, EMPTY, steps), AllTestWrites(lib, steps);
    var passed, failed := PassedInScope(d, suite, runId), LastFailures(lib, steps, suite, runId);
    TestsAreWrites(lib, steps);
    forall t ensures t in TestsInScope(d, suite, runId) <==> t in passed || t in failed
      ensures !(t in passed && t in failed)
    {
      WritesLast(ws, t);
      if t in d.tests {
        var i: nat :| IsLast(ws, i) && ws[i].id == t;
        assert Lookup(d.tests, t) == Some(ws[i].row);
        WriteStatus(lib, steps, i);
        assert forall j: nat :: IsLast(ws, j) && ws[j].id == t ==> ws[j].row == d.tests[t];
      }
    }
    assert TestsInScope(d, suite, runId) == passed + failed;
  }

  /** When no artifact reports a failure for a run in scope, every test in scope passes, and the rate is full. */
  lemma AllPass(
    lib: Library, steps: seq<Step>, suite: Option<string>, runId: Option<string>,
    round: real -> real, round2: real -> real)
    requires var d := IndexSteps(lib, EMPTY, steps);
      forall r :: InScopeOf(d, suite, runId, r) ==> !SomeoneFails(lib, steps, r)
    ensures var data := DataOf(IndexSteps(lib, EMPTY, steps), suite, runId, round2);
      && data.passedTests == data.totalTests
      && (data.totalTests > 0 && RoundingOk(round) ==> PassRate(data, round) == 100.0)
  {
    hide IndexSteps, AllTestWrites, InScopeOf, SomeoneFails, DataOf;
    PassedAreTheOthers(lib, steps, suite, runId, round2);
    var ws, d := AllTestWrites(lib, steps), IndexSteps(lib, EMPTY, steps);
    forall i | 0 <= i < |ws| && InScopeOf(d, suite, runId, ws[i].row.runId) ensures ws[i].row.status != "fail" {
      WriteStatus(lib, steps, i);
    }
    assert LastFailures(lib, steps, suite, runId) == {};
    var data := DataOf(d, suite, runId, round2);
    if data.totalTests > 0 { FullRatio(data.totalTests); }
  }

  lemma FullRatio(n: nat)
    requires n > 0
    ensures Ratio(n, n) == 1.0
  {
  }

  // ---- the share of tests that pass, and the other components ----

  /** Exact arithmetic. */
  ghost predicate Exact(round: real -> real) { forall x :: round(x) == x }

  /** In exact arithmetic the pass rate is the percentage of passing tests. */
  lemma PassRateMeaning(d: Data, round: real -> real)
    requires Exact(round)
    ensures PassRate(d, round) * (d.totalTests as real) == (d.passedTests as real) * 100.0 || d.totalTests == 0
    ensures d.totalTests == 0 ==> PassRate(d, round) == 0.0
  {
    if d.totalTests > 0 {
      var q, n := Ratio(d.passedTests, d.totalTests), d.totalTests as real;
      assert q * n == d.passedTests as real;
      Reorder(q, n);
    }
  }

  lemma Reorder(q: real, n: real)
    ensures (q * 100.0) * n == (q * n) * 100.0
  {
  }

  /** A vacuous assertion costs five points and a failing one twenty, down to zero. */
  lemma PenaltyMeaning(d: Data, round: real -> real)
    requires Exact(round) && d.totalAssertions > 0
    ensures var lost := 5 * d.vacuousAssertions + 20 * d.failingAssertions;
      AssertionScore(d, round) == Some(if lost >= 100 then 0.0 else 100.0 - lost as real)
  {
  }

  /** No share costs nothing, half or more of the whole costs everything, and in between it is linear. */
  lemma ShareMeaning(part: nat, whole: nat, round: real -> real)
    requires Exact(round) && whole > 0
    ensures var score := ShareScore(part, whole, round).value;
      && (2 * part >= whole ==> score == 0.0)
      && (2 * part <= whole ==> score * (whole as real) == 100.0 * (whole as real) - 200.0 * (part as real))
  {
    var q, n := Ratio(part, whole), whole as real;
    assert q * n == part as real;
    if 2 * part >= whole { AtLeastHalf(q, n, part as real); }
    if 2 * part <= whole {
      AtMostHalf(q, n, part as real);
      assert (100.0 - q * 200.0) * n == 100.0 * n - 200.0 * (q * n);
    }
  }

  lemma AtLeastHalf(q: real, n: real, p: real)
    requires n > 0.0 && q * n == p && 2.0 * p >= n
    ensures q * 200.0 >= 100.0
  {
    if q < 0.5 { ScaleStrictly(q, 0.5, n); }
  }

  lemma AtMostHalf(q: real, n: real, p: real)
    requires n > 0.0 && q * n == p && 2.0 * p <= n
    ensures q * 200.0 <= 100.0
  {
    if q > 0.5 { ScaleStrictly(0.5, q, n); }
  }

  /** Only the pass rate is always there; each other component needs something to speak of. */
  lemma AvailableExact(d: Data, round: real -> real)
    ensures var cs := Components(d, round);
      && cs[0].Some? && (cs[1].Some? <==> d.overallCoverage.Some?) && (cs[2].Some? <==> d.totalAssertions > 0)
      && (cs[3].Some? <==> d.historyCohorts > 0) && (cs[4].Some? <==> d.crossSimCohorts > 0)
  {
  }

  function Share(c: Option<real>, share: real): real { if c.Some? then share else 0.0 }

  /**
   In exact arithmetic the score of tests that pass at rate `p`, with coverage, assertion, flakiness and
   cross-simulator scores as far as there are any, weighs them 6 : 7 : 3 : 2 : 2.
   */
  lemma ScoreMeaning(d: Data, round: real -> real)
    requires Exact(round)
    ensures var c := d.overallCoverage;
      var a, f, x := AssertionScore(d, round), ShareScore(d.flakyTests, d.historyCohorts, round),
        ShareScore(d.divergentTests, d.crossSimCohorts, round);
      HealthScore(d, round) * (6.0 + Share(c, 7.0) + Share(a, 3.0) + Share(f, 2.0) + Share(x, 2.0))
        == PassRate(d, round) * 6.0 + Weighted(7.0, c) + Weighted(3.0, a) + Weighted(2.0, f) + Weighted(2.0, x)
    ensures var c := d.overallCoverage;
      var a, f, x := AssertionScore(d, round), ShareScore(d.flakyTests, d.historyCohorts, round),
        ShareScore(d.divergentTests, d.crossSimCohorts, round);
      && (c.None? && a.None? && f.None? && x.None? ==> HealthScore(d, round) == PassRate(d, round))
      && (c.Some? && a.Some? && f.Some? && x.Some? ==>
            HealthScore(d, round) ==
              PassRate(d, round) * 0.30 + c.value * 0.35 + a.value * 0.15 + f.value * 0.10 + x.value * 0.10)
  {
    hide AssertionScore, ShareScore, PassRate;
    var cs := Components(d, round);
    FiveTerms(WEIGHTS, cs);
    var w, s := WeightSum(WEIGHTS, cs), ScoreSum(WEIGHTS, cs);
    assert w >= 0.3;
    assert HealthScore(d, round) == s / w;
    var q := s / w;
    assert q * w == s;
    assert q * (w * 20.0) == s * 20.0;
  }

  lemma FiveTerms(ws: seq<real>, cs: seq<Option<real>>)
    requires |ws| == |cs| == 5
    ensures WeightSum(ws, cs)
      == Share(cs[0], ws[0]) + Share(cs[1], ws[1]) + Share(cs[2], ws[2]) + Share(cs[3], ws[3]) + Share(cs[4], ws[4])
    ensures ScoreSum(ws, cs)
      == Weighted(ws[0], cs[0]) + Weighted(ws[1], cs[1]) + Weighted(ws[2], cs[2])
        + Weighted(ws[3], cs[3]) + Weighted(ws[4], cs[4])
  {
    var ws1, cs1 := ws[1..], cs[1..];
    var ws2, cs2 := ws1[1..], cs1[1..];
    var ws3, cs3 := ws2[1..], cs2[1..];
    var ws4, cs4 := ws3[1..], cs3[1..];
    assert ws1[0] == ws[1] && ws2[0] == ws[2] && ws3[0] == ws[3] && ws4[0] == ws[4];
    assert cs1[0] == cs[1] && cs2[0] == cs[2] && cs3[0] == cs[3] && cs4[0] == cs[4];
    assert WeightSum(ws4[1..], cs4[1..]) == 0.0 && ScoreSum(ws4[1..], cs4[1..]) == 0.0;
    assert WeightSum(ws3, cs3) == Share(cs[3], ws[3]) + WeightSum(ws4, cs4);
    assert ScoreSum(ws3, cs3) == Weighted(ws[3], cs[3]) + ScoreSum(ws4, cs4);
    assert WeightSum(ws1, cs1) == Share(cs[1], ws[1]) + WeightSum(ws2, cs2);
    assert ScoreSum(ws1, cs1) == Weighted(ws[1], cs[1]) + ScoreSum(ws2, cs2);
  }

  // ---- average coverage ----

  lemma {:induction false} TotalConcat(a: seq<real>, b: seq<real>)
    ensures Total(a + b) == Total(a) + Total(b)
  {
    if a == [] {
      assert a + b == b;
    } else {
      assert (a + b)[1..] == a[1..] + b;
      TotalConcat(a[1..], b);
    }
  }

  ghost predicate IsMean(xs: seq<real>, mean: real) { xs != [] && mean * (|xs| as real) == Total(xs) }

  /** In exact arithmetic the overall coverage is the mean of the means of the kinds, all kinds weighing the same. */
  lemma OverallMeaning(kinds: seq<seq<real>>, means: seq<real>, round: real -> real)
    requires Exact(round) && kinds != [] && |means| == |kinds|
    requires forall i :: 0 <= i < |kinds| ==> IsMean(kinds[i], means[i])
    ensures (forall k :: k in kinds ==> k != []) && OverallCoverage(kinds, round).Some?
    ensures IsMean(means, OverallCoverage(kinds, round).value)
  {
    forall k | k in kinds ensures k != [] {
      var i :| 0 <= i < |kinds| && kinds[i] == k;
      assert IsMean(kinds[i], means[i]);
    }
    var found := seq(|kinds|, i requires 0 <= i < |kinds| => assert kinds[i] in kinds; round(Mean(kinds[i])));
    forall i | 0 <= i < |kinds| ensures found[i] == means[i] { MeanIs(kinds[i], means[i]); }
    assert found == means;
  }

  lemma MeanIs(xs: seq<real>, mean: real)
    requires IsMean(xs, mean)
    ensures Mean(xs) == mean
  {
    var n := |xs| as real;
    assert Mean(xs) * n == Total(xs);
    if Mean(xs) < mean { ScaleStrictly(Mean(xs), mean, n); }
    if Mean(xs) > mean { ScaleStrictly(mean, Mean(xs), n); }
  }

  /** The values collected for a kind are those of its rows, in order and each as often as it occurs. */
  lemma {:induction false} CoveredConcat(a: seq<Tables.Coverage>, b: seq<Tables.Coverage>, kind: string)
    ensures CoveredOf(a + b, kind) == CoveredOf(a, kind) + CoveredOf(b, kind)
    ensures forall r: Tables.Coverage ::
      CoveredOf([r], kind) == if r.kind == kind then Covered(r.metrics) else []
  {
    forall r: Tables.Coverage ensures CoveredOf([r], kind) == if r.kind == kind then Covered(r.metrics) else [] {
      assert [r][..0] == [];
    }
    if b == [] {
      assert a + b == a;
    } else {
      var n := |b| - 1;
      assert (a + b)[..|a + b| - 1] == a + b[..n];
      CoveredConcat(a, b[..n], kind);
    }
  }

  /** The rows collected are those of the runs in scope. */
  lemma {:induction false} ScopeMeaning(
    d: Db, rows: seq<Tables.Row<Tables.Coverage>>, suite: Option<string>, runId: Option<string>)
    ensures var found := CoverageInScope(d, rows, suite, runId);
      var wanted := Filter(rows, (r: Tables.Row<Tables.Coverage>) => RowInScope(d, suite, runId, r));
      |found| == |wanted| && forall i :: 0 <= i < |found| ==> found[i] == wanted[i].data
  {
    hide RowInScope;
    var scope := (r: Tables.Row<Tables.Coverage>) => RowInScope(d, suite, runId, r);
    if rows != [] {
      var n := |rows| - 1;
      ScopeMeaning(d, rows[..n], suite, runId);
      assert rows == rows[..n] + [rows[n]];
      FilterConcat(rows[..n], [rows[n]], scope);
      assert Filter([rows[n]], scope) == if scope(rows[n]) then [rows[n]] else [] by {
        assert [rows[n]][1..] == [];
        assert Filter([], scope) == [];
      }
      ScopeOfRow(d, suite, runId, rows[n]);
    }
  }

  /** The row's run is the run asked for or, with no run asked for, of the suite asked for. */
  predicate RowInScope(d: Db, suite: Option<string>, runId: Option<string>, r: Tables.Row<Tables.Coverage>) {
    if Given(runId) then r.data.runId == runId.value
    else !Given(suite) || (r.data.runId in d.runs && d.runs[r.data.runId].suite == suite.value)
  }

  lemma ScopeOfRow(d: Db, suite: Option<string>, runId: Option<string>, r: Tables.Row<Tables.Coverage>)
    ensures RowInScope(d, suite, runId, r) <==> InScopeOf(d, suite, runId, r.data.runId)
  {
  }

  // ---- assertions ----

  predicate EntryVacuous(e: SvaEntry) { e.vacuous == Some(true) || (e.vacuous == None && e.status == "vacuous") }

  /** A flag that says otherwise does not hide a vacuous status. */
  predicate CountsVacuous(e: SvaEntry) { e.vacuous == Some(true) || e.status == "vacuous" }

  predicate CountsFailing(e: SvaEntry) {
    e.failures > 0 || (!EntryVacuous(e) && (e.status == "fail" || e.status == "failing"))
  }

  /** The file's test is indexed, and so is one assertion at least of each entry's name. */
  ghost predicate Reported(d: Db, s: SvaFile, t: string) {
    && s.location.withinLimit && s.readable && Given(s.testName)
    && ResolveTest(d, s.testName.value, None) == Some(t)
    && (forall k :: 0 <= k < |s.entries| ==>
          s.entries[k].name != "" && AssertionNamed(d, s.entries[k].name))
    && forall j, k :: 0 <= j < k < |s.entries| ==> s.entries[j].name != s.entries[k].name
  }

  ghost function Entries(s: SvaFile, p: SvaEntry -> bool): set<int> {
    set k | 0 <= k < |s.entries| && p(s.entries[k])
  }

  /** Row `k` is about entry `k`. */
  ghost predicate RowsAre(d: Db, s: SvaFile, t: string) {
    && t in d.tests && |d.sva.rows| == |s.entries|
    && forall k :: 0 <= k < |s.entries| ==>
         var row := d.sva.rows[k].data;
         IsStatusRow(d, s.entries[k], Some(t), row) && NamesAssertion(d, s.entries[k], Some(t), row)
  }

  lemma StatusFileRows(lib: Library, d: Db, s: SvaFile, t: string)
    requires LibraryOk(lib) && d.sva.rows == [] && Reported(d, s, t)
    ensures Reported(IndexSva(lib, d, s), s, t)
    ensures var e := IndexSva(lib, d, s); RowsAre(e, s, t) && e.assertions == d.assertions && e.runs == d.runs
  {
    hide IsStatusRow, NamesAssertion, AddSvaRows, LibraryOk;
    ResolvedIsThere(d, s.testName.value, t);
    SvaRowsRecorded(lib, d, s.entries, Some(t));
    SvaFrame(lib, d, s);
    StillReported(lib, d, IndexSva(lib, d, s), s, t);
  }

  lemma StillReported(lib: Library, d: Db, e: Db, s: SvaFile, t: string)
    requires Reported(d, s, t) && e == d.(sva := e.sva)
    ensures Reported(e, s, t)
  {
    SameFind(d, e, s.testName.value, None);
    forall k | 0 <= k < |s.entries| ensures AssertionNamed(e, s.entries[k].name) {
      assert AssertionNamed(d, s.entries[k].name);
    }
  }

  lemma ResolvedIsThere(d: Db, wanted: string, t: string)
    requires ResolveTest(d, wanted, None) == Some(t)
    ensures t in d.tests
  {
  }

  /**
   A status file of distinct known assertions, in an index without status rows: each entry counts once,
   as vacuous, as failing, or both, if its run is in scope, and not at all otherwise.
   */
  lemma AssertionCounts(
    lib: Library, d: Db, s: SvaFile, t: string, suite: Option<string>, runId: Option<string>, round: real -> real)
    requires LibraryOk(lib) && d.sva.rows == [] && Reported(d, s, t)
    ensures t in d.tests
    ensures var data := DataOf(IndexSva(lib, d, s), suite, runId, round);
      if InScopeOf(d, suite, runId, d.tests[t].runId)
      then data.totalAssertions == |s.entries|
        && data.vacuousAssertions == |Entries(s, CountsVacuous)|
        && data.failingAssertions == |Entries(s, CountsFailing)|
      else data.totalAssertions == data.vacuousAssertions == data.failingAssertions == 0
  {
    hide LibraryOk, IndexSva, IsStatusRow, NamesAssertion, ResolveTest, CoverageOf, InScopeOf;
    var e := IndexSva(lib, d, s);
    StatusFileRows(lib, d, s, t);
    SvaFrame(lib, d, s);
    SameScope(d, e, suite, runId, e.tests[t].runId);
    if InScopeOf(e, suite, runId, e.tests[t].runId) {
      RowsApart(e, s, t);
      IdsOfRows(e, s, t, suite, runId);
      var id := RowId(e);
      BijectionCard(Entries(s, (x: SvaEntry) => true), AssertionsInScope(e, suite, runId), id);
      BijectionCard(Entries(s, CountsVacuous), VacuousInScope(e, suite, runId), id);
      BijectionCard(Entries(s, CountsFailing), FailingInScope(e, suite, runId), id);
      AllEntries(s, |s.entries|);
    } else {
      NoIdsOfRows(e, s, t, suite, runId);
    }
  }

  lemma SameScope(d: Db, e: Db, suite: Option<string>, runId: Option<string>, run: string)
    requires d.runs == e.runs
    ensures InScopeOf(d, suite, runId, run) <==> InScopeOf(e, suite, runId, run)
  {
  }

  lemma {:induction false} AllEntries(s: SvaFile, n: nat)
    requires n <= |s.entries|
    ensures |Entries(s.(entries := s.entries[..n]), (x: SvaEntry) => true)| == n
    ensures s.(entries := s.entries[..|s.entries|]) == s
  {
    assert s.entries[..|s.entries|] == s.entries;
    if n > 0 {
      AllEntries(s, n - 1);
      assert Entries(s.(entries := s.entries[..n]), (x: SvaEntry) => true)
        == Entries(s.(entries := s.entries[..n - 1]), (x: SvaEntry) => true) + {n - 1};
    }
  }

  function RowId(d: Db): int -> string {
    (k: int) => if 0 <= k < |d.sva.rows| then d.sva.rows[k].data.assertionId else ""
  }

  lemma RowsApart(d: Db, s: SvaFile, t: string)
    requires RowsAre(d, s, t) && Reported(d, s, t)
    ensures forall j, k :: 0 <= j < |s.entries| && 0 <= k < |s.entries| && RowId(d)(j) == RowId(d)(k) ==> j == k
  {
    hide IsStatusRow;
    forall k | 0 <= k < |s.entries|
      ensures RowId(d)(k) in d.assertions && d.assertions[RowId(d)(k)].name == s.entries[k].name
    {
      assert NamesAssertion(d, s.entries[k], Some(t), d.sva.rows[k].data);
    }
  }

  lemma IdsOfRows(d: Db, s: SvaFile, t: string, suite: Option<string>, runId: Option<string>)
    requires RowsAre(d, s, t) && InScopeOf(d, suite, runId, d.tests[t].runId)
    ensures forall id :: id in AssertionsInScope(d, suite, runId) <==>
      exists k :: 0 <= k < |s.entries| && RowId(d)(k) == id
    ensures forall id :: id in VacuousInScope(d, suite, runId) <==>
      exists k :: k in Entries(s, CountsVacuous) && RowId(d)(k) == id
    ensures forall id :: id in FailingInScope(d, suite, runId) <==>
      exists k :: k in Entries(s, CountsFailing) && RowId(d)(k) == id
  {
    hide InScopeOf, NamesAssertion;
    forall k | 0 <= k < |s.entries|
      ensures var row := d.sva.rows[k].data;
        && row.runId == d.tests[t].runId && row.assertionId == RowId(d)(k)
        && (row.vacuousCount > 0 || row.status == "vacuous" <==> k in Entries(s, CountsVacuous))
        && (row.failCount > 0 || row.status in {"fail", "failing"} <==> k in Entries(s, CountsFailing))
    {
      assert IsStatusRow(d, s.entries[k], Some(t), d.sva.rows[k].data);
    }
  }

  lemma NoIdsOfRows(d: Db, s: SvaFile, t: string, suite: Option<string>, runId: Option<string>)
    requires RowsAre(d, s, t) && !InScopeOf(d, suite, runId, d.tests[t].runId)
    ensures AssertionsInScope(d, suite, runId) == VacuousInScope(d, suite, runId)
      == FailingInScope(d, suite, runId) == {}
  {
    hide InScopeOf, NamesAssertion;
    forall k | 0 <= k < |s.entries| ensures d.sva.rows[k].data.runId == d.tests[t].runId {
      assert IsStatusRow(d, s.entries[k], Some(t), d.sva.rows[k].data);
    }
  }
}
