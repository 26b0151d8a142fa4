/** Small indexes, each built by indexing artifacts, that show where a description does not hold. */
module IndexExamples {
  import opened Common
  import opened Tables
  import opened StoreModel
  import opened IndexingModel
  import opened IndexInvariants
  import opened IndexHistory
  import opened IndexLogs
  import opened CrossSim
  import opened Ids
  import RunHistory
  import RunDiff
  import IndexDiff
  import PythonText
  import Sorting
  import CoverageQuery
  import CoverageHints
  import TextOrder
  import Health

  // ---- a failing run without a failing test ----

  function Build(path: string, failure: Option<ParsedFailure>): Step {
    Step("t", JunitArtifact(JunitFile(
      Location(path, "0", true, "s", Some("jenkins"), Some("7"), None),
      [JunitCase(ParsedTest("x", None, None, None), failure)])))
  }

  /** Two result files of one CI build: a test that fails in the first passes in the second. */
  function Repaired(): seq<Step> { [Build("1.xml", Some(SOME_FAILURE)), Build("2.xml", None)] }

  lemma OneBuild(lib: Library)
    ensures RunIdOf(lib, Build("1.xml", Some(SOME_FAILURE)).artifact.junit.location, true)
      == RunIdOf(lib, Build("2.xml", None).artifact.junit.location, true)
  {
  }

  lemma RepairedWrites(lib: Library)
    ensures var ws := AllTestWrites(lib, Repaired());
      |ws| == 2 && ws[0].id == ws[1].id && ws[1].row.status == "pass"
  {
    OneBuild(lib);
    var steps := Repaired();
    assert steps[..2] == steps && steps[..1] == [steps[0]] && steps[..1][..0] == [];
    assert AllTestWrites(lib, steps[..1]) == TestWrites(lib, steps[0]) by {
      assert AllTestWrites(lib, []) == [] && [] + TestWrites(lib, steps[0]) == TestWrites(lib, steps[0]);
    }
    assert |TestWrites(lib, steps[0])| == |TestWrites(lib, steps[1])| == 1;
  }

  lemma FirstBuildFails(lib: Library)
    ensures var steps := Repaired(); SomeoneFails(lib, steps, RunIdOf(lib, steps[0].artifact.junit.location, true))
  {
    hide RunIdOf;
    var steps := Repaired();
    var cases := steps[0].artifact.junit.cases;
    assert cases[0] in cases && cases[0].failure.Some?;
    assert Contributes(lib, steps[0].artifact, RunIdOf(lib, steps[0].artifact.junit.location, true));
  }

  lemma LastPasses(lib: Library, runId: string)
    ensures !LastWriteFails(AllTestWrites(lib, Repaired()), runId)
  {
    hide AllTestWrites;
    RepairedWrites(lib);
  }

  /** The run stays failing, with its failure on file, although none of its test rows fails any more. */
  lemma FailingRunWithoutFailingTest(lib: Library)
    requires LibraryOk(lib)
    ensures var d := IndexSteps(lib, EMPTY, Repaired());
      var runId := RunIdOf(lib, Repaired()[0].artifact.junit.location, true);
      RunFails(d, runId) && RunHistory.HoldsFailure(d, runId) && !HoldsFailingTest(d, runId)
  {
    hide IndexSteps, AllTestWrites, RunIdOf, Repaired, LastWriteFails, SomeoneFails, LibraryOk;
    hide HoldsFailingTest, RunHistory.HoldsFailure, RunFails;
    var steps := Repaired();
    assert steps != [] && steps[0].artifact.JunitArtifact? by { FirstIsResult(); }
    var runId := RunIdOf(lib, steps[0].artifact.junit.location, true);
    LastPasses(lib, runId);
    FirstBuildFails(lib);
    FailingRowExact(lib, steps, runId);
    StatusIsAnyContribution(lib, steps, runId);
    RunHistory.FailsExactlyWithFailure(lib, steps, runId);
  }

  lemma FirstIsResult()
    ensures Repaired() != [] && Repaired()[0].artifact.JunitArtifact?
  {
  }

  // ---- a run that reports a divergence of a test it does not have ----

  function Foreign(): seq<Outcome> {
    [ Outcome("0.log", "s", "x", None, false, "t"),
      Outcome("1.log", "s", "y", Some("A"), false, "t"),
      Outcome("2.log", "s", "y", Some("B"), true, "t") ]
  }

  /** The cohort of test `y`. */
  function TestY(suite: string): Cohort { Cohort(suite, "y", "uvm", "") }

  lemma OutcomesDiverge(lib: Library, d: Db, os: seq<Outcome>, suite: string, i: nat, j: nat)
    requires Holds(lib, d, os) && OneEach(os, suite) && i < |os| && j < |os|
    requires CohortFor(os[i]) == CohortFor(os[j]) && os[i].suite == suite && os[i].fails != os[j].fails
    requires os[i].vendor.Some? && os[j].vendor.Some? && TextOrder.Lt(os[i].vendor.value, os[j].vendor.value)
    ensures (TestOf(lib, os[i]), TestOf(lib, os[j])) in DivergentRows(d, Some(suite))
    ensures CohortFor(os[i]) in DivergentInSuite(d, Some(suite))
  {
    hide TestOf, RunOf, RowOf, HoldsOne, Latest;
    var a, b := TestOf(lib, os[i]), TestOf(lib, os[j]);
    OutcomeFacts(lib, d, os, suite, i);
    OutcomeFacts(lib, d, os, suite, j);
    assert Diverges(d, Some(suite), a, b);
    assert (a, b) in Divergence(d, Some(suite)) && PairCohort(d)((a, b)) == CohortFor(os[i]);
  }

  /** A run none of whose tests was compared still reports the divergence of another test of its suite. */
  lemma RunReportsForeignDivergence(lib: Library)
    requires LibraryOk(lib)
    ensures var d, runId := IndexSteps(lib, EMPTY, StepsOf(Foreign())), RunOf(lib, Foreign()[0]);
      && Health.EffectiveSuite(d, Some(runId), None) == Success(Some("s"))
      && TestY("s") in DivergentInSuite(d, Some("s"))
      && TestY("s") !in MultiSimCohorts(d, Some("s"), Some(runId))
  {
    hide IndexSteps, Holds, HoldsOne, TestOf, RunOf, RowOf, Divergence, MultiSimCohorts, DivergentInSuite;
    var os := Foreign();
    var d, runId := IndexSteps(lib, EMPTY, StepsOf(os)), RunOf(lib, os[0]);
    LogsIndexed(lib, os);
    LikeOwnPrefix("s");
    assert TextOrder.Lt("A", "B");
    OutcomesDiverge(lib, d, os, "s", 1, 2);
    NotInRun(lib, d, os);
    DivergentCohortInRun(d, Some("s"), runId, TestY("s"));
  }

  lemma RunNamed(lib: Library, d: Db, o: Outcome)
    requires LibraryOk(lib) && HoldsOne(lib, d, o)
    ensures Health.EffectiveSuite(d, Some(RunOf(lib, o)), None) == Success(Some(o.suite))
  {
    assert NotEmpty(lib, RunId(FromManifest(Normalize(o.suite, false), ManifestText([FileEntry(o.path, "0")]))));
  }

  lemma NotInRun(lib: Library, d: Db, os: seq<Outcome>)
    requires LibraryOk(lib) && os == Foreign() && Holds(lib, d, os)
    ensures !OccursIn(d, RunOf(lib, os[0]), TestY("s"))
    ensures Health.EffectiveSuite(d, Some(RunOf(lib, os[0])), None) == Success(Some("s"))
  {
    hide TestOf, RowOf, HoldsOne, RunIdOf;
    RunNamed(lib, d, os[0]);
    forall u | u in d.tests && d.tests[u].runId == RunOf(lib, os[0]) ensures KeyOf(d, u) != TestKey("y", "uvm", "") {
      var j :| 0 <= j < |os| && TestOf(lib, os[j]) == u;
      HeldFacts(lib, d, os[j]);
      RunsApart(lib, os[0], os[j]);
    }
  }

  // ---- one passing and two failing simulators ----

  function OneAgainstTwo(): seq<Outcome> {
    [ Outcome("1.log", "s", "y", Some("A"), false, "t"),
      Outcome("2.log", "s", "y", Some("B"), true, "t"),
      Outcome("3.log", "s", "y", Some("C"), true, "t") ]
  }

  lemma OneAgainstTwoSims(lib: Library, d: Db)
    requires Holds(lib, d, OneAgainstTwo())
    ensures Sims(d, Some("s"), TestY("s"), "pass") == {"A"}
    ensures Sims(d, Some("s"), TestY("s"), "fail") == {"B", "C"}
  {
    hide Holds, Sims;
    var os, k := OneAgainstTwo(), TestY("s");
    LikeOwnPrefix("s");
    SimsAreVendors(lib, d, os, "s", k, "pass");
    SimsAreVendors(lib, d, os, "s", k, "fail");
    assert os[0].vendor.value == "A" && os[1].vendor.value == "B" && os[2].vendor.value == "C";
    assert CohortFor(os[0]) == CohortFor(os[1]) == CohortFor(os[2]) == k;
  }

  /** A suite with one cohort has the rows of that cohort. */
  lemma OneCohortRows(lib: Library, d: Db, os: seq<Outcome>, suite: string, k: Cohort)
    requires Holds(lib, d, os) && k.suite == suite && suite != ""
    requires forall i :: 0 <= i < |os| && os[i].suite == suite ==> CohortFor(os[i]) == k
    ensures DivergentRows(d, Some(suite)) == RowsOf(d, Some(suite), k)
    ensures forall l :: l in DivergentInSuite(d, Some(suite)) ==> l == k
  {
    hide Holds, Diverges, CohortOf;
    forall l | l in DivergentCohorts(d, Some(suite)) && l.suite == suite ensures l == k {
      CohortsAreHeld(lib, d, os, suite, l);
    }
    forall p | p in DivergentRows(d, Some(suite)) ensures p in RowsOf(d, Some(suite), k) {
      assert PairCohort(d)(p) in DivergentCohorts(d, Some(suite)) && PairCohort(d)(p).suite == suite;
    }
    forall p | p in RowsOf(d, Some(suite), k) ensures p in DivergentRows(d, Some(suite)) {}
  }

  /** The health data reports two divergent tests where there is one. */
  lemma OneTestReportedTwice(lib: Library, round: real -> real)
    requires LibraryOk(lib)
    ensures var d := IndexSteps(lib, EMPTY, StepsOf(OneAgainstTwo()));
      && |DivergentRows(d, Some("s"))| == Health.DataOf(d, Some("s"), None, round).divergentTests == 2
      && DivergentInSuite(d, Some("s")) == {TestY("s")}
  {
    hide IndexSteps, Holds, Sims, Divergence, Health.DataOf;
    var os := OneAgainstTwo();
    var d := IndexSteps(lib, EMPTY, StepsOf(os));
    Health.DivergentCount(d, Some("s"), None, round);
    LogsIndexed(lib, os);
    OneAgainstTwoSims(lib, d);
    OneCohortRows(lib, d, os, "s", TestY("s"));
    CohortAppears(d, Some("s"), TestY("s"));
    CohortRowCount(d, Some("s"), TestY("s"));
    PlainSuiteFirst(d, "s");
  }

  // ---- more rows than the limit ----

  /** A test that 71 simulators pass and 71 fail: of its 5041 rows the limit hides 41. */
  lemma LimitHidesRows(lib: Library, round: real -> real)
    requires LibraryOk(lib)
    ensures var d := IndexSteps(lib, EMPTY, StepsOf(Crowd("s", 71)));
      |DivergentRows(d, Some("s"))| == 5_041 && Health.DataOf(d, Some("s"), None, round).divergentTests == 5_000
  {
    hide IndexSteps, Holds, Divergence, DivergentRows, RowsAhead, Health.DataOf;
    var os := Crowd("s", 71);
    var d := IndexSteps(lib, EMPTY, StepsOf(os));
    Health.DivergentCount(d, Some("s"), None, round);
    CrowdPaths("s", 71);
    CrowdVendors("s", 71);
    LogsIndexed(lib, os);
    LikeOwnPrefix("s");
    assert os + [] == os;
    CrowdRows(lib, d, "s", 71, [], "s");
    OneCohortRows(lib, d, os, "s", TestY("s"));
    PlainSuiteFirst(d, "s");
  }

  /** Two suites whose names differ where the one has an underscore. */
  function Crowded(): seq<Outcome> {
    Crowd("aXb", 71) + OnePair()
  }

  function OnePair(): seq<Outcome> {
    [Outcome("1.log", "a_b", "y", Some("A"), false, "t"), Outcome("2.log", "a_b", "y", Some("B"), true, "t")]
  }

  lemma CrowdedOnce()
    ensures DistinctPaths(Crowded()) && OneEach(Crowded(), "a_b")
  {
    var os := Crowded();
    CrowdPaths("aXb", 71);
    CrowdVendors("aXb", 71);
    LikeOwnPrefix("a_b");
    WildcardAhead();
    assert forall i :: 0 <= i < 142 ==> os[i] == Crowd("aXb", 71)[i] && os[i].path[0] == 'c';
    assert os[142].path == "1.log" && os[143].path == "2.log";
    assert forall i :: 0 <= i < |os| ==> Like(os[i].suite, "a_b" + "%");
  }

  /** Asked for one suite, the health data reports no divergent test: the rows of the other fill the limit. */
  lemma OtherSuiteHidesRows(lib: Library, round: real -> real)
    requires LibraryOk(lib)
    ensures var d := IndexSteps(lib, EMPTY, StepsOf(Crowded()));
      && TestY("a_b") in DivergentInSuite(d, Some("a_b")) && DivergentRows(d, Some("a_b")) != {}
      && Health.DataOf(d, Some("a_b"), None, round).divergentTests == 0
  {
    hide IndexSteps, Holds, Divergence, DivergentRows, DivergentInSuite, OneEach, Crowd, Health.DataOf;
    var os := Crowded();
    var d := IndexSteps(lib, EMPTY, StepsOf(os));
    Health.DivergentCount(d, Some("a_b"), None, round);
    CrowdedOnce();
    LogsIndexed(lib, os);
    var pair := OnePair();
    CrowdRows(lib, d, "aXb", 71, pair, "a_b");
    WildcardAhead();
    RowsOfOther(d, "a_b", TestY("aXb"));
    assert TextOrder.Lt("A", "B");
    assert os[142] == pair[0] && os[143] == pair[1];
    OutcomesDiverge(lib, d, os, "a_b", 142, 143);
  }

  lemma RowsOfOther(d: Db, suite: string, k: Cohort)
    requires TextOrder.Lt(k.suite, suite)
    ensures |RowsOf(d, Some(suite), k)| <= |RowsAhead(d, suite)|
  {
    hide Divergence;
    SubsetCard(RowsOf(d, Some(suite), k), RowsAhead(d, suite));
  }

  // ---- coverage above one hundred ----

  /** A coverage report whose one metric claims 200 percent. */
  function Overdone(): seq<Step> {
    [ Step("t", CoverageArtifact(CoverageFile(
        Location("c.json", "0", true, "s", None, None, None), true, None, "functional",
        [CoverageMetric("m", "top", 200.0, [])]))) ]
  }

  function OverdoneRow(lib: Library): Coverage {
    Coverage(RunIdOf(lib, Overdone()[0].artifact.report.location, true), None, "functional",
             [CoverageMetric("m", "top", 200.0, [])])
  }

  lemma OverdoneIndex(lib: Library)
    ensures var d := IndexSteps(lib, EMPTY, Overdone());
      && d.tests == map[] && d.sva.rows == [] && d.coverage.rows == [Row(1, OverdoneRow(lib))]
  {
    var steps := Overdone();
    assert steps[..0] == [];
    assert IndexSteps(lib, EMPTY, steps[..0]) == EMPTY;
    assert IndexSteps(lib, EMPTY, steps) == IndexArtifact(lib, EMPTY, steps[0]);
    assert EMPTY.coverage.rows + [Row(1, OverdoneRow(lib))] == [Row(1, OverdoneRow(lib))];
  }

  lemma OverdoneTotals(lib: Library)
    ensures Health.KindsOf(Health.TotalsOf([OverdoneRow(lib)])) == [[200.0]]
  {
    hide RunIdOf;
    var c := OverdoneRow(lib);
    assert [c][..0] == [] && Health.CoveredOf([], "functional") == [];
    assert Health.Covered(c.metrics) == [200.0] && [] + [200.0] == [200.0];
    assert Health.CoveredOf([c], "functional") == [200.0];
    assert [c][0].kind == "functional";
    assert Health.KindNames([c]) == {"functional"};
    var totals := Health.TotalsOf([c]);
    assert totals.Keys == {"functional"};
    OneSorted("functional");
  }

  lemma OneSorted(s: string)
    ensures TextOrder.Sorted({s}) == [s]
  {
    TextOrder.LtTotal(s, s);
    TextOrder.SortedUnique(TextOrder.Sorted({s}), [s]);
  }

  lemma OverdoneCoverage(d: Db, row: Coverage, round2: real -> real)
    requires d.coverage.rows == [Row(1, row)] && Health.KindsOf(Health.TotalsOf([row])) == [[200.0]]
    ensures Health.CoverageOf(d, None, None, round2) == Some(round2(round2(200.0)))
  {
    var rows := d.coverage.rows;
    assert rows[..0] == [] && [] + [row] == [row];
    assert Health.CoverageInScope(d, rows, None, None) == [row];
    Health.SingleMean(200.0);
    Health.SingleMean(round2(200.0));
    Health.SingleKind(200.0, round2);
  }

  /** Indexing the report puts the health score above one hundred. */
  lemma ScoreAboveHundred(lib: Library, round: real -> real, round2: real -> real)
    requires Health.RoundingOk(round) && Health.Close(round, 0.05)
    requires Health.RoundingOk(round2) && Health.Close(round2, 0.005)
    ensures var d := IndexSteps(lib, EMPTY, Overdone());
      Health.HealthScore(Health.DataOf(d, None, None, round2), round) > 100.0
  {
    hide IndexSteps, Health.HealthScore;
    var d := IndexSteps(lib, EMPTY, Overdone());
    OverdoneIndex(lib);
    OverdoneTotals(lib);
    OverdoneCoverage(d, OverdoneRow(lib), round2);
    var coverage := round2(round2(200.0));
    assert round2(200.0) >= 199.995 && coverage >= 199.99;
    EmptyCounts(d, round2);
    Health.TwoHundred(coverage, round);
  }

  lemma EmptyCounts(d: Db, round2: real -> real)
    requires d.tests == map[] && d.sva.rows == []
    requires Health.CoverageOf(d, None, None, round2).Some?
    ensures Health.DataOf(d, None, None, round2)
      == Health.CoverageOnly(0, Health.CoverageOf(d, None, None, round2).value)
  {
    assert Divergence(d, None) == {} && MultiSimCohorts(d, None, None) == {};
    assert FlakyTests(d, None, None) == {} && RepeatedTests(d, None, None) == {};
    assert Health.TestsInScope(d, None, None) == {} && Health.PassedInScope(d, None, None) == {};
    assert Health.AssertionsInScope(d, None, None) == {} && Health.VacuousInScope(d, None, None) == {};
    assert Health.FailingInScope(d, None, None) == {} && DivergentRows(d, None) == {};
  }

  // ---- more tests than a run diff fetches ----

  function PassingCase(i: nat): JunitCase { JunitCase(ParsedTest(PythonText.Decimal(i), None, None, None), None) }

  function PassingCases(n: nat): (r: seq<JunitCase>)
    ensures |r| == n && forall i :: 0 <= i < n ==> r[i] == PassingCase(i)
  {
    seq(n, i requires 0 <= i < n => PassingCase(i))
  }

  /** One result file with `n` passing tests. */
  function ManyTests(n: nat): seq<Step> {
    [Step("t", JunitArtifact(JunitFile(Location("m.xml", "0", true, "s", None, None, None), PassingCases(n))))]
  }

  function ManyRun(lib: Library, n: nat): string { RunIdOf(lib, ManyTests(n)[0].artifact.junit.location, true) }

  lemma {:induction false} UnifyDigits(s: string)
    requires PythonText.AllDigits(s)
    ensures Unify(s) == s
  {
    if s != "" {
      UnifyDigits(s[1..]);
      assert s == [s[0]] + s[1..];
    }
  }

  lemma NumberedTestsApart(lib: Library, runId: string, i: nat, j: nat)
    requires LibraryOk(lib)
    requires TestIdOf(lib, runId, "cocotb", PythonText.Decimal(i))
      == TestIdOf(lib, runId, "cocotb", PythonText.Decimal(j))
    ensures i == j
  {
    var a, b := PythonText.Decimal(i), PythonText.Decimal(j);
    assert NoCollision(lib, TestId(runId, Normalize("cocotb", false), Normalize(a, true)),
      TestId(runId, Normalize("cocotb", false), Normalize(b, true)));
    PythonText.DecimalRoundTrip(i);
    PythonText.DecimalRoundTrip(j);
    PythonText.DigitsTrimmed(a);
    PythonText.DigitsTrimmed(b);
    UnifyDigits(a);
    UnifyDigits(b);
    PythonText.DecimalInjective(i, j);
  }

  ghost function NumberedTests(lib: Library, runId: string, n: nat): set<string> {
    set i: nat | i < n :: TestIdOf(lib, runId, "cocotb", PythonText.Decimal(i))
  }

  lemma {:induction false} NumberedCard(lib: Library, runId: string, n: nat)
    requires LibraryOk(lib)
    ensures |NumberedTests(lib, runId, n)| == n
  {
    hide LibraryOk, TestIdOf;
    if n == 0 {
      assert NumberedTests(lib, runId, 0) == {};
    } else {
      NumberedCard(lib, runId, n - 1);
      var last := TestIdOf(lib, runId, "cocotb", PythonText.Decimal(n - 1));
      assert NumberedTests(lib, runId, n) == NumberedTests(lib, runId, n - 1) + {last};
      if last in NumberedTests(lib, runId, n - 1) {
        var i: nat :| i < n - 1 && TestIdOf(lib, runId, "cocotb", PythonText.Decimal(i)) == last;
        NumberedTestsApart(lib, runId, i, n - 1);
      }
    }
  }

  lemma ManyWrites(lib: Library, n: nat)
    ensures AllTestWrites(lib, ManyTests(n)) == CaseWrites(lib, "t", ManyRun(lib, n), PassingCases(n))
  {
    hide RunIdOf;
    var steps := ManyTests(n);
    assert steps[..0] == [] && AllTestWrites(lib, steps[..0]) == [];
    assert [] + TestWrites(lib, steps[0]) == TestWrites(lib, steps[0]);
  }

  /** All of them end up in the run. */
  lemma ManyIndexed(lib: Library, n: nat)
    requires LibraryOk(lib) && ManyRun(lib, n) != ""
    ensures RunDiff.TestsOf(IndexSteps(lib, EMPTY, ManyTests(n)), ManyRun(lib, n))
      == NumberedTests(lib, ManyRun(lib, n), n)
  {
    hide IndexSteps, RunIdOf, TestIdOf, ManyTests, AllTestWrites, LibraryOk;
    var d, r := IndexSteps(lib, EMPTY, ManyTests(n)), ManyRun(lib, n);
    var ws := CaseWrites(lib, "t", r, PassingCases(n));
    ManyWrites(lib, n);
    TestsAreWrites(lib, ManyTests(n));
    forall t ensures t in RunDiff.TestsOf(d, r) <==> t in NumberedTests(lib, r, n) {
      WritesLast(ws, t);
      if t in d.tests {
        var i: nat :| IsLast(ws, i) && ws[i].id == t;
        assert ws[i].id == TestIdOf(lib, r, "cocotb", PythonText.Decimal(i));
        assert Lookup(d.tests, t) == Some(ws[i].row);
      }
      if t in NumberedTests(lib, r, n) {
        var i: nat :| i < n && TestIdOf(lib, r, "cocotb", PythonText.Decimal(i)) == t;
        assert ws[i].id == t;
        LastExists(ws, i);
        var k: nat :| IsLast(ws, k) && ws[k].id == t;
        assert t in d.tests;
      }
    }
  }

  lemma {:induction false} LastExists(ws: seq<TestWrite>, i: nat)
    requires i < |ws|
    ensures exists k: nat :: IsLast(ws, k) && ws[k].id == ws[i].id
    decreases |ws| - i
  {
    if !IsLast(ws, i) {
      var j :| i < j < |ws| && ws[j].id == ws[i].id;
      LastExists(ws, j);
    }
  }

  /** The file, and a coverage report of no indexed test, which makes a run of its own. */
  function WithCoverage(n: nat): seq<Step> { ManyTests(n) + Overdone() }

  function CoverageRun(lib: Library): string { RunIdOf(lib, Overdone()[0].artifact.report.location, true) }

  lemma CoverageRunApart(lib: Library, n: nat)
    requires LibraryOk(lib)
    ensures CoverageRun(lib) != ManyRun(lib, n)
  {
    var x, y := FileEntry("c.json", "0"), FileEntry("m.xml", "0");
    SingletonIdentity(x, y);
    assert NoCollision(lib, RunId(FromManifest(Normalize("s", false), ManifestText([x]))),
      RunId(FromManifest(Normalize("s", false), ManifestText([y]))));
  }

  lemma WithCoverageSteps(lib: Library, n: nat)
    requires n > 0
    ensures SameResults(IndexSteps(lib, EMPTY, ManyTests(n)), IndexSteps(lib, EMPTY, WithCoverage(n)))
    ensures RunHistory.SomeResult(lib, WithCoverage(n), ManyRun(lib, n))
    ensures RunHistory.SomeOwnCoverage(lib, WithCoverage(n), CoverageRun(lib))
    ensures IndexDiff.FilesApart(WithCoverage(n))
  {
    hide RunIdOf, IndexArtifact, PassingCases;
    var steps := WithCoverage(n);
    assert steps[..1] == ManyTests(n);
    OthersFrame(lib, IndexSteps(lib, EMPTY, ManyTests(n)), steps[1]);
    assert |PassingCases(n)| == n;
    assert RunHistory.ResultOf(lib, steps[0].artifact, ManyRun(lib, n));
    assert RunHistory.OwnCoverage(lib, steps, CoverageRun(lib), 1);
  }

  lemma OnlyManyTests(lib: Library, n: nat)
    requires LibraryOk(lib)
    ensures var d := IndexSteps(lib, EMPTY, ManyTests(n));
      forall t :: t in d.tests ==> d.tests[t].runId == ManyRun(lib, n)
  {
    hide IndexSteps, RunIdOf, TestIdOf, ManyTests, AllTestWrites, LibraryOk;
    var d := IndexSteps(lib, EMPTY, ManyTests(n));
    var ws := CaseWrites(lib, "t", ManyRun(lib, n), PassingCases(n));
    ManyWrites(lib, n);
    TestsAreWrites(lib, ManyTests(n));
    forall t | t in d.tests ensures d.tests[t].runId == ManyRun(lib, n) {
      WritesLast(ws, t);
      var i: nat :| IsLast(ws, i) && ws[i].id == t;
      assert Lookup(d.tests, t) == Some(ws[i].row);
    }
  }

  /**
   A file with 10001 tests compared with a run that has none: some test that is gone is not among
   the changes.
   */
  lemma DiffMissesRemoval(lib: Library)
    requires LibraryOk(lib)
    ensures var d := IndexSteps(lib, EMPTY, WithCoverage(10_001));
      var base, compare := ManyRun(lib, 10_001), CoverageRun(lib);
      && base in d.runs && compare in d.runs && RunDiff.TestsOf(d, compare) == {}
      && exists t :: t in RunDiff.TestsOf(d, base)
           && forall c :: c in RunDiff.Changes(RunDiff.StatusesOf(d, base), RunDiff.StatusesOf(d, compare)) ==>
                c.name != d.tests[t].name
  {
    hide IndexSteps, LibraryOk, WithCoverage, ManyTests, ManyRun, CoverageRun, RunDiff.StatusesOf, RunDiff.Changes;
    hide RunHistory.SomeResult, RunHistory.SomeOwnCoverage, IndexDiff.UniqueNames, IndexDiff.FilesApart;
    var n := 10_001;
    var steps, base, compare := WithCoverage(n), ManyRun(lib, n), CoverageRun(lib);
    var d, e := IndexSteps(lib, EMPTY, steps), IndexSteps(lib, EMPTY, ManyTests(n));
    WithCoverageSteps(lib, n);
    RunHistory.ReportsExist(lib, steps, base);
    RunHistory.ReportsExist(lib, steps, compare);
    RunHistory.RunSummarizesReports(lib, steps, base);
    RunHistory.RunSummarizesReports(lib, steps, compare);
    IndexDiff.RunIdGiven(lib, steps, base);
    IndexDiff.RunIdGiven(lib, steps, compare);
    OnlyManyTests(lib, n);
    CoverageRunApart(lib, n);
    assert RunDiff.TestsOf(d, base) == RunDiff.TestsOf(e, base);
    ManyIndexed(lib, n);
    NumberedCard(lib, base, n);
    IndexDiff.NamesOfRun(lib, steps, base);
    IndexDiff.MissedTest(d, base);
    IndexDiff.NoTestsNoTable(d, compare);
    var t :| t in RunDiff.TestsOf(d, base) && d.tests[t].name !in RunDiff.StatusesOf(d, base);
    RunDiff.DiffIsMinimal(RunDiff.StatusesOf(d, base), RunDiff.StatusesOf(d, compare), d.tests[t].name);
  }

  // ---- more metrics than the gap list fetches ----

  const ALMOST := CoverageMetric("m", "top", 90.0, [])

  const NOTHING := CoverageMetric("m", "top", 0.0, [])

  /** Report `i` of one CI build: ten with two hundred metrics that are almost covered, then one that is not at all. */
  function ReportedMetrics(i: nat): (r: seq<CoverageMetric>)
    ensures i < 10 ==> |r| == 200 && forall k :: 0 <= k < 200 ==> r[k] == ALMOST
    ensures i >= 10 ==> r == [NOTHING]
  {
    if i < 10 then seq(200, k => ALMOST) else [NOTHING]
  }

  function ReportLocation(i: nat): Location {
    Location(PythonText.Decimal(i), "0", true, "s", Some("jenkins"), Some("7"), None)
  }

  function BuildReport(i: nat): Step {
    Step("t", CoverageArtifact(CoverageFile(ReportLocation(i), true, None, "functional", ReportedMetrics(i))))
  }

  function BuildReports(n: nat): (r: seq<Step>)
    ensures |r| == n && forall i :: 0 <= i < n ==> r[i] == BuildReport(i)
  {
    seq(n, i requires 0 <= i < n => BuildReport(i))
  }

  function ReportRow(lib: Library, i: nat): Row<Coverage> {
    Row(i + 1, Coverage(RunIdOf(lib, ReportLocation(0), true), None, "functional", ReportedMetrics(i)))
  }

  lemma OneBuildId(lib: Library, i: nat)
    ensures RunIdOf(lib, ReportLocation(i), true) == RunIdOf(lib, ReportLocation(0), true)
  {
  }

  lemma OneMoreReport(lib: Library, d: Db, n: nat)
    requires d.tests == map[] && d.coverage.next == n + 1
    ensures var e := IndexArtifact(lib, d, BuildReports(n + 1)[n]);
      && e.tests == map[]
      && e.coverage == Table(d.coverage.rows + [ReportRow(lib, n)], n + 2)
  {
    hide RunIdOf, MergeRun, ReplaceEvidence, ReportedMetrics;
    OneBuildId(lib, n);
  }

  lemma {:induction false} ReportsIndexed(lib: Library, n: nat)
    ensures var d := IndexSteps(lib, EMPTY, BuildReports(n));
      && d.tests == map[] && d.coverage.next == n + 1 && |d.coverage.rows| == n
      && forall i :: 0 <= i < n ==> d.coverage.rows[i] == ReportRow(lib, i)
  {
    hide IndexArtifact, ReportRow, ReportedMetrics;
    if n > 0 {
      ReportsIndexed(lib, n - 1);
      assert BuildReports(n)[..n - 1] == BuildReports(n - 1);
      OneMoreReport(lib, IndexSteps(lib, EMPTY, BuildReports(n - 1)), n - 1);
    }
  }

  const EVERY_METRIC := CoverageQuery.Query(None, None, None)

  /** The reports come in the order they were indexed, because they share their run. */
  lemma ReportOrder(lib: Library, d: Db)
    requires |d.coverage.rows| == 11 && forall i :: 0 <= i < 11 ==> d.coverage.rows[i] == ReportRow(lib, i)
    ensures CoverageQuery.RowsFor(d, EVERY_METRIC) == d.coverage.rows
  {
    hide RunIdOf, ReportedMetrics;
    FilterAll(d.coverage.rows, CoverageQuery.Selects(d, EVERY_METRIC));
    Sorting.SortFixed(d.coverage.rows, CoverageQuery.RowLe);
  }

  /** Two thousand metrics at ninety percent, and behind them the one at zero. */
  lemma ReportMetrics(lib: Library, d: Db)
    requires |d.coverage.rows| == 11 && forall i :: 0 <= i < 11 ==> d.coverage.rows[i] == ReportRow(lib, i)
    ensures var fetched := CoverageQuery.Fetched(d, EVERY_METRIC, 2_000);
      var all := CoverageQuery.AllMetrics(d, EVERY_METRIC);
      && |fetched| == 2_000 && (forall m :: m in fetched ==> m.covered == 90.0 && m.name == "m")
      && |all| == 2_001 && fetched <= all && all[2_000].covered == 0.0 && all[2_000].name == "m"
  {
    hide RunIdOf;
    var rows := d.coverage.rows;
    var front, last := rows[..10], rows[10];
    ReportOrder(lib, d);
    assert Take(rows, 2_000) == rows == front + [last];
    CoverageQuery.FlattenConcat(d, front, [last]);
    forall r | r in front ensures |r.data.metrics| == 200 && forall c :: c in r.data.metrics ==> c == ALMOST {
      var i :| 0 <= i < 10 && front[i] == r;
      assert r == ReportRow(lib, i);
    }
    CoverageQuery.FlattenLength(d, front, 200);
    forall m | m in CoverageQuery.Flatten(d, front) ensures m.covered == 90.0 && m.name == "m" {
      CoverageQuery.FlattenMembers(d, front, m);
    }
    LastMetric(lib, d, last);
    var most := CoverageQuery.Flatten(d, front);
    assert Take(most + CoverageQuery.Flatten(d, [last]), 2_000) == most;
  }

  lemma LastMetric(lib: Library, d: Db, last: Row<Coverage>)
    requires last == ReportRow(lib, 10)
    ensures var ms := CoverageQuery.Flatten(d, [last]); |ms| == 1 && ms[0].covered == 0.0 && ms[0].name == "m"
  {
    hide RunIdOf;
    assert [last][1..] == [] && CoverageQuery.Flatten(d, []) == [];
    assert CoverageQuery.Flatten(d, [last]) == CoverageQuery.MetricsOf(d, last.data) + [];
  }

  /**
   Eleven reports of one build with one urgent gap. The gap list, whatever its limit, starts with a
   gap that is not urgent; over all metrics it would start with the urgent one.
   */
  lemma UrgentGapMissed(lib: Library, rules: CoverageHints.Rules, maxGaps: nat)
    requires maxGaps >= 1 && !rules.urgentName("m")
    ensures var d := IndexSteps(lib, EMPTY, BuildReports(11));
      var fetched := CoverageQuery.Fetched(d, EVERY_METRIC, CoverageHints.METRIC_LIMIT);
      var shown := CoverageHints.FoundGaps(rules, fetched, 100.0, None, maxGaps);
      var due := CoverageHints.FoundGaps(rules, CoverageQuery.AllMetrics(d, EVERY_METRIC), 100.0, None, maxGaps);
      && shown != [] && shown[0].priority != CoverageHints.High
      && due != [] && due[0].priority == CoverageHints.High && due[0].metric.covered == 0.0
  {
    hide IndexSteps, CoverageQuery.Fetched, CoverageQuery.AllMetrics, CoverageHints.FoundGaps;
    var d := IndexSteps(lib, EMPTY, BuildReports(11));
    var fetched, all := CoverageQuery.Fetched(d, EVERY_METRIC, 2_000), CoverageQuery.AllMetrics(d, EVERY_METRIC);
    ReportsIndexed(lib, 11);
    ReportMetrics(lib, d);
    assert fetched[0] in fetched && all[2_000] in all;
    CoverageHints.UrgentLeads(rules, fetched, 100.0, maxGaps);
    CoverageHints.UrgentLeads(rules, all, 100.0, maxGaps);
    forall m | m in all ensures m in fetched || m.covered == 0.0 {
      var i :| 0 <= i < |all| && all[i] == m;
      if i < 2_000 { assert fetched[i] == m; }
    }
  }
}
