/**
 What a run's row says about the artifacts indexed: it fails exactly when the run holds a failure,
 and its other fields are merged from everything reported on it.
 */
module RunHistory {
  import opened Common
  import opened Tables
  import opened StoreModel
  import opened IndexingModel
  import opened IndexInvariants
  import opened IndexHistory
  import opened Ids

  // ---- a failing run holds a failure ----

  ghost predicate HoldsFailure(d: Db, runId: string) {
    exists f :: f in d.failures && d.failures[f].runId == runId
  }

  /** A failure's id is a digest that mentions its test. */
  ghost predicate NamesTest(lib: Library, d: Db, f: string) {
    f in d.failures ==> exists severity, category, summary ::
      f == lib.digest(FailureId(d.failures[f].testId, severity, category, summary))
  }

  /** Failing runs hold failures, and failures are filed under their tests. */
  ghost predicate Blamed(lib: Library, d: Db) {
    && (forall f :: NamesTest(lib, d, f))
    && forall r :: RunFails(d, r) ==> HoldsFailure(d, r)
  }

  /** One more failure of a test: no run loses its failures, because equal ids mean equal tests. */
  lemma FailureBlames(lib: Library, d: Db, f: ParsedFailure, testId: string, runId: string)
    requires LibraryOk(lib) && Consistent(lib, d) && Belongs(d, testId, runId)
    requires forall g :: NamesTest(lib, d, g)
    ensures var e := IndexFailure(lib, d, f, testId, runId);
      && (forall g :: NamesTest(lib, e, g))
      && HoldsFailure(e, runId)
      && forall r :: HoldsFailure(d, r) ==> HoldsFailure(e, r)
  {
    hide FailureRow, Normalize, Consistent;
    var e := IndexFailure(lib, d, f, testId, runId);
    var id := FailureIdOf(lib, f, testId);
    NewFailure(lib, d, f, testId, runId);
    forall g ensures NamesTest(lib, e, g) { assert NamesTest(lib, d, g); }
    assert e.failures[id].runId == runId;
    if id in d.failures { SameIdSameRun(lib, d, f, testId, runId); }
    forall r | HoldsFailure(d, r) ensures HoldsFailure(e, r) {
      var g :| g in d.failures && d.failures[g].runId == r;
      assert g in e.failures && e.failures[g].runId == r;
    }
  }

  lemma NewFailure(lib: Library, d: Db, f: ParsedFailure, testId: string, runId: string)
    ensures var e, id := IndexFailure(lib, d, f, testId, runId), FailureIdOf(lib, f, testId);
      && e.failures == d.failures[id := e.failures[id]]
      && e.failures[id].testId == testId && e.failures[id].runId == runId
      && NamesTest(lib, e, id)
  {
  }

  lemma SameIdSameRun(lib: Library, d: Db, f: ParsedFailure, testId: string, runId: string)
    requires LibraryOk(lib) && Consistent(lib, d) && Belongs(d, testId, runId)
    requires FailureIdOf(lib, f, testId) in d.failures && NamesTest(lib, d, FailureIdOf(lib, f, testId))
    ensures d.failures[FailureIdOf(lib, f, testId)].runId == runId
  {
    var id := FailureIdOf(lib, f, testId);
    var severity, category, summary :| id == lib.digest(FailureId(d.failures[id].testId, severity, category, summary));
    assert NoCollision(lib, FailureId(d.failures[id].testId, severity, category, summary),
      FailureId(
        testId, Normalize(f.severity.GetOr("error"), false), Normalize(f.category.GetOr("unknown"), false),
        lib.stripVolatile(Normalize(Summarized(f), true))));
    assert FailureOk(d, id);
  }

  /** The failures of a test, filed one after another. */
  lemma {:induction false} FailuresBlame(lib: Library, d: Db, fs: seq<ParsedFailure>, testId: string, runId: string)
    requires LibraryOk(lib) && Consistent(lib, d) && Belongs(d, testId, runId)
    requires fs != [] ==> RunFails(d, runId)
    requires forall g :: NamesTest(lib, d, g)
    ensures var e := IndexFailures(lib, d, fs, testId, runId);
      && (forall g :: NamesTest(lib, e, g))
      && (fs != [] ==> HoldsFailure(e, runId))
      && forall r :: HoldsFailure(d, r) ==> HoldsFailure(e, r)
  {
    hide IndexFailure, Consistent, HoldsFailure, NamesTest, LibraryOk;
    if fs != [] {
      var n := |fs| - 1;
      FailuresBlame(lib, d, fs[..n], testId, runId);
      FailuresKeep(lib, d, fs[..n], testId, runId);
      FailuresFrame(lib, d, fs[..n], testId, runId);
      FailureBlames(lib, IndexFailures(lib, d, fs[..n], testId, runId), fs[n], testId, runId);
    }
  }

  /** Writing a run and a test row touches no failure. */
  lemma FilesCarryOver(lib: Library, d: Db, e: Db)
    requires e.failures == d.failures
    ensures forall g :: NamesTest(lib, d, g) ==> NamesTest(lib, e, g)
    ensures forall r :: HoldsFailure(d, r) ==> HoldsFailure(e, r)
  {
  }

  lemma UvmBlames(lib: Library, d: Db, now: string, log: UvmLog)
    requires LibraryOk(lib) && Consistent(lib, d) && Blamed(lib, d)
    ensures Blamed(lib, IndexUvm(lib, d, now, log))
  {
    hide Consistent, HoldsFailure, NamesTest, RunIdOf, TestIdOf, LibraryOk, UvmBase, RunFails, Belongs;
    if log.location.withinLimit && log.test.Some? {
      var runId := RunIdOf(lib, log.location, false);
      var testId := TestIdOf(lib, runId, "uvm", log.test.value.name);
      var base, e := UvmBase(lib, d, now, log), IndexUvm(lib, d, now, log);
      UvmBaseKeeps(lib, d, now, log);
      FilesCarryOver(lib, d, base);
      FailuresBlame(lib, base, log.failures, testId, runId);
      forall r | RunFails(e, r) ensures HoldsFailure(e, r) {
        UvmStatusMeaning(lib, d, now, log, r);
      }
    }
  }

  lemma {:induction false} NamedHasFailure(cases: seq<JunitCase>, k: nat)
    requires k < |cases| && cases[k].failure.Some?
    ensures FailuresNamed(cases, cases[k].test.name) != []
  {
    if k < |cases| - 1 { NamedHasFailure(cases[..|cases| - 1], k); }
  }

  lemma CaseBlames(lib: Library, d: Db, now: string, runId: string, cases: seq<JunitCase>, k: nat)
    requires LibraryOk(lib) && k < |cases| && CasesState(lib, d, d, runId, cases)
    requires forall g :: NamesTest(lib, d, g)
    ensures var e := IndexCase(lib, d, now, runId, cases, cases[k]);
      && (forall g :: NamesTest(lib, e, g))
      && (cases[k].failure.Some? ==> HoldsFailure(e, runId))
      && forall r :: HoldsFailure(d, r) ==> HoldsFailure(e, r)
  {
    hide Consistent, HoldsFailure, NamesTest, FailuresNamed, AnyFails, IndexFailures;
    var c := cases[k];
    var testId := TestIdOf(lib, runId, "cocotb", c.test.name);
    var row := TestRow(lib, now, runId, "cocotb", c.test, CaseStatus(c));
    CaseStatusOk(cases, k);
    PutTestKeeps(lib, d, testId, row);
    NamedFailuresFail(cases, c.test.name);
    if c.failure.Some? { NamedHasFailure(cases, k); }
    var d1 := PutTest(d, testId, row);
    FilesCarryOver(lib, d, d1);
    FailuresBlame(lib, d1, FailuresNamed(cases, c.test.name), testId, runId);
    assert IndexCase(lib, d, now, runId, cases, c)
      == IndexFailures(lib, d1, FailuresNamed(cases, c.test.name), testId, runId);
  }

  lemma CaseStatusOk(cases: seq<JunitCase>, k: nat)
    requires k < |cases|
    ensures CaseStatus(cases[k]) == "fail" ==> AnyFails(cases)
  {
    assert cases[k] in cases;
  }

  lemma {:induction false} CasesBlame(lib: Library, d: Db, now: string, runId: string, cases: seq<JunitCase>, n: nat)
    requires LibraryOk(lib) && CasesState(lib, d, d, runId, cases) && n <= |cases|
    requires forall g :: NamesTest(lib, d, g)
    ensures var e := IndexCases(lib, d, now, runId, cases, n);
      && (forall g :: NamesTest(lib, e, g))
      && ((exists k :: 0 <= k < n && cases[k].failure.Some?) ==> HoldsFailure(e, runId))
      && forall r :: HoldsFailure(d, r) ==> HoldsFailure(e, r)
  {
    hide IndexCase, HoldsFailure, NamesTest, Consistent, LibraryOk, AnyFails;
    if n > 0 {
      CasesBlame(lib, d, now, runId, cases, n - 1);
      CasesKeep(lib, d, now, runId, cases, n - 1);
      var e := IndexCases(lib, d, now, runId, cases, n - 1);
      assert CasesState(lib, e, e, runId, cases);
      CaseBlames(lib, e, now, runId, cases, n - 1);
    }
  }

  lemma JunitBlames(lib: Library, d: Db, now: string, file: JunitFile)
    requires LibraryOk(lib) && Consistent(lib, d) && Blamed(lib, d)
    ensures Blamed(lib, IndexJunit(lib, d, now, file))
  {
    hide Consistent, HoldsFailure, NamesTest, RunIdOf, IndexCases;
    if file.location.withinLimit && file.cases != [] {
      var runId := RunIdOf(lib, file.location, true);
      var incoming := NewRun(lib, file.location, now, JunitStatus(file.cases));
      UpsertKeeps(lib, d, runId, incoming);
      UpsertStatus(lib, d, runId, incoming);
      var d1 := UpsertRun(lib, d, runId, incoming);
      FilesCarryOver(lib, d, d1);
      CasesBlame(lib, d1, now, runId, file.cases, |file.cases|);
      var e := IndexJunit(lib, d, now, file);
      forall r | RunFails(e, r) ensures HoldsFailure(e, r) {
        JunitStatusMeaning(lib, d, now, file, r);
        if AnyFails(file.cases) {
          var c :| c in file.cases && c.failure.Some?;
          var k :| 0 <= k < |file.cases| && file.cases[k] == c;
        }
      }
    }
  }

  lemma ArtifactBlames(lib: Library, d: Db, step: Step)
    requires LibraryOk(lib) && Consistent(lib, d) && Blamed(lib, d)
    ensures Blamed(lib, IndexArtifact(lib, d, step))
  {
    hide IndexUvm, IndexJunit, IndexWave, IndexBundle, IndexLogAssertions, IndexCoverage, IndexSva;
    hide Consistent, LibraryOk, HoldsFailure, NamesTest;
    var e := IndexArtifact(lib, d, step);
    match step.artifact {
      case UvmArtifact(log) => UvmBlames(lib, d, step.now, log);
      case JunitArtifact(file) => JunitBlames(lib, d, step.now, file);
      case _ =>
        OthersFrame(lib, d, step);
        FilesCarryOver(lib, d, e);
        forall r | RunFails(e, r) ensures HoldsFailure(e, r) { ArtifactStatus(lib, d, step, r); }
    }
  }

  lemma {:induction false} ReachableBlamed(lib: Library, steps: seq<Step>)
    requires LibraryOk(lib)
    ensures Blamed(lib, IndexSteps(lib, EMPTY, steps))
  {
    hide IndexArtifact;
    if steps != [] {
      var n := |steps| - 1;
      ReachableBlamed(lib, steps[..n]);
      ReachableConsistent(lib, steps[..n]);
      ArtifactBlames(lib, IndexSteps(lib, EMPTY, steps[..n]), steps[n]);
    }
  }

  /** In every reachable index a run fails exactly when it holds a failure. */
  lemma FailsExactlyWithFailure(lib: Library, steps: seq<Step>, runId: string)
    requires LibraryOk(lib)
    ensures RunFails(IndexSteps(lib, EMPTY, steps), runId) <==> HoldsFailure(IndexSteps(lib, EMPTY, steps), runId)
  {
    hide IndexSteps;
    var d := IndexSteps(lib, EMPTY, steps);
    ReachableBlamed(lib, steps);
    ReachableConsistent(lib, steps);
    if HoldsFailure(d, runId) {
      var f :| f in d.failures && d.failures[f].runId == runId;
      assert FailureOk(d, f);
    }
  }

  // ---- a run's row is the merge of the reports on it ----

  /** What the artifacts, one after another, have reported on the run. */
  ghost function Reports(lib: Library, steps: seq<Step>, runId: string): seq<Run> {
    if steps == [] then []
    else
      var n := |steps| - 1;
      var front := Reports(lib, steps[..n], runId);
      var reported := ReportedRun(lib, IndexSteps(lib, EMPTY, steps[..n]), steps[n]);
      if reported.Some? && reported.value.0 == runId then front + [reported.value.1] else front
  }

  function MergeAll(lib: Library, reports: seq<Run>): Option<Run> {
    if reports == [] then None
    else Some(MergeRun(lib, MergeAll(lib, reports[..|reports| - 1]), reports[|reports| - 1]))
  }

  lemma {:induction false} RunIsMerge(lib: Library, steps: seq<Step>, runId: string)
    requires LibraryOk(lib)
    ensures Lookup(IndexSteps(lib, EMPTY, steps).runs, runId) == MergeAll(lib, Reports(lib, steps, runId))
  {
    hide IndexArtifact, ReportedRun, MergeRun;
    if steps != [] {
      var n := |steps| - 1;
      var d := IndexSteps(lib, EMPTY, steps[..n]);
      RunIsMerge(lib, steps[..n], runId);
      ReachableConsistent(lib, steps[..n]);
      ArtifactRuns(lib, d, steps[n]);
      var reported := ReportedRun(lib, d, steps[n]);
      if reported.Some? && reported.value.0 == runId {
        var front := Reports(lib, steps[..n], runId);
        assert (front + [reported.value.1])[..|front|] == front;
      }
    }
  }

  /** The value of a field is the last one given; without any it is that of the first report. */
  ghost predicate LastGiven(reports: seq<Run>, field: Run -> Option<string>, value: Option<string>)
    requires reports != []
  {
    if forall i :: 0 <= i < |reports| ==> !Given(field(reports[i])) then value == field(reports[0])
    else exists i :: LastGivenAt(reports, field, value, i)
  }

  ghost predicate LastGivenAt(reports: seq<Run>, field: Run -> Option<string>, value: Option<string>, i: nat) {
    && i < |reports| && Given(field(reports[i])) && value == field(reports[i])
    && forall j :: i < j < |reports| ==> !Given(field(reports[j]))
  }

  lemma LastGivenSnoc(reports: seq<Run>, r: Run, field: Run -> Option<string>, value: Option<string>)
    requires reports != [] && LastGiven(reports, field, value)
    ensures LastGiven(reports + [r], field, OrKept(field(r), value))
  {
    var all := reports + [r];
    if Given(field(r)) {
      assert all[|reports|] == r;
      assert LastGivenAt(all, field, field(r), |reports|);
    } else if i :| 0 <= i < |reports| && Given(field(reports[i])) {
      var k: nat :| LastGivenAt(reports, field, value, k);
      assert LastGivenAt(all, field, value, k);
      assert Given(field(all[k]));
    } else {
      assert forall i :: 0 <= i < |all| ==> !Given(field(all[i]));
    }
  }

  /** The time is that of the first report that has one. */
  ghost predicate FirstTime(reports: seq<Run>, time: string) {
    if time == "" then forall i :: 0 <= i < |reports| ==> reports[i].createdAt == ""
    else exists i :: FirstTimeAt(reports, time, i)
  }

  ghost predicate FirstTimeAt(reports: seq<Run>, time: string, i: nat) {
    i < |reports| && reports[i].createdAt == time && forall j :: 0 <= j < i ==> reports[j].createdAt == ""
  }

  lemma FirstTimeSnoc(reports: seq<Run>, r: Run, time: string)
    requires FirstTime(reports, time)
    ensures FirstTime(reports + [r], if time != "" then time else r.createdAt)
  {
    var all := reports + [r];
    if time != "" {
      var i: nat :| FirstTimeAt(reports, time, i);
      assert FirstTimeAt(all, time, i);
    } else if r.createdAt != "" {
      assert FirstTimeAt(all, r.createdAt, |reports|);
    }
  }

  function CiSystem(): Run -> Option<string> { (r: Run) => r.ciSystem }

  function CiBuildId(): Run -> Option<string> { (r: Run) => r.ciBuildId }

  function CiJobUrl(): Run -> Option<string> { (r: Run) => r.ciJobUrl }

  ghost predicate SomeFails(reports: seq<Run>) { exists i :: 0 <= i < |reports| && reports[i].status == "fail" }

  /** Which report supplies which field. */
  ghost predicate Summarizes(reports: seq<Run>, row: Run)
    requires reports != []
  {
    && row.suite == reports[|reports| - 1].suite
    && (row.status == "fail" <==> SomeFails(reports))
    && FirstTime(reports, row.createdAt)
    && LastGiven(reports, CiSystem(), row.ciSystem)
    && LastGiven(reports, CiBuildId(), row.ciBuildId)
    && LastGiven(reports, CiJobUrl(), row.ciJobUrl)
  }

  lemma SummarizesSnoc(lib: Library, reports: seq<Run>, row: Run, r: Run)
    requires reports != [] && Summarizes(reports, row)
    ensures Summarizes(reports + [r], MergeRun(lib, Some(row), r))
  {
    hide LastGiven, FirstTime;
    FirstTimeSnoc(reports, r, row.createdAt);
    LastGivenSnoc(reports, r, CiSystem(), row.ciSystem);
    LastGivenSnoc(reports, r, CiBuildId(), row.ciBuildId);
    LastGivenSnoc(reports, r, CiJobUrl(), row.ciJobUrl);
    SomeFailsSnoc(reports, r);
  }

  lemma SomeFailsSnoc(reports: seq<Run>, r: Run)
    ensures SomeFails(reports + [r]) <==> SomeFails(reports) || r.status == "fail"
  {
    var all := reports + [r];
    assert all[|reports|] == r && forall i :: 0 <= i < |reports| ==> all[i] == reports[i];
  }

  lemma SummarizesOne(r: Run)
    ensures Summarizes([r], r)
  {
    assert [r][0].status == r.status;
    if r.createdAt != "" { assert FirstTimeAt([r], r.createdAt, 0); }
    OneGiven(r, CiSystem());
    OneGiven(r, CiBuildId());
    OneGiven(r, CiJobUrl());
  }

  lemma OneGiven(r: Run, field: Run -> Option<string>)
    ensures LastGiven([r], field, field(r))
  {
    if Given(field(r)) {
      assert LastGivenAt([r], field, field(r), 0);
      assert Given(field([r][0]));
    }
  }

  lemma {:induction false} MergeSummarizes(lib: Library, reports: seq<Run>)
    requires reports != []
    ensures MergeAll(lib, reports).Some? && Summarizes(reports, MergeAll(lib, reports).value)
  {
    hide Summarizes;
    var n := |reports| - 1;
    if n == 0 {
      assert reports == [reports[0]] && reports[..0] == [];
      SummarizesOne(reports[0]);
    } else {
      MergeSummarizes(lib, reports[..n]);
      SummarizesSnoc(lib, reports[..n], MergeAll(lib, reports[..n]).value, reports[n]);
      assert reports[..n] + [reports[n]] == reports;
    }
  }

  /**
   A run is indexed exactly when something was reported on it. Its suite is that of the last report,
   its creation time that of the first with one, each CI field the last one given, and it fails
   exactly when some report fails.
   */
  lemma RunSummarizesReports(lib: Library, steps: seq<Step>, runId: string)
    requires LibraryOk(lib)
    ensures var d, reports := IndexSteps(lib, EMPTY, steps), Reports(lib, steps, runId);
      && (runId in d.runs <==> reports != [])
      && (reports != [] ==> Summarizes(reports, d.runs[runId]))
  {
    hide IndexSteps, Summarizes;
    RunIsMerge(lib, steps, runId);
    if Reports(lib, steps, runId) != [] { MergeSummarizes(lib, Reports(lib, steps, runId)); }
  }

  // ---- the order of the artifacts ----

  /** The artifact is a result that belongs to the run, whatever the index holds. */
  ghost predicate ResultOf(lib: Library, a: Artifact, runId: string) {
    match a
    case UvmArtifact(log) => log.location.withinLimit && log.test.Some? && RunIdOf(lib, log.location, false) == runId
    case JunitArtifact(file) =>
      file.location.withinLimit && file.cases != [] && RunIdOf(lib, file.location, true) == runId
    case _ => false
  }

  ghost predicate SomeResult(lib: Library, steps: seq<Step>, runId: string) {
    exists i :: 0 <= i < |steps| && ResultOf(lib, steps[i].artifact, runId)
  }

  /** Coverage of no indexed test, filed under a run of its own. */
  ghost predicate OwnCoverage(lib: Library, steps: seq<Step>, runId: string, i: nat)
    requires i < |steps|
  {
    && steps[i].artifact.CoverageArtifact?
    && var reported := ReportedRun(lib, IndexSteps(lib, EMPTY, steps[..i]), steps[i]);
       reported.Some? && reported.value.0 == runId
  }

  ghost predicate SomeOwnCoverage(lib: Library, steps: seq<Step>, runId: string) {
    exists i :: 0 <= i < |steps| && OwnCoverage(lib, steps, runId, i)
  }

  lemma {:induction false} ReportsExist(lib: Library, steps: seq<Step>, runId: string)
    ensures Reports(lib, steps, runId) != [] <==> SomeResult(lib, steps, runId) || SomeOwnCoverage(lib, steps, runId)
  {
    if steps != [] {
      var n := |steps| - 1;
      ReportsExist(lib, steps[..n], runId);
      SomeResultSnoc(lib, steps, runId);
      OwnCoverageSnoc(lib, steps, runId);
      ReportKind(lib, steps, runId);
    }
  }

  lemma ReportKind(lib: Library, steps: seq<Step>, runId: string)
    requires steps != []
    ensures var n := |steps| - 1;
      var reported := ReportedRun(lib, IndexSteps(lib, EMPTY, steps[..n]), steps[n]);
      reported.Some? && reported.value.0 == runId
      <==> ResultOf(lib, steps[n].artifact, runId) || OwnCoverage(lib, steps, runId, n)
  {
    hide IndexSteps, RunIdOf;
  }

  lemma SomeResultSnoc(lib: Library, steps: seq<Step>, runId: string)
    requires steps != []
    ensures var n := |steps| - 1;
      SomeResult(lib, steps, runId) <==> SomeResult(lib, steps[..n], runId) || ResultOf(lib, steps[n].artifact, runId)
  {
    hide ResultOf;
    var n := |steps| - 1;
    assert forall i :: 0 <= i < n ==> steps[..n][i] == steps[i];
  }

  lemma OwnCoverageSnoc(lib: Library, steps: seq<Step>, runId: string)
    requires steps != []
    ensures var n := |steps| - 1;
      SomeOwnCoverage(lib, steps, runId)
      <==> SomeOwnCoverage(lib, steps[..n], runId) || OwnCoverage(lib, steps, runId, n)
  {
    hide IndexSteps, ReportedRun;
    var n := |steps| - 1;
    forall i: nat | i < n ensures OwnCoverage(lib, steps, runId, i) <==> OwnCoverage(lib, steps[..n], runId, i) {
      assert steps[..n][..i] == steps[..i];
    }
  }

  lemma SameResultOf(lib: Library, a: seq<Step>, b: seq<Step>, runId: string)
    requires multiset(a) == multiset(b)
    ensures SomeResult(lib, a, runId) ==> SomeResult(lib, b, runId)
  {
    if i :| 0 <= i < |a| && ResultOf(lib, a[i].artifact, runId) {
      assert a[i] in multiset(b);
      var j :| 0 <= j < |b| && b[j] == a[i];
      assert ResultOf(lib, b[j].artifact, runId);
    }
  }

  /**
   Indexing the same artifacts in another order makes the same runs fail. A run with a result is
   there in every order, with one status; only runs made for coverage of no indexed test may come
   and go with the order, and those pass.
   */
  lemma OrderDoesNotMatter(lib: Library, a: seq<Step>, b: seq<Step>, runId: string)
    requires LibraryOk(lib) && multiset(a) == multiset(b)
    ensures var d, e := IndexSteps(lib, EMPTY, a), IndexSteps(lib, EMPTY, b);
      && (RunFails(d, runId) <==> RunFails(e, runId))
      && (SomeResult(lib, a, runId) ==> runId in d.runs && runId in e.runs)
      && (runId in d.runs && runId in e.runs ==> d.runs[runId].status == e.runs[runId].status)
      && (runId in d.runs && runId !in e.runs ==>
            d.runs[runId].status == "pass" && !SomeResult(lib, a, runId) && SomeOwnCoverage(lib, a, runId))
  {
    hide IndexSteps, SomeResult, SomeOwnCoverage;
    StatusIsAnyContribution(lib, a, runId);
    StatusIsAnyContribution(lib, b, runId);
    SameContributions(lib, a, b, runId);
    SameContributions(lib, b, a, runId);
    RunSummarizesReports(lib, a, runId);
    RunSummarizesReports(lib, b, runId);
    ReportsExist(lib, a, runId);
    ReportsExist(lib, b, runId);
    SameResultOf(lib, a, b, runId);
    SameResultOf(lib, b, a, runId);
  }
}
