/**
 What a finished index owes to each artifact: results come first, so that every later artifact finds
 the test it names, and what it reports stays on file under that test.
 */
module FinishedIndex {
  import opened Common
  import opened Tables
  import opened StoreModel
  import opened IndexingModel
  import opened IndexInvariants
  import opened IndexHistory
  import opened Ids
  import PythonText

  predicate IsResult(a: Artifact) { a.UvmArtifact? || a.JunitArtifact? }

  // ---- which tables a step may change ----

  /** The tables that results leave alone. */
  ghost predicate SameLinks(d: Db, e: Db) {
    && e.waveforms == d.waveforms && e.assertions == d.assertions
    && e.assertionFailures == d.assertionFailures && e.coverage == d.coverage && e.sva == d.sva
  }

  lemma {:induction false} FailuresKeepLinks(lib: Library, d: Db, fs: seq<ParsedFailure>, testId: string, runId: string)
    ensures SameLinks(d, IndexFailures(lib, d, fs, testId, runId))
  {
    if fs != [] { FailuresKeepLinks(lib, d, fs[..|fs| - 1], testId, runId); }
  }

  lemma CaseKeepsLinks(lib: Library, d: Db, now: string, runId: string, cases: seq<JunitCase>, c: JunitCase)
    ensures SameLinks(d, IndexCase(lib, d, now, runId, cases, c))
  {
    hide TestIdOf, TestRow, FailuresNamed;
    var testId := TestIdOf(lib, runId, "cocotb", c.test.name);
    var d1 := PutTest(d, testId, TestRow(lib, now, runId, "cocotb", c.test, CaseStatus(c)));
    FailuresKeepLinks(lib, d1, FailuresNamed(cases, c.test.name), testId, runId);
  }

  lemma {:induction false} CasesKeepLinks(
    lib: Library, d: Db, now: string, runId: string, cases: seq<JunitCase>, n: nat)
    requires n <= |cases|
    ensures SameLinks(d, IndexCases(lib, d, now, runId, cases, n))
  {
    hide IndexCase;
    if n > 0 {
      CasesKeepLinks(lib, d, now, runId, cases, n - 1);
      CaseKeepsLinks(lib, IndexCases(lib, d, now, runId, cases, n - 1), now, runId, cases, cases[n - 1]);
    }
  }

  lemma UvmKeepsLinks(lib: Library, d: Db, now: string, log: UvmLog)
    ensures SameLinks(d, IndexUvm(lib, d, now, log))
  {
    hide RunIdOf, TestIdOf, MergeRun, TestRow;
    if log.location.withinLimit && log.test.Some? {
      var runId := RunIdOf(lib, log.location, false);
      var testId := TestIdOf(lib, runId, "uvm", log.test.value.name);
      FailuresKeepLinks(lib, UvmBase(lib, d, now, log), log.failures, testId, runId);
    }
  }

  lemma JunitKeepsLinks(lib: Library, d: Db, now: string, file: JunitFile)
    ensures SameLinks(d, IndexJunit(lib, d, now, file))
  {
    hide RunIdOf, MergeRun, IndexCases;
    if file.location.withinLimit && file.cases != [] {
      var runId := RunIdOf(lib, file.location, true);
      var d1 := UpsertRun(lib, d, runId, NewRun(lib, file.location, now, JunitStatus(file.cases)));
      CasesKeepLinks(lib, d1, now, runId, file.cases, |file.cases|);
    }
  }

  /** Rows and keys are only added. */
  ghost predicate Later(d: Db, e: Db) {
    && d.waveforms.Keys <= e.waveforms.Keys && d.assertions.Keys <= e.assertions.Keys
    && d.assertionFailures.rows <= e.assertionFailures.rows
    && d.coverage.rows <= e.coverage.rows && d.sva.rows <= e.sva.rows
  }

  /** What a bundle may change. */
  ghost predicate BundleOnly(d: Db, e: Db) {
    && e.waveforms == d.waveforms && e.coverage == d.coverage && e.sva == d.sva
    && d.assertions.Keys <= e.assertions.Keys && d.assertionFailures.rows <= e.assertionFailures.rows
  }

  lemma {:induction false} DefinitionsOnly(lib: Library, p: Persisted, defs: seq<Definition>)
    ensures var q := AddDefinitions(lib, p, defs);
      BundleOnly(p.db, q.db) && q.db.assertionFailures == p.db.assertionFailures
    ensures forall k :: 0 <= k < |defs| ==> DefinitionIdOf(lib, defs[k]) in AddDefinitions(lib, p, defs).db.assertions
  {
    hide DefinitionIdOf, DefinitionRow;
    if defs != [] { DefinitionsOnly(lib, p, defs[..|defs| - 1]); }
  }

  lemma AddFailureOnly(lib: Library, p: Persisted, f: BundleFailure, testId: string, runId: string, source: string)
    ensures BundleOnly(p.db, AddFailure(lib, p, f, testId, runId, source).db)
  {
    hide UnknownIdOf, ReplaceEvidence;
  }

  lemma {:induction false} FailuresOnly(
    lib: Library, p: Persisted, fs: seq<BundleFailure>, testId: string, runId: string, source: string)
    ensures BundleOnly(p.db, AddFailures(lib, p, fs, testId, runId, source).db)
  {
    hide AddFailure;
    if fs != [] {
      FailuresOnly(lib, p, fs[..|fs| - 1], testId, runId, source);
      var front := AddFailures(lib, p, fs[..|fs| - 1], testId, runId, source);
      AddFailureOnly(lib, front, fs[|fs| - 1], testId, runId, source);
    }
  }

  /** A row for this failure of this test. */
  ghost predicate HasFailureRow(d: Db, f: BundleFailure, t: string) {
    exists k :: 0 <= k < |d.assertionFailures.rows| && IsFailureRow(d, d.assertionFailures.rows[k].data, f, t)
  }

  ghost predicate IsFailureRow(d: Db, row: AssertionFailure, f: BundleFailure, t: string) {
    && t in d.tests && row.testId == t && row.runId == d.tests[t].runId
    && row.message == f.message && row.timeNs == f.timeNs
  }

  lemma PersistRecords(
    lib: Library, d: Db, defs: seq<Definition>, fs: seq<BundleFailure>, t: string, source: string)
    requires t in d.tests
    ensures var e := PersistBundle(lib, d, defs, fs, t, d.tests[t].runId, source);
      && BundleOnly(d, e) && e.tests == d.tests
      && (forall k :: 0 <= k < |fs| ==> HasFailureRow(e, fs[k], t))
      && forall k :: 0 <= k < |defs| ==> DefinitionIdOf(lib, defs[k]) in e.assertions
  {
    hide AddFailure, DefinitionIdOf;
    var runId := d.tests[t].runId;
    var p := AddDefinitions(lib, Persisted(d, map[]), defs);
    var q := AddFailures(lib, p, fs, t, runId, source);
    DefinitionsOnly(lib, Persisted(d, map[]), defs);
    FailuresOnly(lib, p, fs, t, runId, source);
    PersistFrame(lib, d, defs, fs, t, runId, source);
    BundleRowsRecorded(lib, p, fs, t, runId, source);
    forall k | 0 <= k < |fs| ensures HasFailureRow(q.db, fs[k], t) {
      assert RowRecorded(lib, p, q, fs, t, runId, k);
      assert IsFailureRow(q.db, q.db.assertionFailures.rows[|p.db.assertionFailures.rows| + k].data, fs[k], t);
    }
  }

  // ---- the test an artifact names ----

  lemma SameFind(d: Db, e: Db, wanted: string, framework: Option<string>)
    requires d.tests == e.tests
    ensures FindTest(d, wanted, framework) == FindTest(e, wanted, framework)
  {
    var a, b := FindTest(d, wanted, framework), FindTest(e, wanted, framework);
    if a.Some? { FoundTestUnique(d.tests, wanted, framework, a, b); }
  }

  lemma SameResolution(lib: Library, d: Db, e: Db, wanted: string, framework: Option<string>)
    requires Consistent(lib, d) && Consistent(lib, e) && d.tests == e.tests
    ensures FindEither(d, wanted, framework) == FindEither(e, wanted, framework)
    ensures ResolveTest(d, wanted, framework) == ResolveTest(e, wanted, framework)
    ensures ResolveTwice(d, wanted) == ResolveTwice(e, wanted)
  {
    hide FindTest;
    SameFind(d, e, wanted, framework);
    SameFind(d, e, wanted, Some("cocotb"));
    SameFind(d, e, wanted, None);
    RunsAreThere(lib, d);
    RunsAreThere(lib, e);
  }

  lemma RunsAreThere(lib: Library, d: Db)
    requires Consistent(lib, d)
    ensures forall t :: t in d.tests ==> d.tests[t].runId in d.runs
  {
    forall t | t in d.tests ensures d.tests[t].runId in d.runs { assert TestOk(lib, d, t); }
  }

  // ---- what each artifact leaves in the finished index ----

  ghost predicate BundleLinked(lib: Library, d: Db, b: Bundle) {
    b.location.withinLimit && b.readable && Given(b.testName) ==>
      var t := ResolveTwice(d, b.testName.value);
      t.Some? ==>
        && (forall k :: 0 <= k < |b.failures| ==> HasFailureRow(d, b.failures[k], t.value))
        && forall k :: 0 <= k < |b.definitions| ==> DefinitionIdOf(lib, b.definitions[k]) in d.assertions
  }

  ghost predicate LogLinked(d: Db, log: UvmLog) {
    log.location.withinLimit && log.test.Some? && log.test.value.name != "" ==>
      var t := ResolveTest(d, log.test.value.name, Some("uvm"));
      t.Some? ==> forall k :: 0 <= k < |log.assertionFailures| ==> HasFailureRow(d, log.assertionFailures[k], t.value)
  }

  ghost predicate WaveLinked(d: Db, wave: WaveFile) {
    wave.location.withinLimit && wave.readable ==>
      var t := FindEither(d, wave.testName, LowerOption(wave.framework));
      t.Some? ==> t.value in d.waveforms
  }

  /** A coverage row with the file's metrics: under the test it names if that resolves, else under a run of its own. */
  ghost predicate IsCoverageRow(lib: Library, d: Db, c: CoverageFile, row: Coverage) {
    var t := if Given(c.testName) then ResolveTwice(d, c.testName.value) else None;
    && row.kind == c.kind && row.metrics == c.metrics
    && if t.Some? then row.testId == t && t.value in d.tests && row.runId == d.tests[t.value].runId
       else row.testId == None && row.runId == RunIdOf(lib, c.location, true)
  }

  ghost predicate CoverageLinked(lib: Library, d: Db, c: CoverageFile) {
    c.location.withinLimit && c.readable ==>
      exists k :: 0 <= k < |d.coverage.rows| && IsCoverageRow(lib, d, c, d.coverage.rows[k].data)
  }

  /** Attempts are split into passes and failures; what is vacuous is marked as such, once. */
  ghost predicate IsStatusRow(d: Db, e: SvaEntry, test: Option<string>, row: SvaStatus) {
    && row.passCount + row.failCount == e.attempts && row.failCount == e.failures
    && (if e.vacuous == Some(true) || (e.vacuous == None && e.status == "vacuous")
        then row.status == "vacuous" && row.vacuousCount == 1
        else row.status == e.status && row.vacuousCount == 0)
    && (if test.Some? then row.testId == test.value && test.value in d.tests && row.runId == d.tests[test.value].runId
        else row.testId == "" && row.runId == "")
  }

  ghost predicate AssertionNamed(d: Db, name: string) {
    exists x :: x in d.assertions && d.assertions[x].name == name
  }

  /** The row names an assertion of the entry's name if the test is known and there is one. */
  ghost predicate NamesAssertion(d: Db, e: SvaEntry, test: Option<string>, row: SvaStatus) {
    if e.name != "" && test.Some? && AssertionNamed(d, e.name)
    then row.assertionId in d.assertions && d.assertions[row.assertionId].name == e.name
    else row.assertionId == ""
  }

  ghost predicate HasStatusRow(d: Db, e: SvaEntry, test: Option<string>) {
    exists k :: 0 <= k < |d.sva.rows| && IsStatusRow(d, e, test, d.sva.rows[k].data)
  }

  ghost predicate SvaLinked(d: Db, s: SvaFile) {
    s.location.withinLimit && s.readable ==>
      var t := if Given(s.testName) then ResolveTest(d, s.testName.value, None) else None;
      forall k :: 0 <= k < |s.entries| ==> HasStatusRow(d, s.entries[k], t)
  }

  ghost predicate Linked(lib: Library, d: Db, a: Artifact) {
    match a
    case WaveArtifact(wave) => WaveLinked(d, wave)
    case BundleArtifact(b) => BundleLinked(lib, d, b)
    case LogAssertionsArtifact(log) => LogLinked(d, log)
    case CoverageArtifact(c) => CoverageLinked(lib, d, c)
    case SvaArtifact(s) => SvaLinked(d, s)
    case _ => true
  }

  // ---- each artifact links itself ----

  lemma BundleLinks(lib: Library, d: Db, b: Bundle)
    requires Consistent(lib, d)
    ensures var e := IndexBundle(lib, d, b); BundleOnly(d, e) && BundleLinked(lib, e, b)
  {
    hide HasFailureRow, DefinitionIdOf, PersistBundle;
    var e := IndexBundle(lib, d, b);
    BundleKeeps(lib, d, b);
    BundleFrame(lib, d, b);
    if Given(b.testName) {
      SameResolution(lib, d, e, b.testName.value, None);
      var t := ResolveTwice(d, b.testName.value);
      if t.Some? { PersistRecords(lib, d, b.definitions, b.failures, t.value, b.location.path); }
    }
  }

  lemma LogLinks(lib: Library, d: Db, log: UvmLog)
    requires Consistent(lib, d)
    ensures var e := IndexLogAssertions(lib, d, log); BundleOnly(d, e) && LogLinked(e, log)
  {
    hide HasFailureRow, PersistBundle;
    var e := IndexLogAssertions(lib, d, log);
    LogAssertionsKeep(lib, d, log);
    LogAssertionsFrame(lib, d, log);
    if log.test.Some? {
      SameResolution(lib, d, e, log.test.value.name, Some("uvm"));
      var t := ResolveTest(d, log.test.value.name, Some("uvm"));
      if t.Some? { PersistRecords(lib, d, [], log.assertionFailures, t.value, log.location.path); }
    }
  }

  lemma WaveLinks(lib: Library, d: Db, wave: WaveFile)
    requires Consistent(lib, d)
    ensures var e := IndexWave(lib, d, wave); Later(d, e) && WaveLinked(e, wave)
  {
    WaveKeeps(lib, d, wave);
    SameResolution(lib, d, IndexWave(lib, d, wave), wave.testName, LowerOption(wave.framework));
  }

  /** A readable report adds one row at the end of the coverage table, and may add or merge a run. */
  lemma OneReport(lib: Library, d: Db, now: string, c: CoverageFile)
    requires c.location.withinLimit && c.readable
    ensures var e, t := IndexCoverage(lib, d, now, c), CoverageTest(d, c);
      && SameLinks(d, e.(coverage := d.coverage)) && Later(d, e)
      && |e.coverage.rows| == |d.coverage.rows| + 1
      && e.coverage.rows[|d.coverage.rows|].data ==
           if t.Some? && t.value in d.tests then Coverage(d.tests[t.value].runId, t, c.kind, c.metrics)
           else Coverage(RunIdOf(lib, c.location, true), None, c.kind, c.metrics)
  {
    hide RunIdOf, UpsertRun, PutCoverage, CoverageTest, NewRun;
    forall x: Db, row, refs ensures RowAdded(x, PutCoverage(x, row, refs), row) { PutAdds(x, row, refs); }
    forall r, run ensures UpsertRun(lib, d, r, run) == d.(runs := UpsertRun(lib, d, r, run).runs) {
      RunsOnly(lib, d, r, run);
    }
  }

  ghost predicate RowAdded(d: Db, e: Db, row: Coverage) {
    && SameLinks(d, e.(coverage := d.coverage)) && d.coverage.rows <= e.coverage.rows
    && |e.coverage.rows| == |d.coverage.rows| + 1 && e.coverage.rows[|d.coverage.rows|].data == row
  }

  lemma PutAdds(d: Db, row: Coverage, refs: seq<EvidenceRef>)
    ensures RowAdded(d, PutCoverage(d, row, refs), row)
  {
    hide ReplaceEvidence;
  }

  lemma RunsOnly(lib: Library, d: Db, r: string, run: Run)
    ensures UpsertRun(lib, d, r, run) == d.(runs := UpsertRun(lib, d, r, run).runs)
  {
    hide MergeRun;
  }

  lemma CoverageLinks(lib: Library, d: Db, now: string, c: CoverageFile)
    requires LibraryOk(lib) && Consistent(lib, d)
    ensures var e := IndexCoverage(lib, d, now, c); Later(d, e) && CoverageLinked(lib, e, c)
  {
    hide RunIdOf, IndexCoverage, ResolveTwice, Consistent;
    var e := IndexCoverage(lib, d, now, c);
    CoverageKeeps(lib, d, now, c);
    CoverageFrame(lib, d, now, c);
    if Given(c.testName) {
      SameResolution(lib, d, e, c.testName.value, None);
      ResolvedThere(d, c.testName.value);
    }
    if c.location.withinLimit && c.readable {
      OneReport(lib, d, now, c);
      assert IsCoverageRow(lib, e, c, e.coverage.rows[|d.coverage.rows|].data);
    } else {
      UnreadNothing(lib, d, now, c);
    }
  }

  lemma UnreadNothing(lib: Library, d: Db, now: string, c: CoverageFile)
    requires !c.location.withinLimit || !c.readable
    ensures IndexCoverage(lib, d, now, c) == d
  {
  }

  lemma ResolvedThere(d: Db, wanted: string)
    ensures ResolveTwice(d, wanted).Some? ==> ResolveTwice(d, wanted).value in d.tests
  {
  }

  lemma SvaRowIs(lib: Library, d: Db, e: SvaEntry, test: Option<string>)
    requires LibraryOk(lib) && (test.Some? ==> test.value in d.tests)
    ensures IsStatusRow(d, e, test, SvaRow(lib, d, e, test))
    ensures NamesAssertion(d, e, test, SvaRow(lib, d, e, test))
  {
    var named := NamedAssertions(d, e.name);
    assert PicksOne(lib, named);
    assert named != {} <==> AssertionNamed(d, e.name) by {
      if x :| x in d.assertions && d.assertions[x].name == e.name { assert x in named; }
    }
  }

  lemma {:induction false} SvaRowsRecorded(lib: Library, d: Db, es: seq<SvaEntry>, test: Option<string>)
    requires LibraryOk(lib) && (test.Some? ==> test.value in d.tests)
    ensures var e := AddSvaRows(lib, d, es, test);
      && e == d.(sva := e.sva) && d.sva.rows <= e.sva.rows && |e.sva.rows| == |d.sva.rows| + |es|
      && forall k :: 0 <= k < |es| ==>
           var row := e.sva.rows[|d.sva.rows| + k].data;
           IsStatusRow(e, es[k], test, row) && NamesAssertion(e, es[k], test, row)
  {
    hide SvaRow, IsStatusRow, NamesAssertion, LibraryOk;
    if es != [] {
      var n := |es| - 1;
      SvaRowsRecorded(lib, d, es[..n], test);
      var front, e := AddSvaRows(lib, d, es[..n], test), AddSvaRows(lib, d, es, test);
      SvaRowIs(lib, front, es[n], test);
      forall k | 0 <= k < |es|
        ensures var row := e.sva.rows[|d.sva.rows| + k].data;
          IsStatusRow(e, es[k], test, row) && NamesAssertion(e, es[k], test, row)
      {
        if k < n { assert IsStatusRow(front, es[..n][k], test, front.sva.rows[|d.sva.rows| + k].data); }
        StatusRowStays(front, e, es[k], test, e.sva.rows[|d.sva.rows| + k].data);
      }
    }
  }

  lemma SvaLinks(lib: Library, d: Db, s: SvaFile)
    requires LibraryOk(lib) && Consistent(lib, d)
    ensures var e := IndexSva(lib, d, s); Later(d, e) && SvaLinked(e, s)
  {
    hide ResolveTest, Consistent, AddSvaRows, IsStatusRow;
    var e := IndexSva(lib, d, s);
    SvaKeeps(lib, d, s);
    SvaFrame(lib, d, s);
    var t := if Given(s.testName) then ResolveTest(d, s.testName.value, None) else None;
    if Given(s.testName) {
      SameResolution(lib, d, e, s.testName.value, None);
      OneResolvedThere(d, s.testName.value);
    }
    SvaRowsRecorded(lib, d, s.entries, t);
    if s.location.withinLimit && s.readable {
      forall k | 0 <= k < |s.entries| ensures HasStatusRow(e, s.entries[k], t) {
        assert IsStatusRow(e, s.entries[k], t, e.sva.rows[|d.sva.rows| + k].data);
      }
    }
  }

  lemma OneResolvedThere(d: Db, wanted: string)
    ensures ResolveTest(d, wanted, None).Some? ==> ResolveTest(d, wanted, None).value in d.tests
  {
  }

  lemma StatusRowStays(d: Db, e: Db, entry: SvaEntry, test: Option<string>, row: SvaStatus)
    requires d.tests == e.tests && IsStatusRow(d, entry, test, row)
    ensures IsStatusRow(e, entry, test, row)
    ensures d.assertions == e.assertions && NamesAssertion(d, entry, test, row) ==> NamesAssertion(e, entry, test, row)
  {
  }

  lemma ArtifactLinks(lib: Library, d: Db, step: Step)
    requires LibraryOk(lib) && Consistent(lib, d)
    ensures var e := IndexArtifact(lib, d, step); Later(d, e) && Linked(lib, e, step.artifact)
  {
    hide IndexUvm, IndexJunit, IndexWave, IndexBundle, IndexLogAssertions, IndexCoverage, IndexSva;
    hide Consistent, LibraryOk;
    hide BundleLinked, LogLinked, WaveLinked, CoverageLinked, SvaLinked;
    match step.artifact {
      case UvmArtifact(log) => UvmKeepsLinks(lib, d, step.now, log);
      case JunitArtifact(file) => JunitKeepsLinks(lib, d, step.now, file);
      case WaveArtifact(wave) => WaveLinks(lib, d, wave);
      case BundleArtifact(b) => BundleLinks(lib, d, b);
      case LogAssertionsArtifact(log) => LogLinks(lib, d, log);
      case CoverageArtifact(c) => CoverageLinks(lib, d, step.now, c);
      case SvaArtifact(s) => SvaLinks(lib, d, s);
    }
  }

  // ---- and stays linked while no result comes in ----

  lemma FailureRowsStay(d: Db, e: Db, f: BundleFailure, t: string)
    requires d.tests == e.tests && d.assertionFailures.rows <= e.assertionFailures.rows && HasFailureRow(d, f, t)
    ensures HasFailureRow(e, f, t)
  {
    var k :| 0 <= k < |d.assertionFailures.rows| && IsFailureRow(d, d.assertionFailures.rows[k].data, f, t);
    assert IsFailureRow(e, e.assertionFailures.rows[k].data, f, t);
  }

  lemma CoverageStays(lib: Library, d: Db, e: Db, c: CoverageFile)
    requires Consistent(lib, d) && Consistent(lib, e) && d.tests == e.tests && Later(d, e) && CoverageLinked(lib, d, c)
    ensures CoverageLinked(lib, e, c)
  {
    hide Consistent, ResolveTwice, RunIdOf;
    if Given(c.testName) { SameResolution(lib, d, e, c.testName.value, None); }
    if c.location.withinLimit && c.readable {
      var k :| 0 <= k < |d.coverage.rows| && IsCoverageRow(lib, d, c, d.coverage.rows[k].data);
      assert IsCoverageRow(lib, e, c, e.coverage.rows[k].data);
    }
  }

  lemma SvaStays(lib: Library, d: Db, e: Db, s: SvaFile)
    requires Consistent(lib, d) && Consistent(lib, e) && d.tests == e.tests && Later(d, e) && SvaLinked(d, s)
    ensures SvaLinked(e, s)
  {
    hide Consistent, ResolveTest, IsStatusRow;
    if Given(s.testName) { SameResolution(lib, d, e, s.testName.value, None); }
    if s.location.withinLimit && s.readable {
      var t := if Given(s.testName) then ResolveTest(d, s.testName.value, None) else None;
      forall k | 0 <= k < |s.entries| ensures HasStatusRow(e, s.entries[k], t) {
        assert HasStatusRow(d, s.entries[k], t);
        var i :| 0 <= i < |d.sva.rows| && IsStatusRow(d, s.entries[k], t, d.sva.rows[i].data);
        StatusRowStays(d, e, s.entries[k], t, e.sva.rows[i].data);
      }
    }
  }

  lemma BundleStays(lib: Library, d: Db, e: Db, b: Bundle)
    requires Consistent(lib, d) && Consistent(lib, e) && d.tests == e.tests && Later(d, e) && BundleLinked(lib, d, b)
    ensures BundleLinked(lib, e, b)
  {
    hide Consistent, ResolveTwice, HasFailureRow, DefinitionIdOf;
    if b.location.withinLimit && b.readable && Given(b.testName) {
      SameResolution(lib, d, e, b.testName.value, None);
      var t := ResolveTwice(d, b.testName.value);
      if t.Some? {
        forall k | 0 <= k < |b.failures| ensures HasFailureRow(e, b.failures[k], t.value) {
          FailureRowsStay(d, e, b.failures[k], t.value);
        }
      }
    }
  }

  lemma LogStays(lib: Library, d: Db, e: Db, log: UvmLog)
    requires Consistent(lib, d) && Consistent(lib, e) && d.tests == e.tests && Later(d, e) && LogLinked(d, log)
    ensures LogLinked(e, log)
  {
    hide Consistent, ResolveTest, HasFailureRow;
    if log.location.withinLimit && log.test.Some? && log.test.value.name != "" {
      SameResolution(lib, d, e, log.test.value.name, Some("uvm"));
      var t := ResolveTest(d, log.test.value.name, Some("uvm"));
      if t.Some? {
        forall k | 0 <= k < |log.assertionFailures| ensures HasFailureRow(e, log.assertionFailures[k], t.value) {
          FailureRowsStay(d, e, log.assertionFailures[k], t.value);
        }
      }
    }
  }

  lemma LinkedStays(lib: Library, d: Db, e: Db, a: Artifact)
    requires Consistent(lib, d) && Consistent(lib, e) && d.tests == e.tests && Later(d, e) && Linked(lib, d, a)
    ensures Linked(lib, e, a)
  {
    hide Consistent, BundleLinked, LogLinked, CoverageLinked, SvaLinked;
    match a {
      case WaveArtifact(wave) => SameResolution(lib, d, e, wave.testName, LowerOption(wave.framework));
      case BundleArtifact(b) => BundleStays(lib, d, e, b);
      case LogAssertionsArtifact(log) => LogStays(lib, d, e, log);
      case CoverageArtifact(c) => CoverageStays(lib, d, e, c);
      case SvaArtifact(s) => SvaStays(lib, d, e, s);
      case _ =>
    }
  }

  /** Once no more results come in, every artifact is linked in the finished index to the test it names there. */
  lemma {:induction false} OthersLinked(lib: Library, results: seq<Step>, others: seq<Step>)
    requires LibraryOk(lib) && forall i :: 0 <= i < |others| ==> !IsResult(others[i].artifact)
    ensures var d := IndexSteps(lib, EMPTY, results + others);
      && d.tests == IndexSteps(lib, EMPTY, results).tests
      && forall i :: 0 <= i < |others| ==> Linked(lib, d, others[i].artifact)
  {
    hide IndexArtifact, Linked, LibraryOk, Consistent;
    if others == [] {
      assert results + others == results;
    } else {
      var n := |others| - 1;
      var before := results + others[..n];
      assert (results + others)[..|before|] == before;
      OthersLinked(lib, results, others[..n]);
      ReachableConsistent(lib, before);
      ReachableConsistent(lib, results + others);
      var d, e := IndexSteps(lib, EMPTY, before), IndexSteps(lib, EMPTY, results + others);
      ArtifactLinks(lib, d, others[n]);
      OthersFrame(lib, d, others[n]);
      forall i | 0 <= i < |others| ensures Linked(lib, e, others[i].artifact) {
        if i < n {
          assert Linked(lib, d, others[..n][i].artifact);
          LinkedStays(lib, d, e, others[i].artifact);
        }
      }
    }
  }

  /** With the assertions all there, each status entry finds the assertion it names. */
  ghost predicate SvaNamed(d: Db, s: SvaFile) {
    s.location.withinLimit && s.readable ==>
      var t := if Given(s.testName) then ResolveTest(d, s.testName.value, None) else None;
      forall k :: 0 <= k < |s.entries| ==> HasNamedRow(d, s.entries[k], t)
  }

  ghost predicate HasNamedRow(d: Db, e: SvaEntry, test: Option<string>) {
    exists k :: 0 <= k < |d.sva.rows|
      && IsStatusRow(d, e, test, d.sva.rows[k].data) && NamesAssertion(d, e, test, d.sva.rows[k].data)
  }

  lemma SvaNames(lib: Library, d: Db, s: SvaFile)
    requires LibraryOk(lib) && Consistent(lib, d)
    ensures var e := IndexSva(lib, d, s); SvaNamed(e, s) && e.assertions == d.assertions
  {
    hide ResolveTest, Consistent, AddSvaRows, IsStatusRow, NamesAssertion;
    var e := IndexSva(lib, d, s);
    SvaKeeps(lib, d, s);
    SvaFrame(lib, d, s);
    SvaLeaves(lib, d, s);
    var t := if Given(s.testName) then ResolveTest(d, s.testName.value, None) else None;
    if Given(s.testName) {
      SameResolution(lib, d, e, s.testName.value, None);
      OneResolvedThere(d, s.testName.value);
    }
    SvaRowsRecorded(lib, d, s.entries, t);
    if s.location.withinLimit && s.readable {
      forall k | 0 <= k < |s.entries| ensures HasNamedRow(e, s.entries[k], t) {
        var row := e.sva.rows[|d.sva.rows| + k].data;
        assert IsStatusRow(e, s.entries[k], t, row) && NamesAssertion(e, s.entries[k], t, row);
      }
    }
  }

  lemma SvaNamedStays(lib: Library, d: Db, e: Db, s: SvaFile)
    requires Consistent(lib, d) && Consistent(lib, e) && d.tests == e.tests && d.assertions == e.assertions
    requires d.sva.rows <= e.sva.rows && SvaNamed(d, s)
    ensures SvaNamed(e, s)
  {
    hide Consistent, ResolveTest, IsStatusRow, NamesAssertion;
    if Given(s.testName) { SameResolution(lib, d, e, s.testName.value, None); }
    if s.location.withinLimit && s.readable {
      var t := if Given(s.testName) then ResolveTest(d, s.testName.value, None) else None;
      forall k | 0 <= k < |s.entries| ensures HasNamedRow(e, s.entries[k], t) {
        assert HasNamedRow(d, s.entries[k], t);
        var i :| 0 <= i < |d.sva.rows|
          && IsStatusRow(d, s.entries[k], t, d.sva.rows[i].data)
          && NamesAssertion(d, s.entries[k], t, d.sva.rows[i].data);
        StatusRowStays(d, e, s.entries[k], t, e.sva.rows[i].data);
      }
    }
  }

  lemma {:induction false} StatusNamesAssertions(lib: Library, front: seq<Step>, svas: seq<Step>)
    requires LibraryOk(lib) && forall i :: 0 <= i < |svas| ==> svas[i].artifact.SvaArtifact?
    ensures forall i :: 0 <= i < |svas| ==> SvaNamed(IndexSteps(lib, EMPTY, front + svas), svas[i].artifact.sva)
  {
    hide IndexSva, SvaNamed, LibraryOk, Consistent;
    if svas != [] {
      var n := |svas| - 1;
      var before := front + svas[..n];
      assert (front + svas)[..|before|] == before;
      StatusNamesAssertions(lib, front, svas[..n]);
      ReachableConsistent(lib, before);
      ReachableConsistent(lib, front + svas);
      var d, e, s := IndexSteps(lib, EMPTY, before), IndexSteps(lib, EMPTY, front + svas), svas[n].artifact.sva;
      assert e == IndexSva(lib, d, s);
      SvaNames(lib, d, s);
      SvaLinks(lib, d, s);
      OthersFrame(lib, d, svas[n]);
      forall i | 0 <= i < |svas| ensures SvaNamed(e, svas[i].artifact.sva) {
        if i < n {
          assert SvaNamed(d, svas[..n][i].artifact.sva);
          SvaNamedStays(lib, d, e, svas[i].artifact.sva);
        }
      }
    }
  }

  // ---- results ----

  ghost predicate TestHeld(lib: Library, d: Db, runId: string, framework: string, name: string) {
    var t := TestIdOf(lib, runId, framework, name);
    t in d.tests && d.tests[t].runId == runId && runId in d.runs && d.tests[t].framework == framework
  }

  /** The tests of a result are there, in its run. */
  ghost predicate ResultHeld(lib: Library, d: Db, a: Artifact) {
    match a
    case UvmArtifact(log) =>
      log.location.withinLimit && log.test.Some? ==>
        TestHeld(lib, d, RunIdOf(lib, log.location, false), "uvm", log.test.value.name)
    case JunitArtifact(file) =>
      file.location.withinLimit ==> forall k :: 0 <= k < |file.cases| ==>
        TestHeld(lib, d, RunIdOf(lib, file.location, true), "cocotb", file.cases[k].test.name)
    case _ => true
  }

  lemma {:induction false} WritesOfStep(lib: Library, steps: seq<Step>, i: nat, k: nat)
    requires i < |steps| && k < |TestWrites(lib, steps[i])|
    ensures var ws := AllTestWrites(lib, steps); exists j: nat :: j < |ws| && ws[j] == TestWrites(lib, steps[i])[k]
  {
    hide TestWrites;
    var n := |steps| - 1;
    var front, last := AllTestWrites(lib, steps[..n]), TestWrites(lib, steps[n]);
    assert AllTestWrites(lib, steps) == front + last;
    if i < n {
      assert steps[..n][i] == steps[i];
      WritesOfStep(lib, steps[..n], i, k);
      var j: nat :| j < |front| && front[j] == TestWrites(lib, steps[i])[k];
      assert (front + last)[j] == front[j];
    } else {
      assert (front + last)[|front| + k] == last[k];
    }
  }

  /** A written test is there. Its row is that of a write with the same id, hence of the same run and framework. */
  lemma WrittenHeld(lib: Library, steps: seq<Step>, i: nat, k: nat)
    requires LibraryOk(lib) && i < |steps| && k < |TestWrites(lib, steps[i])|
    ensures TestWrites(lib, steps[i])[k].id in IndexSteps(lib, EMPTY, steps).tests
  {
    hide TestWrites, IndexSteps, AllTestWrites;
    WritesOfStep(lib, steps, i, k);
    var ws := AllTestWrites(lib, steps);
    var j: nat :| j < |ws| && ws[j] == TestWrites(lib, steps[i])[k];
    TestsAreWrites(lib, steps);
    LastWriteExists(ws, j);
    WritesLast(ws, ws[j].id);
  }

  lemma {:induction false} LastWriteExists(ws: seq<TestWrite>, i: nat)
    requires i < |ws|
    ensures exists k: nat :: IsLast(ws, k) && ws[k].id == ws[i].id
    decreases |ws| - i
  {
    if !IsLast(ws, i) {
      var j :| i < j < |ws| && ws[j].id == ws[i].id;
      LastWriteExists(ws, j);
    }
  }

  const FRAMEWORKS := {"uvm", "cocotb"}

  /** The framework of a test in the index is one of the two, spelled as they are. */
  lemma FrameworkIs(lib: Library, steps: seq<Step>, runId: string, framework: string, name: string)
    requires LibraryOk(lib) && framework in FRAMEWORKS
    requires TestIdOf(lib, runId, framework, name) in IndexSteps(lib, EMPTY, steps).tests
    ensures TestHeld(lib, IndexSteps(lib, EMPTY, steps), runId, framework, name)
  {
    hide IndexSteps, AllTestWrites;
    var d, t := IndexSteps(lib, EMPTY, steps), TestIdOf(lib, runId, framework, name);
    ReachableConsistent(lib, steps);
    assert TestOk(lib, d, t);
    var row := d.tests[t];
    assert NoCollision(lib, TestId(runId, Normalize(framework, false), Normalize(name, true)),
      TestId(row.runId, Normalize(row.framework, false), Normalize(row.name, true)));
    var ws := AllTestWrites(lib, steps);
    TestsAreWrites(lib, steps);
    WritesLast(ws, t);
    var k: nat :| IsLast(ws, k) && ws[k].id == t;
    WriteFramework(lib, steps, k);
    FrameworksApart();
  }

  lemma FrameworksApart()
    ensures Normalize("uvm", false) != Normalize("cocotb", false)
  {
    hide PythonText.Lower, PythonText.Strip, Unify;
    PlainNormalized("uvm");
    PlainNormalized("cocotb");
  }

  lemma PlainNormalized(s: string)
    requires '\r' !in s && '\\' !in s && PythonText.Trimmed(s) && forall i :: 0 <= i < |s| ==> !('A' <= s[i] <= 'Z')
    ensures Normalize(s, false) == s
  {
    hide PythonText.Lower, PythonText.Strip, Unify;
    PythonText.LowerFixed(s);
    PythonText.StripPadded("", s, "");
    assert "" + s + "" == s;
    PlainUnified(s);
  }

  lemma {:induction false} PlainUnified(s: string)
    requires '\r' !in s && '\\' !in s
    ensures Unify(s) == s
  {
    if s != "" {
      assert s[0] in s && s == [s[0]] + s[1..];
      PlainUnified(s[1..]);
    }
  }

  lemma {:induction false} WriteFramework(lib: Library, steps: seq<Step>, k: nat)
    requires k < |AllTestWrites(lib, steps)|
    ensures AllTestWrites(lib, steps)[k].row.framework in FRAMEWORKS
    ensures exists i :: 0 <= i < |steps| && Reports(steps[i].artifact, AllTestWrites(lib, steps)[k].row.framework)
  {
    hide RunIdOf, TestIdOf;
    var n := |steps| - 1;
    var front := AllTestWrites(lib, steps[..n]);
    if k < |front| {
      WriteFramework(lib, steps[..n], k);
      assert forall i :: 0 <= i < n ==> steps[..n][i] == steps[i];
    } else {
      assert AllTestWrites(lib, steps)[k] == TestWrites(lib, steps[n])[k - |front|];
      assert Reports(steps[n].artifact, AllTestWrites(lib, steps)[k].row.framework);
    }
  }

  predicate Reports(a: Artifact, framework: string) {
    (a.UvmArtifact? && framework == "uvm") || (a.JunitArtifact? && framework == "cocotb")
  }

  /** Every test of every result is there in the finished index. */
  lemma ResultsHeld(lib: Library, steps: seq<Step>, i: nat)
    requires LibraryOk(lib) && i < |steps|
    ensures ResultHeld(lib, IndexSteps(lib, EMPTY, steps), steps[i].artifact)
  {
    hide IndexSteps, RunIdOf, TestIdOf, TestHeld, LibraryOk;
    match steps[i].artifact {
      case UvmArtifact(log) =>
        if log.location.withinLimit && log.test.Some? {
          WrittenHeld(lib, steps, i, 0);
          FrameworkIs(lib, steps, RunIdOf(lib, log.location, false), "uvm", log.test.value.name);
        }
      case JunitArtifact(file) =>
        if file.location.withinLimit {
          forall k | 0 <= k < |file.cases|
            ensures TestHeld(lib, IndexSteps(lib, EMPTY, steps),
              RunIdOf(lib, file.location, true), "cocotb", file.cases[k].test.name)
          {
            WrittenHeld(lib, steps, i, k);
            FrameworkIs(lib, steps, RunIdOf(lib, file.location, true), "cocotb", file.cases[k].test.name);
          }
        }
      case _ =>
    }
  }

  // ---- nothing comes from artifacts that are not there ----

  lemma BundleLeaves(lib: Library, d: Db, step: Step)
    requires step.artifact.BundleArtifact? || step.artifact.LogAssertionsArtifact?
    requires Consistent(lib, d)
    ensures var e := IndexArtifact(lib, d, step);
      e.waveforms == d.waveforms && e.coverage == d.coverage && e.sva == d.sva
  {
    hide IndexBundle, IndexLogAssertions;
    match step.artifact {
      case BundleArtifact(b) => BundleLinks(lib, d, b);
      case LogAssertionsArtifact(log) => LogLinks(lib, d, log);
      case _ =>
    }
  }

  lemma WaveLeaves(lib: Library, d: Db, wave: WaveFile)
    ensures var e := IndexWave(lib, d, wave); SameLinks(d, e.(waveforms := d.waveforms))
  {
    hide FindEither;
  }

  lemma CoverageLeaves(lib: Library, d: Db, now: string, c: CoverageFile)
    ensures var e := IndexCoverage(lib, d, now, c); SameLinks(d, e.(coverage := d.coverage))
  {
    hide RunIdOf, UpsertRun, PutCoverage, CoverageTest, NewRun, SameLinks;
    var e := IndexCoverage(lib, d, now, c);
    SameLinksAgain(d);
    if c.location.withinLimit && c.readable {
      OneReport(lib, d, now, c);
    }
  }

  lemma SameLinksAgain(d: Db)
    ensures SameLinks(d, d.(coverage := d.coverage))
  {
  }

  lemma SvaLeaves(lib: Library, d: Db, s: SvaFile)
    requires LibraryOk(lib)
    ensures var e := IndexSva(lib, d, s); SameLinks(d, e.(sva := d.sva))
  {
    hide AddSvaRows, IsStatusRow, LibraryOk;
    var t := if Given(s.testName) then ResolveTest(d, s.testName.value, None) else None;
    SvaRowsRecorded(lib, d, s.entries, t);
  }

  lemma OneTableLeft(lib: Library, d: Db, step: Step)
    requires LibraryOk(lib) && Consistent(lib, d)
    ensures var e, a := IndexArtifact(lib, d, step), step.artifact;
      && (!a.WaveArtifact? ==> e.waveforms == d.waveforms)
      && (!a.BundleArtifact? && !a.LogAssertionsArtifact? ==>
            e.assertions == d.assertions && e.assertionFailures == d.assertionFailures)
      && (!a.CoverageArtifact? ==> e.coverage == d.coverage)
      && (!a.SvaArtifact? ==> e.sva == d.sva)
  {
    hide IndexUvm, IndexJunit, IndexWave, IndexBundle, IndexLogAssertions, IndexCoverage, IndexSva;
    hide Consistent, LibraryOk;
    match step.artifact {
      case UvmArtifact(log) => UvmKeepsLinks(lib, d, step.now, log);
      case JunitArtifact(file) => JunitKeepsLinks(lib, d, step.now, file);
      case WaveArtifact(wave) => WaveLeaves(lib, d, wave);
      case BundleArtifact(b) => BundleLeaves(lib, d, step);
      case LogAssertionsArtifact(log) => BundleLeaves(lib, d, step);
      case CoverageArtifact(c) => CoverageLeaves(lib, d, step.now, c);
      case SvaArtifact(s) => SvaLeaves(lib, d, s);
    }
  }

  ghost predicate Occurs(steps: seq<Step>, p: Artifact -> bool) { exists i :: 0 <= i < |steps| && p(steps[i].artifact) }

  /** Without waveform files there are no waveforms, without bundles no assertions, and so on. */
  lemma {:induction false} NothingFromNothing(lib: Library, steps: seq<Step>)
    requires LibraryOk(lib)
    ensures var d := IndexSteps(lib, EMPTY, steps);
      && (!Occurs(steps, (a: Artifact) => a.WaveArtifact?) ==> d.waveforms == map[])
      && (!Occurs(steps, (a: Artifact) => a.BundleArtifact? || a.LogAssertionsArtifact?) ==>
            d.assertions == map[] && d.assertionFailures.rows == [])
      && (!Occurs(steps, (a: Artifact) => a.CoverageArtifact?) ==> d.coverage.rows == [])
      && (!Occurs(steps, (a: Artifact) => a.SvaArtifact?) ==> d.sva.rows == [])
  {
    hide IndexArtifact, Consistent, LibraryOk;
    if steps != [] {
      var n := |steps| - 1;
      NothingFromNothing(lib, steps[..n]);
      ReachableConsistent(lib, steps[..n]);
      OneTableLeft(lib, IndexSteps(lib, EMPTY, steps[..n]), steps[n]);
      assert forall i :: 0 <= i < n ==> steps[..n][i] == steps[i];
    }
  }

  /** A test of a framework comes from an artifact of that framework. */
  lemma TestsComeFrom(lib: Library, steps: seq<Step>, t: string)
    requires t in IndexSteps(lib, EMPTY, steps).tests
    ensures exists i :: 0 <= i < |steps| && Reports(steps[i].artifact, IndexSteps(lib, EMPTY, steps).tests[t].framework)
  {
    hide IndexSteps, AllTestWrites, Reports;
    var ws := AllTestWrites(lib, steps);
    TestsAreWrites(lib, steps);
    WritesLast(ws, t);
    var k: nat :| IsLast(ws, k) && ws[k].id == t;
    WriteFramework(lib, steps, k);
  }

  /** A waveform in the index is what some file of that test says. */
  ghost predicate WaveFrom(d: Db, a: Artifact, t: string) {
    && t in d.waveforms && a.WaveArtifact? && a.wave.readable && a.wave.location.withinLimit
    && FindEither(d, a.wave.testName, LowerOption(a.wave.framework)) == Some(t)
    && d.waveforms[t].format == a.wave.format && d.waveforms[t].endTimeNs == a.wave.endTimeNs
    && d.waveforms[t].sourcePath == a.wave.location.path
  }

  lemma WaveFromStays(lib: Library, d: Db, e: Db, a: Artifact, t: string)
    requires Consistent(lib, d) && Consistent(lib, e) && d.tests == e.tests
    requires WaveFrom(d, a, t) && Lookup(e.waveforms, t) == Lookup(d.waveforms, t)
    ensures WaveFrom(e, a, t)
  {
    hide Consistent, FindEither;
    SameResolution(lib, d, e, a.wave.testName, LowerOption(a.wave.framework));
  }

  /** One step either writes the waveform or leaves it. */
  lemma WaveStep(lib: Library, d: Db, step: Step, t: string)
    requires LibraryOk(lib) && Consistent(lib, d) && !IsResult(step.artifact)
    ensures var e := IndexArtifact(lib, d, step);
      WaveFrom(e, step.artifact, t) || Lookup(e.waveforms, t) == Lookup(d.waveforms, t)
  {
    hide Consistent, FindEither, IndexArtifact, LibraryOk;
    var e := IndexArtifact(lib, d, step);
    if step.artifact.WaveArtifact? && WaveWritten(d, step.artifact.wave, t) {
      var wave := step.artifact.wave;
      NewWave(lib, d, step, t);
      ArtifactKeeps(lib, d, step);
      OthersFrame(lib, d, step);
      SameResolution(lib, d, e, wave.testName, LowerOption(wave.framework));
    } else {
      OldWave(lib, d, step, t);
    }
  }

  lemma {:induction false} WavesComeFrom(lib: Library, results: seq<Step>, others: seq<Step>, t: string)
    requires LibraryOk(lib)
    requires forall i :: 0 <= i < |results| ==> IsResult(results[i].artifact)
    requires forall i :: 0 <= i < |others| ==> !IsResult(others[i].artifact)
    requires t in IndexSteps(lib, EMPTY, results + others).waveforms
    ensures exists i :: 0 <= i < |others| && WaveFrom(IndexSteps(lib, EMPTY, results + others), others[i].artifact, t)
  {
    hide IndexArtifact, LibraryOk, Consistent, WaveFrom, IsResult;
    if others == [] {
      assert results + others == results;
      NoWavesYet(lib, results);
    } else {
      var n := |others| - 1;
      var before := results + others[..n];
      assert (results + others)[..|before|] == before;
      var d, e := IndexSteps(lib, EMPTY, before), IndexSteps(lib, EMPTY, results + others);
      ReachableConsistent(lib, before);
      ReachableConsistent(lib, results + others);
      NotResults(others[n]);
      OthersFrame(lib, d, others[n]);
      WaveStep(lib, d, others[n], t);
      if !WaveFrom(e, others[n].artifact, t) {
        WavesComeFrom(lib, results, others[..n], t);
        var i :| 0 <= i < n && WaveFrom(d, others[..n][i].artifact, t);
        WaveFromStays(lib, d, e, others[i].artifact, t);
      }
    }
  }

  lemma NotResults(step: Step)
    ensures IsResult(step.artifact) <==> step.artifact.UvmArtifact? || step.artifact.JunitArtifact?
  {
  }

  lemma NoWavesYet(lib: Library, results: seq<Step>)
    requires LibraryOk(lib) && forall i :: 0 <= i < |results| ==> IsResult(results[i].artifact)
    ensures IndexSteps(lib, EMPTY, results).waveforms == map[]
  {
    hide IndexSteps, LibraryOk;
    NothingFromNothing(lib, results);
  }

  ghost predicate WaveWritten(d: Db, wave: WaveFile, t: string) {
    wave.location.withinLimit && wave.readable && FindEither(d, wave.testName, LowerOption(wave.framework)) == Some(t)
  }

  lemma NewWave(lib: Library, d: Db, step: Step, t: string)
    requires step.artifact.WaveArtifact? && WaveWritten(d, step.artifact.wave, t)
    ensures var e, w := IndexArtifact(lib, d, step), step.artifact.wave;
      t in e.waveforms && e.waveforms[t] == Waveform(w.format, w.endTimeNs, w.location.path)
  {
    hide FindEither;
  }

  lemma OldWave(lib: Library, d: Db, step: Step, t: string)
    requires LibraryOk(lib) && Consistent(lib, d)
    requires step.artifact.WaveArtifact? ==> !WaveWritten(d, step.artifact.wave, t)
    ensures Lookup(IndexArtifact(lib, d, step).waveforms, t) == Lookup(d.waveforms, t)
  {
    hide FindEither, Consistent;
    if !step.artifact.WaveArtifact? {
      hide IndexArtifact;
      OneTableLeft(lib, d, step);
    }
  }
}
