/** What holds in every state the indexer can reach, and what a run's status says. */
module IndexInvariants {
  import opened Common
  import opened Tables
  import opened StoreModel
  import opened IndexingModel
  import opened Ids

  /** The test exists and lies in this run. */
  ghost predicate Belongs(d: Db, testId: string, runId: string) {
    testId in d.tests && d.tests[testId].runId == runId
  }

  ghost predicate RunFails(d: Db, runId: string) {
    runId in d.runs && d.runs[runId].status == "fail"
  }

  /** A test lies in an indexed run, carries the id of its run, framework and name, and fails only in failing runs. */
  ghost predicate TestRowOk(lib: Library, d: Db, t: string, row: Test) {
    && row.runId in d.runs
    && t == TestIdOf(lib, row.runId, row.framework, row.name)
    && (row.status == "fail" ==> RunFails(d, row.runId))
  }

  ghost predicate FailureRowOk(d: Db, f: Tables.Failure) { Belongs(d, f.testId, f.runId) && RunFails(d, f.runId) }

  ghost predicate AssertionFailureOk(d: Db, a: AssertionFailure) {
    Belongs(d, a.testId, a.runId) && a.assertionId in d.assertions
  }

  ghost predicate CoverageRowOk(d: Db, c: Coverage) {
    c.runId in d.runs && (c.testId.Some? ==> Belongs(d, c.testId.value, c.runId))
  }

  /** Rows of an unresolved test carry no ids at all. */
  ghost predicate SvaRowOk(d: Db, s: SvaStatus) {
    && ((s.testId == "" && s.runId == "") || Belongs(d, s.testId, s.runId))
    && (s.assertionId == "" || s.assertionId in d.assertions)
  }

  ghost predicate RunOk(d: Db, r: string) {
    r in d.runs ==> d.runs[r].status == "pass" || d.runs[r].status == "fail"
  }

  ghost predicate TestOk(lib: Library, d: Db, t: string) { t in d.tests ==> TestRowOk(lib, d, t, d.tests[t]) }

  ghost predicate FailureOk(d: Db, f: string) { f in d.failures ==> FailureRowOk(d, d.failures[f]) }

  ghost predicate AssertionFailureAt(d: Db, i: int) {
    0 <= i < |d.assertionFailures.rows| ==> AssertionFailureOk(d, d.assertionFailures.rows[i].data)
  }

  ghost predicate CoverageAt(d: Db, i: int) {
    0 <= i < |d.coverage.rows| ==> CoverageRowOk(d, d.coverage.rows[i].data)
  }

  ghost predicate SvaAt(d: Db, i: int) { 0 <= i < |d.sva.rows| ==> SvaRowOk(d, d.sva.rows[i].data) }

  /** Topologies and waveforms belong to indexed tests. */
  ghost predicate LinkOk(d: Db, t: string) { t in d.topologies || t in d.waveforms ==> t in d.tests }

  ghost predicate Consistent(lib: Library, d: Db) {
    && (forall r :: RunOk(d, r))
    && (forall t :: TestOk(lib, d, t))
    && (forall f :: FailureOk(d, f))
    && (forall i :: AssertionFailureAt(d, i))
    && (forall i :: CoverageAt(d, i))
    && (forall i :: SvaAt(d, i))
    && (forall t :: LinkOk(d, t))
    && NumberingOk(d)
  }

  // ---- single writes ----

  /** Runs and assertions are only added, tests stay in their runs, and failing runs keep failing. */
  ghost predicate Extends(d: Db, e: Db) {
    && d.runs.Keys <= e.runs.Keys
    && d.assertions.Keys <= e.assertions.Keys
    && (forall t :: t in d.tests ==> t in e.tests && e.tests[t].runId == d.tests[t].runId)
    && forall r :: RunFails(d, r) ==> RunFails(e, r)
  }

  /** What is sound about a row stays sound when the index is extended. */
  lemma RowsCarryOver(lib: Library, d: Db, e: Db)
    requires Extends(d, e)
    ensures forall t, row :: TestRowOk(lib, d, t, row) ==> TestRowOk(lib, e, t, row)
    ensures forall f :: FailureRowOk(d, f) ==> FailureRowOk(e, f)
    ensures forall a :: AssertionFailureOk(d, a) ==> AssertionFailureOk(e, a)
    ensures forall c :: CoverageRowOk(d, c) ==> CoverageRowOk(e, c)
    ensures forall s :: SvaRowOk(d, s) ==> SvaRowOk(e, s)
  {
  }

  /** Numbered tables that did not change stay sound. */
  lemma NumberedCarryOver(lib: Library, d: Db, e: Db)
    requires Consistent(lib, d) && Extends(d, e)
    ensures e.assertionFailures == d.assertionFailures ==> forall i :: AssertionFailureAt(e, i)
    ensures e.coverage == d.coverage ==> forall i :: CoverageAt(e, i)
    ensures e.sva == d.sva ==> forall i :: SvaAt(e, i)
  {
    hide AssertionFailureOk, CoverageRowOk, SvaRowOk, TestOk, FailureOk, RunOk, LinkOk;
    RowsCarryOver(lib, d, e);
    if e.assertionFailures == d.assertionFailures {
      forall i ensures AssertionFailureAt(e, i) { assert AssertionFailureAt(d, i); }
    }
    if e.coverage == d.coverage { forall i ensures CoverageAt(e, i) { assert CoverageAt(d, i); } }
    if e.sva == d.sva { forall i ensures SvaAt(e, i) { assert SvaAt(d, i); } }
  }

  /** So do the tables with keys. */
  lemma TablesCarryOver(lib: Library, d: Db, e: Db)
    requires Consistent(lib, d) && Extends(d, e)
    ensures e.failures == d.failures ==> forall f :: FailureOk(e, f)
    ensures e.assertionFailures == d.assertionFailures ==> forall i :: AssertionFailureAt(e, i)
    ensures e.coverage == d.coverage ==> forall i :: CoverageAt(e, i)
    ensures e.sva == d.sva ==> forall i :: SvaAt(e, i)
    ensures e.topologies == d.topologies && e.waveforms == d.waveforms ==> forall t :: LinkOk(e, t)
    ensures e.tests == d.tests ==> forall t :: TestOk(lib, e, t)
    ensures e.runs == d.runs ==> forall r :: RunOk(e, r)
  {
    hide FailureRowOk, TestRowOk, AssertionFailureAt, CoverageAt, SvaAt;
    RowsCarryOver(lib, d, e);
    NumberedCarryOver(lib, d, e);
    if e.failures == d.failures { forall f ensures FailureOk(e, f) { assert FailureOk(d, f); } }
    if e.topologies == d.topologies && e.waveforms == d.waveforms {
      forall t ensures LinkOk(e, t) { assert LinkOk(d, t); }
    }
    if e.tests == d.tests { forall t ensures TestOk(lib, e, t) { assert TestOk(lib, d, t); } }
    if e.runs == d.runs { forall r ensures RunOk(e, r) { assert RunOk(d, r); } }
  }

  lemma PutRunKeeps(lib: Library, d: Db, id: string, row: Run)
    requires Consistent(lib, d)
    requires row.status == "pass" || row.status == "fail"
    requires RunFails(d, id) ==> row.status == "fail"
    ensures Consistent(lib, PutRun(d, id, row))
  {
    var e := PutRun(d, id, row);
    TablesCarryOver(lib, d, e);
    forall r ensures RunOk(e, r) { assert RunOk(d, r); }
  }

  /** A rewritten test stays in its run, because its id is the digest of that run. */
  lemma TestStaysInRun(lib: Library, d: Db, id: string, row: Test)
    requires LibraryOk(lib) && Consistent(lib, d) && id in d.tests
    requires id == TestIdOf(lib, row.runId, row.framework, row.name)
    ensures d.tests[id].runId == row.runId
  {
    assert TestOk(lib, d, id);
    var was := d.tests[id];
    assert NoCollision(lib,
      TestId(row.runId, Normalize(row.framework, false), Normalize(row.name, true)),
      TestId(was.runId, Normalize(was.framework, false), Normalize(was.name, true)));
  }

  lemma PutTestKeeps(lib: Library, d: Db, id: string, row: Test)
    requires LibraryOk(lib) && Consistent(lib, d) && TestRowOk(lib, d, id, row)
    ensures Consistent(lib, PutTest(d, id, row))
  {
    var e := PutTest(d, id, row);
    if id in d.tests { TestStaysInRun(lib, d, id, row); }
    TablesCarryOver(lib, d, e);
    RowsCarryOver(lib, d, e);
    forall t ensures TestOk(lib, e, t) { assert TestOk(lib, d, t); }
    forall t ensures LinkOk(e, t) { assert LinkOk(d, t); }
  }

  lemma PutFailureKeeps(lib: Library, d: Db, id: string, row: Tables.Failure, refs: seq<EvidenceRef>)
    requires Consistent(lib, d) && FailureRowOk(d, row)
    ensures Consistent(lib, PutFailure(d, id, row, refs))
  {
    var e := PutFailure(d, id, row, refs);
    PerformNumbering(d, WriteFailure(id, row, refs));
    TablesCarryOver(lib, d, e);
    RowsCarryOver(lib, d, e);
    forall f ensures FailureOk(e, f) { assert FailureOk(d, f); }
  }

  lemma PutAssertionKeeps(lib: Library, d: Db, id: string, row: Assertion)
    requires Consistent(lib, d)
    ensures Consistent(lib, PutAssertion(d, id, row))
  {
    TablesCarryOver(lib, d, PutAssertion(d, id, row));
  }

  lemma PutAssertionFailureKeeps(lib: Library, d: Db, row: AssertionFailure, refs: seq<EvidenceRef>)
    requires Consistent(lib, d) && AssertionFailureOk(d, row)
    ensures Consistent(lib, PutAssertionFailure(d, row, refs))
  {
    var e := PutAssertionFailure(d, row, refs);
    PerformNumbering(d, WriteAssertionFailure(row, refs));
    TablesCarryOver(lib, d, e);
    RowsCarryOver(lib, d, e);
    forall i ensures AssertionFailureAt(e, i) { assert AssertionFailureAt(d, i); }
  }

  lemma PutCoverageKeeps(lib: Library, d: Db, row: Coverage, refs: seq<EvidenceRef>)
    requires Consistent(lib, d) && CoverageRowOk(d, row)
    ensures Consistent(lib, PutCoverage(d, row, refs))
  {
    var e := PutCoverage(d, row, refs);
    PerformNumbering(d, WriteCoverage(row, refs));
    TablesCarryOver(lib, d, e);
    RowsCarryOver(lib, d, e);
    forall i ensures CoverageAt(e, i) { assert CoverageAt(d, i); }
  }

  lemma PutSvaKeeps(lib: Library, d: Db, row: SvaStatus)
    requires Consistent(lib, d) && SvaRowOk(d, row)
    ensures Consistent(lib, PutSva(d, row))
  {
    var e := PutSva(d, row);
    PerformNumbering(d, WriteSva(row));
    TablesCarryOver(lib, d, e);
    RowsCarryOver(lib, d, e);
    forall i ensures SvaAt(e, i) { assert SvaAt(d, i); }
  }

  lemma PutTopologyKeeps(lib: Library, d: Db, testId: string, topology: string)
    requires Consistent(lib, d) && testId in d.tests
    ensures Consistent(lib, PutTopology(d, testId, topology))
  {
    var e := PutTopology(d, testId, topology);
    TablesCarryOver(lib, d, e);
    forall t ensures LinkOk(e, t) { assert LinkOk(d, t); }
  }

  lemma PutWaveformKeeps(lib: Library, d: Db, testId: string, wave: Waveform)
    requires Consistent(lib, d) && testId in d.tests
    ensures Consistent(lib, PutWaveform(d, testId, wave))
  {
    var e := PutWaveform(d, testId, wave);
    TablesCarryOver(lib, d, e);
    forall t ensures LinkOk(e, t) { assert LinkOk(d, t); }
  }

  // ---- runs ----

  /** An upsert fails the run exactly when it failed already or fails now, and touches no other run. */
  lemma UpsertStatus(lib: Library, d: Db, id: string, incoming: Run)
    ensures var e := UpsertRun(lib, d, id, incoming);
      && RunFails(e, id) == (RunFails(d, id) || incoming.status == "fail")
      && (forall r :: r != id ==> RunFails(e, r) == RunFails(d, r))
      && e.runs.Keys == d.runs.Keys + {id}
  {
  }

  lemma UpsertKeeps(lib: Library, d: Db, id: string, incoming: Run)
    requires Consistent(lib, d)
    requires incoming.status == "pass" || incoming.status == "fail"
    ensures Consistent(lib, UpsertRun(lib, d, id, incoming))
  {
    PutRunKeeps(lib, d, id, MergeRun(lib, Lookup(d.runs, id), incoming));
  }

  // ---- failures of a test ----

  lemma {:induction false} FailuresFrame(lib: Library, d: Db, fs: seq<ParsedFailure>, testId: string, runId: string)
    ensures var e := IndexFailures(lib, d, fs, testId, runId); e.runs == d.runs && e.tests == d.tests
  {
    if fs != [] { FailuresFrame(lib, d, fs[..|fs| - 1], testId, runId); }
  }

  lemma {:induction false} FailuresKeep(lib: Library, d: Db, fs: seq<ParsedFailure>, testId: string, runId: string)
    requires Consistent(lib, d) && Belongs(d, testId, runId)
    requires fs != [] ==> RunFails(d, runId)
    ensures Consistent(lib, IndexFailures(lib, d, fs, testId, runId))
  {
    if fs != [] {
      var n := |fs| - 1;
      FailuresKeep(lib, d, fs[..n], testId, runId);
      FailuresFrame(lib, d, fs[..n], testId, runId);
      PutFailureKeeps(lib, IndexFailures(lib, d, fs[..n], testId, runId),
        FailureIdOf(lib, fs[n], testId), FailureRow(lib, fs[n], testId, runId), lib.normalizeRefs(fs[n].evidence));
    }
  }

  /** The run and its test row, before topology and failures. */
  lemma RunAndTestKeep(lib: Library, d: Db, runId: string, incoming: Run, testId: string, row: Test)
    requires LibraryOk(lib) && Consistent(lib, d)
    requires incoming.status == "pass" || incoming.status == "fail"
    requires row.runId == runId && testId == TestIdOf(lib, runId, row.framework, row.name)
    requires row.status == incoming.status
    ensures var e := PutTest(UpsertRun(lib, d, runId, incoming), testId, row);
      Consistent(lib, e) && Belongs(e, testId, runId) && (incoming.status == "fail" ==> RunFails(e, runId))
  {
    UpsertKeeps(lib, d, runId, incoming);
    UpsertStatus(lib, d, runId, incoming);
    PutTestKeeps(lib, UpsertRun(lib, d, runId, incoming), testId, row);
  }

  lemma UvmBaseKeeps(lib: Library, d: Db, now: string, log: UvmLog)
    requires LibraryOk(lib) && Consistent(lib, d) && log.test.Some?
    ensures var runId := RunIdOf(lib, log.location, false);
      var e := UvmBase(lib, d, now, log);
      && Consistent(lib, e) && e.failures == d.failures
      && Belongs(e, TestIdOf(lib, runId, "uvm", log.test.value.name), runId)
      && (log.failures != [] ==> RunFails(e, runId))
  {
    hide Consistent, LibraryOk, RunIdOf, TestIdOf;
    var runId := RunIdOf(lib, log.location, false);
    var testId := TestIdOf(lib, runId, "uvm", log.test.value.name);
    var incoming := NewRun(lib, log.location, now, UvmStatus(log));
    var row := TestRow(lib, now, runId, "uvm", log.test.value, UvmStatus(log));
    RunAndTestKeep(lib, d, runId, incoming, testId, row);
    var d2 := PutTest(UpsertRun(lib, d, runId, incoming), testId, row);
    if log.topology.Some? { PutTopologyKeeps(lib, d2, testId, log.topology.value); }
  }

  lemma UvmKeeps(lib: Library, d: Db, now: string, log: UvmLog)
    requires LibraryOk(lib) && Consistent(lib, d)
    ensures Consistent(lib, IndexUvm(lib, d, now, log))
  {
    hide Consistent, LibraryOk, RunIdOf, TestIdOf, UvmBase, Belongs, RunFails;
    if log.location.withinLimit && log.test.Some? {
      var runId := RunIdOf(lib, log.location, false);
      var testId := TestIdOf(lib, runId, "uvm", log.test.value.name);
      UvmBaseKeeps(lib, d, now, log);
      FailuresKeep(lib, UvmBase(lib, d, now, log), log.failures, testId, runId);
    }
  }

  lemma {:induction false} NamedFailuresFail(cases: seq<JunitCase>, name: string)
    ensures FailuresNamed(cases, name) != [] ==> AnyFails(cases)
  {
    if cases != [] {
      NamedFailuresFail(cases[..|cases| - 1], name);
      assert cases[|cases| - 1] in cases;
      assert forall c :: c in cases[..|cases| - 1] ==> c in cases;
    }
  }

  lemma CaseKeeps(lib: Library, d: Db, now: string, runId: string, cases: seq<JunitCase>, c: JunitCase)
    requires LibraryOk(lib) && Consistent(lib, d) && c in cases && runId in d.runs
    requires AnyFails(cases) ==> RunFails(d, runId)
    ensures Consistent(lib, IndexCase(lib, d, now, runId, cases, c))
  {
    var testId := TestIdOf(lib, runId, "cocotb", c.test.name);
    var row := TestRow(lib, now, runId, "cocotb", c.test, CaseStatus(c));
    PutTestKeeps(lib, d, testId, row);
    NamedFailuresFail(cases, c.test.name);
    FailuresKeep(lib, PutTest(d, testId, row), FailuresNamed(cases, c.test.name), testId, runId);
  }

  /** The state after some cases: consistent, with the runs it started with. */
  ghost predicate CasesState(lib: Library, d: Db, e: Db, runId: string, cases: seq<JunitCase>) {
    && Consistent(lib, e)
    && e.runs == d.runs
    && runId in d.runs
    && (AnyFails(cases) ==> RunFails(d, runId))
  }

  lemma {:induction false} CasesKeep(lib: Library, d: Db, now: string, runId: string, cases: seq<JunitCase>, n: nat)
    requires LibraryOk(lib) && CasesState(lib, d, d, runId, cases) && n <= |cases|
    ensures CasesState(lib, d, IndexCases(lib, d, now, runId, cases, n), runId, cases)
  {
    hide IndexCase;
    if n > 0 {
      CasesKeep(lib, d, now, runId, cases, n - 1);
      OneMoreCaseKeeps(lib, d, IndexCases(lib, d, now, runId, cases, n - 1), now, runId, cases, cases[n - 1]);
    }
  }

  lemma OneMoreCaseKeeps(lib: Library, d: Db, e: Db, now: string, runId: string, cases: seq<JunitCase>, c: JunitCase)
    requires LibraryOk(lib) && CasesState(lib, d, e, runId, cases) && c in cases
    ensures CasesState(lib, d, IndexCase(lib, e, now, runId, cases, c), runId, cases)
  {
    assert AnyFails(cases) ==> RunFails(e, runId);
    CaseKeeps(lib, e, now, runId, cases, c);
    CaseFrame(lib, e, now, runId, cases, c);
  }

  lemma JunitKeeps(lib: Library, d: Db, now: string, file: JunitFile)
    requires LibraryOk(lib) && Consistent(lib, d)
    ensures Consistent(lib, IndexJunit(lib, d, now, file))
  {
    if file.location.withinLimit && file.cases != [] {
      var runId := RunIdOf(lib, file.location, true);
      var incoming := NewRun(lib, file.location, now, JunitStatus(file.cases));
      UpsertKeeps(lib, d, runId, incoming);
      UpsertStatus(lib, d, runId, incoming);
      CasesKeep(lib, UpsertRun(lib, d, runId, incoming), now, runId, file.cases, |file.cases|);
    }
  }

  // ---- bundles ----

  /** Every name a bundle knows stands for a stored assertion. */
  ghost predicate NamesStored(p: Persisted) {
    forall n :: n in p.names ==> p.names[n] in p.db.assertions
  }

  lemma {:induction false} DefinitionsKeep(lib: Library, d: Db, defs: seq<Definition>)
    requires Consistent(lib, d)
    ensures var p := AddDefinitions(lib, Persisted(d, map[]), defs);
      Consistent(lib, p.db) && NamesStored(p) && p.db.runs == d.runs && p.db.tests == d.tests
  {
    if defs != [] {
      var n := |defs| - 1;
      DefinitionsKeep(lib, d, defs[..n]);
      var p := AddDefinitions(lib, Persisted(d, map[]), defs[..n]);
      PutAssertionKeeps(lib, p.db, DefinitionIdOf(lib, defs[n]), DefinitionRow(defs[n]));
    }
  }

  lemma AddFailureKeeps(lib: Library, p: Persisted, f: BundleFailure, testId: string, runId: string, source: string)
    requires Consistent(lib, p.db) && NamesStored(p) && Belongs(p.db, testId, runId)
    ensures var q := AddFailure(lib, p, f, testId, runId, source);
      Consistent(lib, q.db) && NamesStored(q) && q.db.runs == p.db.runs && q.db.tests == p.db.tests
  {
    var id := UnknownIdOf(lib, testId, f);
    if BundleName(f) !in p.names { PutAssertionKeeps(lib, p.db, id, UnknownRow(id)); }
    var q := EnsureDefined(lib, p, f, testId);
    PutAssertionFailureKeeps(lib, q.db,
      AssertionFailure(q.names[BundleName(f)], testId, runId, f.timeNs, f.message),
      lib.normalizeRefs([EvidenceRef("log", source, None, None, None, None, Some(f.message))]));
  }

  lemma {:induction false} AddFailuresKeep(
    lib: Library, p: Persisted, fs: seq<BundleFailure>, testId: string, runId: string, source: string)
    requires Consistent(lib, p.db) && NamesStored(p) && Belongs(p.db, testId, runId)
    ensures var q := AddFailures(lib, p, fs, testId, runId, source);
      Consistent(lib, q.db) && NamesStored(q) && q.db.runs == p.db.runs && q.db.tests == p.db.tests
  {
    if fs != [] {
      var n := |fs| - 1;
      AddFailuresKeep(lib, p, fs[..n], testId, runId, source);
      AddFailureKeeps(lib, AddFailures(lib, p, fs[..n], testId, runId, source), fs[n], testId, runId, source);
    }
  }

  lemma PersistKeeps(
    lib: Library, d: Db, defs: seq<Definition>, fs: seq<BundleFailure>, testId: string, source: string)
    requires Consistent(lib, d) && testId in d.tests
    ensures var e := PersistBundle(lib, d, defs, fs, testId, d.tests[testId].runId, source);
      Consistent(lib, e) && e.runs == d.runs && e.tests == d.tests
  {
    DefinitionsKeep(lib, d, defs);
    AddFailuresKeep(lib, AddDefinitions(lib, Persisted(d, map[]), defs), fs, testId, d.tests[testId].runId, source);
  }

  // ---- coverage and assertion status ----

  lemma CoverageKeeps(lib: Library, d: Db, now: string, c: CoverageFile)
    requires LibraryOk(lib) && Consistent(lib, d)
    ensures Consistent(lib, IndexCoverage(lib, d, now, c))
  {
    if c.location.withinLimit && c.readable {
      var t := CoverageTest(d, c);
      if t.Some? && t.value in d.tests {
        var runId := d.tests[t.value].runId;
        assert TestOk(lib, d, t.value);
        PutCoverageKeeps(lib, d, Coverage(runId, t, c.kind, c.metrics), CoverageRefs(c.location));
      } else {
        var runId := RunIdOf(lib, c.location, true);
        OwnRunKeeps(lib, d, runId, NewRun(lib, c.location, now, "pass"), c);
      }
    }
  }

  lemma OwnRunKeeps(lib: Library, d: Db, runId: string, incoming: Run, c: CoverageFile)
    requires Consistent(lib, d) && incoming.status == "pass"
    ensures Consistent(lib,
      PutCoverage(
        UpsertRun(lib, d, runId, incoming), Coverage(runId, None, c.kind, c.metrics), CoverageRefs(c.location)))
  {
    UpsertKeeps(lib, d, runId, incoming);
    UpsertStatus(lib, d, runId, incoming);
    PutCoverageKeeps(
      lib, UpsertRun(lib, d, runId, incoming), Coverage(runId, None, c.kind, c.metrics), CoverageRefs(c.location));
  }

  /** Coverage never makes a run fail. */
  lemma CoverageStatus(lib: Library, d: Db, now: string, c: CoverageFile, r: string)
    ensures RunFails(IndexCoverage(lib, d, now, c), r) == RunFails(d, r)
  {
    hide RunIdOf, CoverageTest, UpsertRun, ReplaceEvidence;
    if c.location.withinLimit && c.readable {
      var t := CoverageTest(d, c);
      if !(t.Some? && t.value in d.tests) {
        var runId := RunIdOf(lib, c.location, true);
        var incoming := NewRun(lib, c.location, now, "pass");
        UpsertStatus(lib, d, runId, incoming);
        assert IndexCoverage(lib, d, now, c).runs == UpsertRun(lib, d, runId, incoming).runs;
      } else {
        assert IndexCoverage(lib, d, now, c).runs == d.runs;
      }
    }
  }

  lemma {:induction false} SvaRowsKeep(lib: Library, d: Db, es: seq<SvaEntry>, test: Option<string>)
    requires LibraryOk(lib) && Consistent(lib, d) && (test.Some? ==> test.value in d.tests)
    ensures var e := AddSvaRows(lib, d, es, test); Consistent(lib, e) && e.runs == d.runs && e.tests == d.tests
  {
    if es != [] {
      var n := |es| - 1;
      SvaRowsKeep(lib, d, es[..n], test);
      var front := AddSvaRows(lib, d, es[..n], test);
      var named := NamedAssertions(front, es[n].name);
      assert PicksOne(lib, named);
      PutSvaKeeps(lib, front, SvaRow(lib, front, es[n], test));
    }
  }

  // ---- every reachable state ----

  lemma ArtifactKeeps(lib: Library, d: Db, step: Step)
    requires LibraryOk(lib) && Consistent(lib, d)
    ensures Consistent(lib, IndexArtifact(lib, d, step))
  {
    hide IndexUvm, IndexJunit, IndexWave, IndexBundle, IndexLogAssertions, IndexCoverage, IndexSva;
    hide Consistent, LibraryOk;
    match step.artifact {
      case UvmArtifact(log) => UvmKeeps(lib, d, step.now, log);
      case JunitArtifact(file) => JunitKeeps(lib, d, step.now, file);
      case WaveArtifact(wave) => WaveKeeps(lib, d, wave);
      case BundleArtifact(b) => BundleKeeps(lib, d, b);
      case LogAssertionsArtifact(log) => LogAssertionsKeep(lib, d, log);
      case CoverageArtifact(c) => CoverageKeeps(lib, d, step.now, c);
      case SvaArtifact(s) => SvaKeeps(lib, d, s);
    }
  }

  lemma WaveKeeps(lib: Library, d: Db, wave: WaveFile)
    requires Consistent(lib, d)
    ensures var e := IndexWave(lib, d, wave); Consistent(lib, e) && e.runs == d.runs
  {
    var t := FindEither(d, wave.testName, LowerOption(wave.framework));
    if t.Some? {
      PutWaveformKeeps(lib, d, t.value, Waveform(wave.format, wave.endTimeNs, wave.location.path));
    }
  }

  lemma SvaKeeps(lib: Library, d: Db, s: SvaFile)
    requires LibraryOk(lib) && Consistent(lib, d)
    ensures var e := IndexSva(lib, d, s); Consistent(lib, e) && e.runs == d.runs
  {
    SvaRowsKeep(lib, d, s.entries, if Given(s.testName) then ResolveTest(d, s.testName.value, None) else None);
  }

  lemma BundleKeeps(lib: Library, d: Db, b: Bundle)
    requires Consistent(lib, d)
    ensures var e := IndexBundle(lib, d, b); Consistent(lib, e) && e.runs == d.runs
  {
    if Given(b.testName) {
      var t := ResolveTwice(d, b.testName.value);
      if t.Some? { PersistKeeps(lib, d, b.definitions, b.failures, t.value, b.location.path); }
    }
  }

  lemma LogAssertionsKeep(lib: Library, d: Db, log: UvmLog)
    requires Consistent(lib, d)
    ensures var e := IndexLogAssertions(lib, d, log); Consistent(lib, e) && e.runs == d.runs
  {
    if log.test.Some? {
      var t := ResolveTest(d, log.test.value.name, Some("uvm"));
      if t.Some? { PersistKeeps(lib, d, [], log.assertionFailures, t.value, log.location.path); }
    }
  }

  /** In a consistent index the second lookup finds nothing that the first one missed. */
  lemma SecondLookupIdle(lib: Library, d: Db, wanted: string)
    requires Consistent(lib, d)
    ensures ResolveTwice(d, wanted) == ResolveTest(d, wanted, Some("cocotb"))
  {
    var t := FindEither(d, wanted, Some("cocotb"));
    if t.Some? { assert TestOk(lib, d, t.value); }
  }

  /** Every state reached from an empty index, by any sequence of artifacts, is consistent. */
  lemma {:induction false} ReachableConsistent(lib: Library, steps: seq<Step>)
    requires LibraryOk(lib)
    ensures Consistent(lib, IndexSteps(lib, EMPTY, steps))
  {
    hide IndexArtifact;
    if steps != [] {
      ReachableConsistent(lib, steps[..|steps| - 1]);
      ArtifactKeeps(lib, IndexSteps(lib, EMPTY, steps[..|steps| - 1]), steps[|steps| - 1]);
    }
  }

  // ---- what a run's status says ----

  /** The artifact reports a failure for this run. */
  ghost predicate Contributes(lib: Library, a: Artifact, runId: string) {
    match a
    case UvmArtifact(log) =>
      log.location.withinLimit && log.test.Some? && log.failures != [] && RunIdOf(lib, log.location, false) == runId
    case JunitArtifact(file) =>
      file.location.withinLimit && AnyFails(file.cases) && RunIdOf(lib, file.location, true) == runId
    case _ => false
  }

  ghost predicate SomeoneFails(lib: Library, steps: seq<Step>, runId: string) {
    exists i :: 0 <= i < |steps| && Contributes(lib, steps[i].artifact, runId)
  }

  lemma CaseFrame(lib: Library, d: Db, now: string, runId: string, cases: seq<JunitCase>, c: JunitCase)
    ensures IndexCase(lib, d, now, runId, cases, c).runs == d.runs
  {
    var testId := TestIdOf(lib, runId, "cocotb", c.test.name);
    FailuresFrame(lib, PutTest(d, testId, TestRow(lib, now, runId, "cocotb", c.test, CaseStatus(c))),
      FailuresNamed(cases, c.test.name), testId, runId);
  }

  lemma {:induction false} CasesFrame(lib: Library, d: Db, now: string, runId: string, cases: seq<JunitCase>, n: nat)
    requires n <= |cases|
    ensures IndexCases(lib, d, now, runId, cases, n).runs == d.runs
  {
    hide IndexCase;
    if n > 0 {
      CasesFrame(lib, d, now, runId, cases, n - 1);
      CaseFrame(lib, IndexCases(lib, d, now, runId, cases, n - 1), now, runId, cases, cases[n - 1]);
    }
  }

  lemma UvmRuns(lib: Library, d: Db, now: string, log: UvmLog)
    requires log.location.withinLimit && log.test.Some?
    ensures IndexUvm(lib, d, now, log).runs ==
      UpsertRun(lib, d, RunIdOf(lib, log.location, false), NewRun(lib, log.location, now, UvmStatus(log))).runs
  {
    hide RunIdOf, TestIdOf, UpsertRun;
    var id := RunIdOf(lib, log.location, false);
    var testId := TestIdOf(lib, id, "uvm", log.test.value.name);
    FailuresFrame(lib, UvmBase(lib, d, now, log), log.failures, testId, id);
  }

  lemma JunitRuns(lib: Library, d: Db, now: string, file: JunitFile)
    requires file.location.withinLimit && file.cases != []
    ensures IndexJunit(lib, d, now, file).runs ==
      UpsertRun(
        lib, d, RunIdOf(lib, file.location, true), NewRun(lib, file.location, now, JunitStatus(file.cases))).runs
  {
    var id := RunIdOf(lib, file.location, true);
    var d1 := UpsertRun(lib, d, id, NewRun(lib, file.location, now, JunitStatus(file.cases)));
    CasesFrame(lib, d1, now, id, file.cases, |file.cases|);
  }

  lemma UvmStatusMeaning(lib: Library, d: Db, now: string, log: UvmLog, runId: string)
    ensures RunFails(IndexUvm(lib, d, now, log), runId)
      <==> RunFails(d, runId) || Contributes(lib, UvmArtifact(log), runId)
  {
    if log.location.withinLimit && log.test.Some? {
      var id := RunIdOf(lib, log.location, false);
      var incoming := NewRun(lib, log.location, now, UvmStatus(log));
      UvmRuns(lib, d, now, log);
      UpsertStatus(lib, d, id, incoming);
      assert RunFails(IndexUvm(lib, d, now, log), runId) == RunFails(UpsertRun(lib, d, id, incoming), runId);
    }
  }

  lemma JunitStatusMeaning(lib: Library, d: Db, now: string, file: JunitFile, runId: string)
    ensures RunFails(IndexJunit(lib, d, now, file), runId)
      <==> RunFails(d, runId) || Contributes(lib, JunitArtifact(file), runId)
  {
    if file.location.withinLimit && file.cases != [] {
      var id := RunIdOf(lib, file.location, true);
      var incoming := NewRun(lib, file.location, now, JunitStatus(file.cases));
      JunitRuns(lib, d, now, file);
      UpsertStatus(lib, d, id, incoming);
      assert RunFails(IndexJunit(lib, d, now, file), runId) == RunFails(UpsertRun(lib, d, id, incoming), runId);
    }
  }

  lemma ArtifactStatus(lib: Library, d: Db, step: Step, runId: string)
    requires LibraryOk(lib) && Consistent(lib, d)
    ensures RunFails(IndexArtifact(lib, d, step), runId)
      <==> RunFails(d, runId) || Contributes(lib, step.artifact, runId)
  {
    hide IndexUvm, IndexJunit, IndexWave, IndexBundle, IndexLogAssertions, IndexCoverage, IndexSva;
    hide Consistent, LibraryOk;
    match step.artifact {
      case UvmArtifact(log) => UvmStatusMeaning(lib, d, step.now, log, runId);
      case JunitArtifact(file) => JunitStatusMeaning(lib, d, step.now, file, runId);
      case WaveArtifact(wave) => WaveKeeps(lib, d, wave);
      case BundleArtifact(b) => BundleKeeps(lib, d, b);
      case LogAssertionsArtifact(log) => LogAssertionsKeep(lib, d, log);
      case CoverageArtifact(c) => CoverageStatus(lib, d, step.now, c, runId);
      case SvaArtifact(s) => SvaKeeps(lib, d, s);
    }
  }

  /**
   After any sequence of artifacts a run fails exactly when one of them reported a failure for it,
   and passes otherwise: neither their order nor later passing results matter.
   */
  lemma {:induction false} StatusIsAnyContribution(lib: Library, steps: seq<Step>, runId: string)
    requires LibraryOk(lib)
    ensures var d := IndexSteps(lib, EMPTY, steps);
      && (RunFails(d, runId) <==> SomeoneFails(lib, steps, runId))
      && (runId in d.runs && !RunFails(d, runId) ==> d.runs[runId].status == "pass")
  {
    hide IndexArtifact, Contributes, Consistent, LibraryOk, SomeoneFails;
    PassOrFail(lib, steps, runId);
    SomeoneSnoc(lib, steps, runId);
    if steps != [] {
      var n := |steps| - 1;
      StatusIsAnyContribution(lib, steps[..n], runId);
      ReachableConsistent(lib, steps[..n]);
      ArtifactStatus(lib, IndexSteps(lib, EMPTY, steps[..n]), steps[n], runId);
    }
  }

  lemma PassOrFail(lib: Library, steps: seq<Step>, runId: string)
    requires LibraryOk(lib)
    ensures var d := IndexSteps(lib, EMPTY, steps);
      runId in d.runs && !RunFails(d, runId) ==> d.runs[runId].status == "pass"
  {
    hide IndexArtifact;
    ReachableConsistent(lib, steps);
    assert RunOk(IndexSteps(lib, EMPTY, steps), runId);
  }

  lemma SomeoneSnoc(lib: Library, steps: seq<Step>, runId: string)
    ensures SomeoneFails(lib, steps, runId) <==>
      steps != []
      && (SomeoneFails(lib, steps[..|steps| - 1], runId) || Contributes(lib, steps[|steps| - 1].artifact, runId))
  {
    hide Contributes;
    if steps != [] {
      var n := |steps| - 1;
      assert forall i :: 0 <= i < n ==> steps[..n][i] == steps[i];
    }
  }

  lemma SameContributions(lib: Library, a: seq<Step>, b: seq<Step>, runId: string)
    requires multiset(a) == multiset(b)
    ensures SomeoneFails(lib, a, runId) ==> SomeoneFails(lib, b, runId)
  {
    if i :| 0 <= i < |a| && Contributes(lib, a[i].artifact, runId) {
      assert a[i] in multiset(b);
      var j :| 0 <= j < |b| && b[j] == a[i];
      assert Contributes(lib, b[j].artifact, runId);
    }
  }

  /** Within a run there is one row for each framework and name. */
  ghost predicate OneRowPerTest(tests: map<string, Test>) {
    forall s, t ::
      (&& s in tests && t in tests && tests[s].runId == tests[t].runId
       && tests[s].framework == tests[t].framework && tests[s].name == tests[t].name)
      ==> s == t
  }

  lemma ReachableOneRowPerTest(lib: Library, steps: seq<Step>)
    requires LibraryOk(lib)
    ensures OneRowPerTest(IndexSteps(lib, EMPTY, steps).tests)
  {
    ReachableConsistent(lib, steps);
    var d := IndexSteps(lib, EMPTY, steps);
    forall s, t |
      (&& s in d.tests && t in d.tests && d.tests[s].runId == d.tests[t].runId
       && d.tests[s].framework == d.tests[t].framework && d.tests[s].name == d.tests[t].name)
      ensures s == t
    {
      assert TestOk(lib, d, s) && TestOk(lib, d, t);
    }
  }

  // ---- what is kept about a run, a failure, an assertion failure ----

  /** The run an artifact reports on, with what it says about it; None when it leaves the runs alone. */
  ghost function ReportedRun(lib: Library, d: Db, step: Step): Option<(string, Run)> {
    match step.artifact
    case UvmArtifact(log) =>
      if log.location.withinLimit && log.test.Some?
      then Some((RunIdOf(lib, log.location, false), NewRun(lib, log.location, step.now, UvmStatus(log)))) else None
    case JunitArtifact(file) =>
      if file.location.withinLimit && file.cases != []
      then Some((RunIdOf(lib, file.location, true), NewRun(lib, file.location, step.now, JunitStatus(file.cases))))
      else None
    case CoverageArtifact(c) =>
      if c.location.withinLimit && c.readable && !(CoverageTest(d, c).Some? && CoverageTest(d, c).value in d.tests)
      then Some((RunIdOf(lib, c.location, true), NewRun(lib, c.location, step.now, "pass"))) else None
    case _ => None
  }

  function Merged(lib: Library, runs: map<string, Run>, reported: Option<(string, Run)>): map<string, Run> {
    match reported
    case None => runs
    case Some(r) => runs[r.0 := MergeRun(lib, Lookup(runs, r.0), r.1)]
  }

  lemma UvmReported(lib: Library, d: Db, now: string, log: UvmLog)
    ensures IndexUvm(lib, d, now, log).runs == Merged(lib, d.runs, ReportedRun(lib, d, Step(now, UvmArtifact(log))))
  {
    if log.location.withinLimit && log.test.Some? { UvmRuns(lib, d, now, log); }
  }

  lemma JunitReported(lib: Library, d: Db, now: string, file: JunitFile)
    ensures IndexJunit(lib, d, now, file).runs
      == Merged(lib, d.runs, ReportedRun(lib, d, Step(now, JunitArtifact(file))))
  {
    if file.location.withinLimit && file.cases != [] { JunitRuns(lib, d, now, file); }
  }

  lemma CoverageReported(lib: Library, d: Db, now: string, c: CoverageFile)
    ensures IndexCoverage(lib, d, now, c).runs
      == Merged(lib, d.runs, ReportedRun(lib, d, Step(now, CoverageArtifact(c))))
  {
    hide RunIdOf, CoverageTest, MergeRun, ReplaceEvidence;
    if c.location.withinLimit && c.readable {
      var t := CoverageTest(d, c);
      if !(t.Some? && t.value in d.tests) {
        var runId := RunIdOf(lib, c.location, true);
        var incoming := NewRun(lib, c.location, now, "pass");
        assert ReportedRun(lib, d, Step(now, CoverageArtifact(c))) == Some((runId, incoming));
        assert IndexCoverage(lib, d, now, c).runs == UpsertRun(lib, d, runId, incoming).runs;
      } else {
        assert IndexCoverage(lib, d, now, c).runs == d.runs;
      }
    }
  }

  /** Only the reported run changes, and it changes by one merge. */
  lemma ArtifactRuns(lib: Library, d: Db, step: Step)
    requires LibraryOk(lib) && Consistent(lib, d)
    ensures IndexArtifact(lib, d, step).runs == Merged(lib, d.runs, ReportedRun(lib, d, step))
  {
    hide IndexUvm, IndexJunit, IndexWave, IndexBundle, IndexLogAssertions, IndexCoverage, IndexSva;
    hide Consistent, LibraryOk;
    match step.artifact {
      case UvmArtifact(log) => UvmReported(lib, d, step.now, log);
      case JunitArtifact(file) => JunitReported(lib, d, step.now, file);
      case WaveArtifact(wave) => WaveKeeps(lib, d, wave);
      case BundleArtifact(b) => BundleKeeps(lib, d, b);
      case LogAssertionsArtifact(log) => LogAssertionsKeep(lib, d, log);
      case CoverageArtifact(c) => CoverageReported(lib, d, step.now, c);
      case SvaArtifact(s) => SvaKeeps(lib, d, s);
    }
  }

  /** What later artifacts never take away from a run: its creation time and the CI metadata it has. */
  ghost predicate Remembers(before: Run, after: Run) {
    && (before.createdAt != "" ==> after.createdAt == before.createdAt)
    && (Given(before.ciSystem) ==> Given(after.ciSystem))
    && (Given(before.ciBuildId) ==> Given(after.ciBuildId))
    && (Given(before.ciJobUrl) ==> Given(after.ciJobUrl))
    && (before.status == "fail" ==> after.status == "fail")
  }

  /** A run keeps the creation time of the artifact that introduced it, through everything indexed later. */
  lemma {:induction false} RunsAreRemembered(lib: Library, earlier: seq<Step>, later: seq<Step>, runId: string)
    requires LibraryOk(lib) && runId in IndexSteps(lib, EMPTY, earlier).runs
    ensures runId in IndexSteps(lib, EMPTY, earlier + later).runs
    ensures Remembers(IndexSteps(lib, EMPTY, earlier).runs[runId], IndexSteps(lib, EMPTY, earlier + later).runs[runId])
  {
    hide IndexArtifact;
    if later == [] {
      assert earlier + later == earlier;
    } else {
      var n := |later| - 1;
      var front := earlier + later[..n];
      assert (earlier + later)[..|front|] == front;
      RunsAreRemembered(lib, earlier, later[..n], runId);
      ReachableConsistent(lib, front);
      ArtifactRuns(lib, IndexSteps(lib, EMPTY, front), later[n]);
    }
  }

  /** No later failure of the list has the same id. */
  ghost predicate LastOfItsId(lib: Library, fs: seq<ParsedFailure>, testId: string, i: nat)
    requires i < |fs|
  {
    forall j :: i < j < |fs| ==> FailureIdOf(lib, fs[j], testId) != FailureIdOf(lib, fs[i], testId)
  }

  /** The failure's row and, read back, its evidence are those of `f`. */
  ghost predicate StoredAs(lib: Library, d: Db, f: ParsedFailure, testId: string, runId: string) {
    var id := FailureIdOf(lib, f, testId);
    && id in d.failures && d.failures[id] == FailureRow(lib, f, testId, runId)
    && GetEvidence(d.evidence, "failure", id) == lib.normalizeRefs(f.evidence)
  }

  lemma StoredThrough(lib: Library, d: Db, f: ParsedFailure, g: ParsedFailure, testId: string, runId: string)
    requires StoredAs(lib, d, f, testId, runId) && FailureIdOf(lib, f, testId) != FailureIdOf(lib, g, testId)
    ensures StoredAs(lib, IndexFailure(lib, d, g, testId, runId), f, testId, runId)
  {
    EvidenceReadsBack(d.evidence, "failure", FailureIdOf(lib, g, testId), lib.normalizeRefs(g.evidence),
      "failure", FailureIdOf(lib, f, testId));
  }

  lemma StoredAtOnce(lib: Library, d: Db, f: ParsedFailure, testId: string, runId: string)
    ensures StoredAs(lib, IndexFailure(lib, d, f, testId, runId), f, testId, runId)
  {
    var id := FailureIdOf(lib, f, testId);
    EvidenceReadsBack(d.evidence, "failure", id, lib.normalizeRefs(f.evidence), "failure", id);
  }

  /** Each distinct failure of a test ends up stored with its own row and, read back, its own evidence. */
  lemma {:induction false} FailuresStored(
    lib: Library, d: Db, fs: seq<ParsedFailure>, testId: string, runId: string, i: nat)
    requires i < |fs| && LastOfItsId(lib, fs, testId, i)
    ensures StoredAs(lib, IndexFailures(lib, d, fs, testId, runId), fs[i], testId, runId)
  {
    hide StoredAs, IndexFailure, FailureIdOf;
    var n := |fs| - 1;
    var front := IndexFailures(lib, d, fs[..n], testId, runId);
    if i < n {
      assert FailureIdOf(lib, fs[n], testId) != FailureIdOf(lib, fs[i], testId);
      assert LastOfItsId(lib, fs[..n], testId, i);
      FailuresStored(lib, d, fs[..n], testId, runId, i);
      StoredThrough(lib, front, fs[i], fs[n], testId, runId);
    } else {
      StoredAtOnce(lib, front, fs[i], testId, runId);
    }
  }

  // ---- bundles: which assertion a failure is recorded against ----

  /** The last of the definitions with this name. */
  function LastDefinition(defs: seq<Definition>, name: string): Option<Definition> {
    if defs == [] then None
    else if defs[|defs| - 1].name == name then Some(defs[|defs| - 1])
    else LastDefinition(defs[..|defs| - 1], name)
  }

  /** A name stands for the last definition that carries it. */
  lemma {:induction false} DefinedNames(lib: Library, d: Db, defs: seq<Definition>, name: string)
    ensures var p, last := AddDefinitions(lib, Persisted(d, map[]), defs), LastDefinition(defs, name);
      Lookup(p.names, name) == if last.Some? then Some(DefinitionIdOf(lib, last.value)) else None
  {
    hide DefinitionIdOf;
    if defs != [] { DefinedNames(lib, d, defs[..|defs| - 1], name); }
  }

  /** The first of the failures with this name. */
  function FirstFailure(fs: seq<BundleFailure>, name: string): Option<BundleFailure> {
    if fs == [] then None
    else
      var front := FirstFailure(fs[..|fs| - 1], name);
      if front.Some? then front
      else if BundleName(fs[|fs| - 1]) == name then Some(fs[|fs| - 1])
      else None
  }

  /** The assertion a name stands for: the one it stood for before, else the synthetic one of its first failure. */
  function AssertionFor(
    lib: Library, names: map<string, string>, fs: seq<BundleFailure>, testId: string, name: string): Option<string>
  {
    if name in names then Some(names[name])
    else if FirstFailure(fs, name).Some? then Some(UnknownIdOf(lib, testId, FirstFailure(fs, name).value))
    else None
  }

  lemma {:induction false} NamesAfterFailures(
    lib: Library, p: Persisted, fs: seq<BundleFailure>, testId: string, runId: string, source: string, name: string)
    ensures Lookup(AddFailures(lib, p, fs, testId, runId, source).names, name)
      == AssertionFor(lib, p.names, fs, testId, name)
  {
    hide UnknownIdOf;
    if fs != [] { NamesAfterFailures(lib, p, fs[..|fs| - 1], testId, runId, source, name); }
  }

  lemma {:induction false} FirstFailureStays(fs: seq<BundleFailure>, k: nat)
    requires k < |fs|
    ensures FirstFailure(fs, BundleName(fs[k])).Some?
    ensures FirstFailure(fs, BundleName(fs[k])) == FirstFailure(fs[..k + 1], BundleName(fs[k]))
  {
    var n := |fs| - 1;
    if k < n {
      FirstFailureStays(fs[..n], k);
      assert fs[..n][..k + 1] == fs[..k + 1];
    } else {
      assert fs[..k + 1] == fs;
    }
  }

  /** The row a bundle failure leaves behind. */
  ghost predicate RecordsFailure(
    row: Row<AssertionFailure>, id: int, assertion: Option<string>, f: BundleFailure, testId: string, runId: string)
  {
    row.id == id && assertion.Some? && row.data == AssertionFailure(assertion.value, testId, runId, f.timeNs, f.message)
  }

  lemma AddFailureRow(lib: Library, p: Persisted, f: BundleFailure, testId: string, runId: string, source: string)
    ensures var a, q := p.db.assertionFailures, AddFailure(lib, p, f, testId, runId, source);
      exists row :: q.db.assertionFailures == Table(a.rows + [row], a.next + 1)
        && RecordsFailure(row, a.next, Lookup(q.names, BundleName(f)), f, testId, runId)
  {
    var q := EnsureDefined(lib, p, f, testId);
    var row := Row(p.db.assertionFailures.next,
      AssertionFailure(q.names[BundleName(f)], testId, runId, f.timeNs, f.message));
    var after := AddFailure(lib, p, f, testId, runId, source).db.assertionFailures;
    assert after.rows == p.db.assertionFailures.rows + [row];
  }

  /** Row `k` of those a bundle adds. */
  ghost predicate RowRecorded(
    lib: Library, p: Persisted, q: Persisted, fs: seq<BundleFailure>, testId: string, runId: string, k: nat)
    requires k < |fs|
  {
    var a, b := p.db.assertionFailures, q.db.assertionFailures;
    && |a.rows| + k < |b.rows|
    && var assertion := AssertionFor(lib, p.names, fs, testId, BundleName(fs[k]));
       RecordsFailure(b.rows[|a.rows| + k], a.next + k, assertion, fs[k], testId, runId)
  }

  /**
   A bundle adds one assertion failure row for each failure it lists, in order, under its test and
   run, and against the assertion its name stands for.
   */
  lemma {:induction false} BundleRowsRecorded(
    lib: Library, p: Persisted, fs: seq<BundleFailure>, testId: string, runId: string, source: string)
    ensures var q := AddFailures(lib, p, fs, testId, runId, source);
      var a, b := p.db.assertionFailures, q.db.assertionFailures;
      && a.rows <= b.rows && |b.rows| == |a.rows| + |fs| && b.next == a.next + |fs|
      && forall k :: 0 <= k < |fs| ==> RowRecorded(lib, p, q, fs, testId, runId, k)
  {
    hide AddFailure, UnknownIdOf, RecordsFailure, FirstFailure;
    if fs != [] {
      var n := |fs| - 1;
      var front := AddFailures(lib, p, fs[..n], testId, runId, source);
      var q := AddFailures(lib, p, fs, testId, runId, source);
      BundleRowsRecorded(lib, p, fs[..n], testId, runId, source);
      AddFailureRow(lib, front, fs[n], testId, runId, source);
      NamesAfterFailures(lib, p, fs, testId, runId, source, BundleName(fs[n]));
      forall k | 0 <= k < |fs| ensures RowRecorded(lib, p, q, fs, testId, runId, k) {
        if k < n {
          assert RowRecorded(lib, p, front, fs[..n], testId, runId, k);
          FirstFailureStays(fs, k);
          FirstFailureStays(fs[..n], k);
          assert fs[..n][..k + 1] == fs[..k + 1];
        }
      }
    }
  }
}
