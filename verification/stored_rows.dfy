/** Where the rows of an index come from, column by column. */
module StoredRows {
  import opened Common
  import opened Tables
  import opened StoreModel
  import opened IndexingModel
  import opened IndexInvariants
  import opened IndexHistory
  import opened Ids
  import FinishedIndex
  import RunHistory
  import PythonText

  // ---- texts that are cut ----

  /** The text itself if it is short enough, or else as much of it as fits in front of three dots. */
  predicate IsCut(text: string, limit: int, r: string) {
    if |text| <= limit then r == text
    else limit >= 3 ==> |r| == limit && r[..limit - 3] == text[..limit - 3] && r[limit - 3..] == "..."
  }

  // ---- failures ----

  /** The row is that of the failure: missing severities and categories get a default, long texts are cut. */
  ghost predicate FailureSays(lib: Library, row: Tables.Failure, f: ParsedFailure, testId: string, runId: string) {
    && row.testId == testId && row.runId == runId
    && row.severity == (if f.severity.Some? then f.severity.value else "error")
    && row.category == (if f.category.Some? then f.category.value else "unknown")
    && IsCut(f.summary, 500, row.summary) && IsCut(f.message, lib.maxMessageLength, row.message)
    && row.timeNs == f.timeNs && row.phase == f.phase && row.component == f.component
    && row.tags <= f.tags && (row.tags == f.tags || |row.tags| == lib.maxTags) && |row.tags| <= lib.maxTags
    && row.signatureId.Some?
  }

  lemma FailureRowSays(lib: Library, f: ParsedFailure, testId: string, runId: string)
    ensures FailureSays(lib, FailureRow(lib, f, testId, runId), f, testId, runId)
  {
  }

  /** Two failures share a signature exactly when category, summary pattern and first protocol tag agree. */
  lemma SignatureExact(
    lib: Library, f: ParsedFailure, g: ParsedFailure, t: string, u: string, r: string, s: string)
    requires LibraryOk(lib)
    ensures var a, b := FailureRow(lib, f, t, r), FailureRow(lib, g, u, s);
      a.signatureId == b.signatureId <==>
        && Normalize(a.category, false) == Normalize(b.category, false)
        && lib.summarySignature(a.summary) == lib.summarySignature(b.summary)
        && FirstProtocol(a.tags) == FirstProtocol(b.tags)
  {
    var a, b := FailureRow(lib, f, t, r), FailureRow(lib, g, u, s);
    var x := SignatureId(Normalize(a.category, false), lib.summarySignature(a.summary), FirstProtocol(a.tags));
    var y := SignatureId(Normalize(b.category, false), lib.summarySignature(b.summary), FirstProtocol(b.tags));
    assert NoCollision(lib, x, y);
  }

  /** The protocol is the first tag that names one. */
  lemma {:induction false} FirstProtocolMeaning(tags: seq<string>)
    ensures match FirstProtocol(tags)
      case None => forall i :: 0 <= i < |tags| ==> tags[i] !in PROTOCOLS
      case Some(p) => p in PROTOCOLS && exists i :: FirstOf(tags, p, i)
  {
    if tags != [] && tags[0] !in PROTOCOLS {
      FirstProtocolMeaning(tags[1..]);
      assert forall i :: 0 < i < |tags| ==> tags[i] == tags[1..][i - 1];
      match FirstProtocol(tags[1..]) {
        case None =>
        case Some(p) =>
          var k: nat :| FirstOf(tags[1..], p, k);
          assert FirstOf(tags, p, k + 1);
      }
    } else if tags != [] {
      assert FirstOf(tags, tags[0], 0);
    }
  }

  ghost predicate FirstOf(tags: seq<string>, p: string, i: nat) {
    i < |tags| && tags[i] == p && forall j :: 0 <= j < i ==> tags[j] !in PROTOCOLS
  }

  /** The step reports the failure for the test and the run. */
  ghost predicate StepReports(lib: Library, step: Step, f: ParsedFailure, testId: string, runId: string) {
    match step.artifact
    case UvmArtifact(log) =>
      && log.location.withinLimit && log.test.Some? && f in log.failures
      && runId == RunIdOf(lib, log.location, false) && testId == TestIdOf(lib, runId, "uvm", log.test.value.name)
    case JunitArtifact(file) =>
      && file.location.withinLimit && runId == RunIdOf(lib, file.location, true)
      && exists c :: c in file.cases && c.failure == Some(f) && testId == TestIdOf(lib, runId, "cocotb", c.test.name)
    case _ => false
  }

  ghost predicate FailureFrom(lib: Library, d: Db, id: string, f: ParsedFailure, testId: string, runId: string) {
    id in d.failures && id == FailureIdOf(lib, f, testId) && FailureSays(lib, d.failures[id], f, testId, runId)
  }

  /** Row `id` is old, or that of one of the failures. */
  ghost predicate OldOrFrom(
    lib: Library, d: Db, e: Db, id: string, fs: seq<ParsedFailure>, testId: string, runId: string)
  {
    || Lookup(e.failures, id) == Lookup(d.failures, id)
    || exists f :: f in fs && FailureFrom(lib, e, id, f, testId, runId)
  }

  lemma {:induction false} FailuresAdd(lib: Library, d: Db, fs: seq<ParsedFailure>, testId: string, runId: string)
    ensures var e := IndexFailures(lib, d, fs, testId, runId);
      && (forall id :: OldOrFrom(lib, d, e, id, fs, testId, runId))
      && d.failures.Keys <= e.failures.Keys
      && forall f :: f in fs ==> FailureIdOf(lib, f, testId) in e.failures
  {
    hide FailureIdOf, FailureSays, FailureRow;
    if fs != [] {
      var n := |fs| - 1;
      FailuresAdd(lib, d, fs[..n], testId, runId);
      assert fs == fs[..n] + [fs[n]];
      FailureRowSays(lib, fs[n], testId, runId);
      var front, e := IndexFailures(lib, d, fs[..n], testId, runId), IndexFailures(lib, d, fs, testId, runId);
      forall id ensures OldOrFrom(lib, d, e, id, fs, testId, runId) {
        assert OldOrFrom(lib, d, front, id, fs[..n], testId, runId);
        if id == FailureIdOf(lib, fs[n], testId) {
          assert FailureFrom(lib, e, id, fs[n], testId, runId);
        } else if f :| f in fs[..n] && FailureFrom(lib, front, id, f, testId, runId) {
          assert FailureFrom(lib, e, id, f, testId, runId);
        }
      }
    }
  }

  lemma {:induction false} NamedMembers(cases: seq<JunitCase>, name: string, f: ParsedFailure)
    ensures f in FailuresNamed(cases, name) <==> exists c :: c in cases && c.test.name == name && c.failure == Some(f)
  {
    if cases != [] {
      var n := |cases| - 1;
      NamedMembers(cases[..n], name, f);
      assert cases == cases[..n] + [cases[n]];
    }
  }

  /** Row `id` is old, or that of a failure of the file. */
  ghost predicate OldOrCase(lib: Library, d: Db, e: Db, id: string, file: JunitFile, runId: string) {
    || Lookup(e.failures, id) == Lookup(d.failures, id)
    || exists c :: c in file.cases && FromCase(lib, e, id, c, runId)
  }

  ghost predicate FromCase(lib: Library, e: Db, id: string, c: JunitCase, runId: string) {
    && c.failure.Some?
    && FailureFrom(lib, e, id, c.failure.value, TestIdOf(lib, runId, "cocotb", c.test.name), runId)
  }

  lemma CaseAdds(lib: Library, d: Db, now: string, runId: string, file: JunitFile, k: nat)
    requires k < |file.cases|
    ensures var e := IndexCase(lib, d, now, runId, file.cases, file.cases[k]);
      && (forall id :: OldOrCase(lib, d, e, id, file, runId))
      && d.failures.Keys <= e.failures.Keys
      && (file.cases[k].failure.Some? ==>
            FailureIdOf(lib, file.cases[k].failure.value, TestIdOf(lib, runId, "cocotb", file.cases[k].test.name))
              in e.failures)
  {
    hide FailureIdOf, TestIdOf, FailureFrom, TestRow, FailuresNamed, IndexFailures;
    var c := file.cases[k];
    var testId := TestIdOf(lib, runId, "cocotb", c.test.name);
    var fs := FailuresNamed(file.cases, c.test.name);
    var d1 := PutTest(d, testId, TestRow(lib, now, runId, "cocotb", c.test, CaseStatus(c)));
    var e := IndexCase(lib, d, now, runId, file.cases, c);
    FailuresAdd(lib, d1, fs, testId, runId);
    forall id ensures OldOrCase(lib, d, e, id, file, runId) {
      assert OldOrFrom(lib, d1, e, id, fs, testId, runId);
      if f :| f in fs && FailureFrom(lib, e, id, f, testId, runId) {
        NamedMembers(file.cases, c.test.name, f);
        var x :| x in file.cases && x.test.name == c.test.name && x.failure == Some(f);
        assert FromCase(lib, e, id, x, runId);
      }
    }
    if c.failure.Some? {
      assert c in file.cases;
      NamedMembers(file.cases, c.test.name, c.failure.value);
    }
  }

  lemma {:induction false} CasesAdd(lib: Library, d: Db, now: string, runId: string, file: JunitFile, n: nat)
    requires n <= |file.cases|
    ensures var e := IndexCases(lib, d, now, runId, file.cases, n);
      && (forall id :: OldOrCase(lib, d, e, id, file, runId))
      && d.failures.Keys <= e.failures.Keys
      && forall k :: 0 <= k < n && file.cases[k].failure.Some? ==>
           FailureIdOf(lib, file.cases[k].failure.value, TestIdOf(lib, runId, "cocotb", file.cases[k].test.name))
             in e.failures
  {
    hide FailureIdOf, TestIdOf, FailureSays, IndexCase;
    if n > 0 {
      CasesAdd(lib, d, now, runId, file, n - 1);
      var front := IndexCases(lib, d, now, runId, file.cases, n - 1);
      CaseAdds(lib, front, now, runId, file, n - 1);
      var e := IndexCases(lib, d, now, runId, file.cases, n);
      forall id ensures OldOrCase(lib, d, e, id, file, runId) {
        assert OldOrCase(lib, d, front, id, file, runId) && OldOrCase(lib, front, e, id, file, runId);
        if Lookup(e.failures, id) == Lookup(front.failures, id) {
          if c :| c in file.cases && FromCase(lib, front, id, c, runId) { assert FromCase(lib, e, id, c, runId); }
        }
      }
    }
  }

  /** Row `id` is old, or that of a failure the step reports. */
  ghost predicate OldOrReported(lib: Library, d: Db, e: Db, id: string, step: Step) {
    || Lookup(e.failures, id) == Lookup(d.failures, id)
    || exists f, t, r :: StepReports(lib, step, f, t, r) && FailureFrom(lib, e, id, f, t, r)
  }

  ghost predicate Arrived(lib: Library, e: Db, step: Step) {
    forall f, t, r :: StepReports(lib, step, f, t, r) ==> FailureIdOf(lib, f, t) in e.failures
  }

  lemma UvmAdds(lib: Library, d: Db, step: Step)
    requires step.artifact.UvmArtifact?
    ensures var e := IndexArtifact(lib, d, step);
      && (forall id :: OldOrReported(lib, d, e, id, step)) && d.failures.Keys <= e.failures.Keys
      && Arrived(lib, e, step)
  {
    hide FailureIdOf, TestIdOf, FailureFrom, RunIdOf, MergeRun, TestRow, IndexFailures;
    var log := step.artifact.log;
    if log.location.withinLimit && log.test.Some? {
      var runId := RunIdOf(lib, log.location, false);
      var testId := TestIdOf(lib, runId, "uvm", log.test.value.name);
      var base, e := UvmBase(lib, d, step.now, log), IndexArtifact(lib, d, step);
      FailuresAdd(lib, base, log.failures, testId, runId);
      forall id ensures OldOrReported(lib, d, e, id, step) {
        assert OldOrFrom(lib, base, e, id, log.failures, testId, runId);
        if f :| f in log.failures && FailureFrom(lib, e, id, f, testId, runId) {
          assert StepReports(lib, step, f, testId, runId);
        }
      }
    }
  }

  lemma JunitAdds(lib: Library, d: Db, step: Step)
    requires step.artifact.JunitArtifact?
    ensures var e := IndexArtifact(lib, d, step);
      && (forall id :: OldOrReported(lib, d, e, id, step)) && d.failures.Keys <= e.failures.Keys
      && Arrived(lib, e, step)
  {
    hide FailureIdOf, TestIdOf, FailureFrom, RunIdOf, MergeRun, IndexCases;
    var file := step.artifact.junit;
    if file.location.withinLimit && file.cases != [] {
      var runId := RunIdOf(lib, file.location, true);
      var d1 := UpsertRun(lib, d, runId, NewRun(lib, file.location, step.now, JunitStatus(file.cases)));
      var e := IndexArtifact(lib, d, step);
      CasesAdd(lib, d1, step.now, runId, file, |file.cases|);
      forall id ensures OldOrReported(lib, d, e, id, step) {
        assert OldOrCase(lib, d1, e, id, file, runId);
        if c :| c in file.cases && FromCase(lib, e, id, c, runId) {
          var t := TestIdOf(lib, runId, "cocotb", c.test.name);
          assert StepReports(lib, step, c.failure.value, t, runId);
        }
      }
      forall f, t, r | StepReports(lib, step, f, t, r) ensures FailureIdOf(lib, f, t) in e.failures {
        var c :| c in file.cases && c.failure == Some(f) && t == TestIdOf(lib, runId, "cocotb", c.test.name);
        var k :| 0 <= k < |file.cases| && file.cases[k] == c;
      }
    }
  }

  lemma StepAdds(lib: Library, d: Db, step: Step)
    ensures var e := IndexArtifact(lib, d, step);
      && (forall id :: OldOrReported(lib, d, e, id, step)) && d.failures.Keys <= e.failures.Keys
      && Arrived(lib, e, step)
  {
    hide IndexArtifact, FailureFrom, FailureIdOf, RunIdOf, TestIdOf;
    match step.artifact {
      case UvmArtifact(_) => UvmAdds(lib, d, step);
      case JunitArtifact(_) => JunitAdds(lib, d, step);
      case _ =>
        OthersFrame(lib, d, step);
    }
  }

  /** Some artifact reports a failure that the row `id` tells, column by column. */
  ghost predicate Told(lib: Library, d: Db, steps: seq<Step>, id: string) {
    exists i, f, t, r :: 0 <= i < |steps| && StepReports(lib, steps[i], f, t, r) && FailureFrom(lib, d, id, f, t, r)
  }

  /** The failures of an index are those its artifacts report: each row tells one of them, and each has its row. */
  lemma {:induction false} FailuresComeFrom(lib: Library, steps: seq<Step>)
    ensures var d := IndexSteps(lib, EMPTY, steps);
      && (forall id :: id in d.failures ==> Told(lib, d, steps, id))
      && forall i :: 0 <= i < |steps| ==> Arrived(lib, d, steps[i])
  {
    hide IndexArtifact, FailureSays, FailureIdOf, StepReports;
    if steps != [] {
      var n := |steps| - 1;
      FailuresComeFrom(lib, steps[..n]);
      var d, e := IndexSteps(lib, EMPTY, steps[..n]), IndexSteps(lib, EMPTY, steps);
      StepAdds(lib, d, steps[n]);
      forall id | id in e.failures ensures Told(lib, e, steps, id) {
        assert OldOrReported(lib, d, e, id, steps[n]);
        if Lookup(e.failures, id) == Lookup(d.failures, id) {
          assert Told(lib, d, steps[..n], id);
          var i, f, t, r :|
            0 <= i < n && StepReports(lib, steps[..n][i], f, t, r) && FailureFrom(lib, d, id, f, t, r);
          assert StepReports(lib, steps[i], f, t, r) && FailureFrom(lib, e, id, f, t, r);
        }
      }
      forall i | 0 <= i < |steps| ensures Arrived(lib, e, steps[i]) {
        if i < n { assert Arrived(lib, d, steps[..n][i]); }
      }
    }
  }

  // ---- tests ----

  /** The step reports the test, with the framework, the run and the verdict. */
  ghost predicate StepTests(
    lib: Library, step: Step, t: ParsedTest, framework: string, runId: string, fails: bool)
  {
    match step.artifact
    case UvmArtifact(log) =>
      && log.location.withinLimit && log.test == Some(t) && framework == "uvm"
      && runId == RunIdOf(lib, log.location, false) && (fails <==> |log.failures| > 0)
    case JunitArtifact(file) =>
      && file.location.withinLimit && framework == "cocotb" && runId == RunIdOf(lib, file.location, true)
      && exists c :: c in file.cases && c.test == t && (fails <==> c.failure.Some?)
    case _ => false
  }

  ghost predicate TestSays(
    lib: Library, now: string, row: Test, t: ParsedTest, framework: string, runId: string, fails: bool)
  {
    && row.runId == runId && row.framework == framework && row.name == t.name && row.seed == t.seed
    && row.status == (if fails then "fail" else "pass") && row.durationMs == t.durationMs
    && row.simVendor == t.simulator && row.dutTop == None
    && row.createdAt == now && row.createdAtMs == lib.epochMs(now)
  }

  ghost predicate TestTold(lib: Library, steps: seq<Step>, row: Test) {
    exists i, t, framework, runId, fails ::
      0 <= i < |steps| && StepTests(lib, steps[i], t, framework, runId, fails)
      && TestSays(lib, steps[i].now, row, t, framework, runId, fails)
  }

  lemma WriteTold(lib: Library, step: Step, k: nat)
    requires k < |TestWrites(lib, step)|
    ensures exists t, framework, runId, fails ::
      StepTests(lib, step, t, framework, runId, fails)
      && TestSays(lib, step.now, TestWrites(lib, step)[k].row, t, framework, runId, fails)
  {
    hide RunIdOf, TestIdOf;
    var row := TestWrites(lib, step)[k].row;
    match step.artifact {
      case UvmArtifact(log) =>
        var runId := RunIdOf(lib, log.location, false);
        assert StepTests(lib, step, log.test.value, "uvm", runId, |log.failures| > 0);
        assert TestSays(lib, step.now, row, log.test.value, "uvm", runId, |log.failures| > 0);
      case JunitArtifact(file) =>
        var runId, c := RunIdOf(lib, file.location, true), file.cases[k];
        assert TestWrites(lib, step)[k] == CaseWrite(lib, step.now, runId, c);
        assert c in file.cases && StepTests(lib, step, c.test, "cocotb", runId, c.failure.Some?);
        assert TestSays(lib, step.now, row, c.test, "cocotb", runId, c.failure.Some?);
    }
  }

  lemma {:induction false} WritesTold(lib: Library, steps: seq<Step>, k: nat)
    requires k < |AllTestWrites(lib, steps)|
    ensures TestTold(lib, steps, AllTestWrites(lib, steps)[k].row)
  {
    hide TestWrites, StepTests, TestSays;
    var n := |steps| - 1;
    var front := AllTestWrites(lib, steps[..n]);
    var row := AllTestWrites(lib, steps)[k].row;
    if k < |front| {
      WritesTold(lib, steps[..n], k);
      var i, t, framework, runId, fails :|
        0 <= i < n && StepTests(lib, steps[..n][i], t, framework, runId, fails)
        && TestSays(lib, steps[..n][i].now, row, t, framework, runId, fails);
      assert StepTests(lib, steps[i], t, framework, runId, fails)
        && TestSays(lib, steps[i].now, row, t, framework, runId, fails);
    } else {
      WriteTold(lib, steps[n], k - |front|);
      var t, framework, runId, fails :|
        StepTests(lib, steps[n], t, framework, runId, fails)
        && TestSays(lib, steps[n].now, TestWrites(lib, steps[n])[k - |front|].row, t, framework, runId, fails);
      assert TestSays(lib, steps[n].now, row, t, framework, runId, fails);
    }
  }

  /** Every test row of an index tells a test that some artifact reports, column by column. */
  lemma TestsTold(lib: Library, steps: seq<Step>, t: string)
    requires t in IndexSteps(lib, EMPTY, steps).tests
    ensures TestTold(lib, steps, IndexSteps(lib, EMPTY, steps).tests[t])
  {
    hide IndexSteps, AllTestWrites, TestTold;
    TestsAreWrites(lib, steps);
    var ws := AllTestWrites(lib, steps);
    WritesLast(ws, t);
    var k: nat :| IsLast(ws, k) && ws[k].id == t;
    WritesTold(lib, steps, k);
    assert Lookup(IndexSteps(lib, EMPTY, steps).tests, t) == Some(ws[k].row);
  }

  // ---- assertion definitions ----

  /** The row says what the definition says. */
  ghost predicate DefinitionSays(row: Assertion, a: Definition) {
    && row.name == a.name && row.scope == a.scope && row.file == a.file && row.line == a.line
    && row.language == a.language && row.signals == a.signals && row.tags == a.tags
    && row.intentProtocol == a.intentProtocol && row.intentRequirement == a.intentRequirement
  }

  /** No later definition of the bundle has the same id. */
  ghost predicate LastDefined(lib: Library, defs: seq<Definition>, i: nat)
    requires i < |defs|
  {
    forall j :: i < j < |defs| ==> DefinitionIdOf(lib, defs[j]) != DefinitionIdOf(lib, defs[i])
  }

  lemma {:induction false} DefinitionsAdded(lib: Library, p: Persisted, defs: seq<Definition>, i: nat)
    requires i < |defs| && LastDefined(lib, defs, i)
    ensures var id := DefinitionIdOf(lib, defs[i]);
      var e := AddDefinitions(lib, p, defs).db;
      id in e.assertions && DefinitionSays(e.assertions[id], defs[i])
  {
    hide DefinitionIdOf;
    var n := |defs| - 1;
    if i < n {
      assert LastDefined(lib, defs[..n], i);
      DefinitionsAdded(lib, p, defs[..n], i);
      assert DefinitionIdOf(lib, defs[n]) != DefinitionIdOf(lib, defs[i]);
    }
  }

  /** A synthetic definition never takes the place of a real one. */
  lemma OneFailureKeeps(
    lib: Library, p: Persisted, f: BundleFailure, a: Definition, testId: string, runId: string, source: string)
    requires LibraryOk(lib)
    ensures var id := DefinitionIdOf(lib, a);
      Lookup(AddFailure(lib, p, f, testId, runId, source).db.assertions, id) == Lookup(p.db.assertions, id)
  {
    hide ReplaceEvidence, Normalize;
    assert NoCollision(lib,
      DefinitionId(
        Normalize(a.name, true), Normalize(a.scope, true), Normalize(a.file, true), a.line,
        Normalize(a.language, false)),
      UnknownAssertionId(testId, Take(lib.stripVolatile(Normalize(f.message, true)), 200)));
  }

  lemma {:induction false} AddedFailuresKeep(
    lib: Library, p: Persisted, fs: seq<BundleFailure>, a: Definition, testId: string, runId: string, source: string)
    requires LibraryOk(lib)
    ensures var id := DefinitionIdOf(lib, a);
      Lookup(AddFailures(lib, p, fs, testId, runId, source).db.assertions, id) == Lookup(p.db.assertions, id)
  {
    hide AddFailure, DefinitionIdOf, LibraryOk;
    if fs != [] {
      var n := |fs| - 1;
      AddedFailuresKeep(lib, p, fs[..n], a, testId, runId, source);
      OneFailureKeeps(lib, AddFailures(lib, p, fs[..n], testId, runId, source), fs[n], a, testId, runId, source);
    }
  }

  /** A persisted bundle leaves each of its definitions on file, column by column. */
  lemma DefinitionsStored(
    lib: Library, d: Db, defs: seq<Definition>, fs: seq<BundleFailure>, testId: string, runId: string, source: string,
    i: nat)
    requires LibraryOk(lib) && i < |defs| && LastDefined(lib, defs, i)
    ensures var id, e := DefinitionIdOf(lib, defs[i]), PersistBundle(lib, d, defs, fs, testId, runId, source);
      id in e.assertions && DefinitionSays(e.assertions[id], defs[i])
  {
    hide AddFailures, AddDefinitions, DefinitionIdOf, LibraryOk;
    var p := AddDefinitions(lib, Persisted(d, map[]), defs);
    DefinitionsAdded(lib, Persisted(d, map[]), defs, i);
    AddedFailuresKeep(lib, p, fs, defs[i], testId, runId, source);
  }

  /** Two definitions share an id exactly when name, scope and file agree up to spelling, and line and language do. */
  lemma DefinitionIdExact(lib: Library, a: Definition, b: Definition)
    requires LibraryOk(lib)
    ensures DefinitionIdOf(lib, a) == DefinitionIdOf(lib, b) <==>
      && Normalize(a.name, true) == Normalize(b.name, true) && Normalize(a.scope, true) == Normalize(b.scope, true)
      && Normalize(a.file, true) == Normalize(b.file, true) && a.line == b.line
      && Normalize(a.language, false) == Normalize(b.language, false)
  {
    assert NoCollision(lib,
      DefinitionId(
        Normalize(a.name, true), Normalize(a.scope, true), Normalize(a.file, true), a.line,
        Normalize(a.language, false)),
      DefinitionId(
        Normalize(b.name, true), Normalize(b.scope, true), Normalize(b.file, true), b.line,
        Normalize(b.language, false)));
  }

  /** Two failures share an id exactly when test, severity, category and steady part of the summary agree. */
  lemma FailureIdExact(lib: Library, f: ParsedFailure, g: ParsedFailure, t: string, u: string)
    requires LibraryOk(lib)
    ensures var a, b := FailureRow(lib, f, t, ""), FailureRow(lib, g, u, "");
      FailureIdOf(lib, f, t) == FailureIdOf(lib, g, u) <==>
        && t == u && Normalize(a.severity, false) == Normalize(b.severity, false)
        && Normalize(a.category, false) == Normalize(b.category, false)
        && lib.stripVolatile(Normalize(a.summary, true)) == lib.stripVolatile(Normalize(b.summary, true))
  {
    var a, b := FailureRow(lib, f, t, ""), FailureRow(lib, g, u, "");
    assert NoCollision(lib,
      FailureId(t, Normalize(a.severity, false), Normalize(a.category, false),
                lib.stripVolatile(Normalize(a.summary, true))),
      FailureId(u, Normalize(b.severity, false), Normalize(b.category, false),
                lib.stripVolatile(Normalize(b.summary, true))));
  }

  // ---- how many rows there are ----

  predicate Counts(a: Artifact) { a.CoverageArtifact? && a.report.location.withinLimit && a.report.readable }

  function ReportCount(steps: seq<Step>): nat {
    if steps == [] then 0
    else ReportCount(steps[..|steps| - 1]) + if Counts(steps[|steps| - 1].artifact) then 1 else 0
  }

  function StatusCount(steps: seq<Step>): nat {
    if steps == [] then 0
    else
      var a := steps[|steps| - 1].artifact;
      StatusCount(steps[..|steps| - 1])
      + if a.SvaArtifact? && a.sva.location.withinLimit && a.sva.readable then |a.sva.entries| else 0
  }

  lemma {:induction false} SvaRowCount(lib: Library, d: Db, es: seq<SvaEntry>, test: Option<string>)
    ensures |AddSvaRows(lib, d, es, test).sva.rows| == |d.sva.rows| + |es|
  {
    hide SvaRow;
    if es != [] { SvaRowCount(lib, d, es[..|es| - 1], test); }
  }

  lemma CoverageRowCount(lib: Library, d: Db, now: string, c: CoverageFile)
    ensures |IndexCoverage(lib, d, now, c).coverage.rows|
      == |d.coverage.rows| + if c.location.withinLimit && c.readable then 1 else 0
  {
    hide IndexCoverage;
    if c.location.withinLimit && c.readable {
      FinishedIndex.OneReport(lib, d, now, c);
    } else {
      FinishedIndex.UnreadNothing(lib, d, now, c);
    }
  }

  /** One coverage row for each readable report, and one status row for each entry of a readable status file. */
  lemma {:induction false} RowCounts(lib: Library, steps: seq<Step>)
    requires LibraryOk(lib)
    ensures var d := IndexSteps(lib, EMPTY, steps);
      |d.coverage.rows| == ReportCount(steps) && |d.sva.rows| == StatusCount(steps)
  {
    hide IndexCoverage, LibraryOk, Consistent, ResolveTest;
    if steps != [] {
      var n := |steps| - 1;
      RowCounts(lib, steps[..n]);
      ReachableConsistent(lib, steps[..n]);
      var d := IndexSteps(lib, EMPTY, steps[..n]);
      FinishedIndex.OneTableLeft(lib, d, steps[n]);
      match steps[n].artifact {
        case CoverageArtifact(c) => CoverageRowCount(lib, d, steps[n].now, c);
        case SvaArtifact(s) =>
          SvaRowCount(lib, d, s.entries, if Given(s.testName) then ResolveTest(d, s.testName.value, None) else None);
        case _ =>
      }
    }
  }

  // ---- runs ----

  /** The step reports the row on a run: the place it was found at, the time, and a verdict. */
  ghost predicate RunSays(lib: Library, step: Step, row: Run) {
    && row.createdAt == step.now && row.createdAtMs == lib.epochMs(step.now)
    && match step.artifact
       case UvmArtifact(log) =>
         FoundAt(log.location, row) && row.status == if |log.failures| > 0 then "fail" else "pass"
       case JunitArtifact(file) =>
         && FoundAt(file.location, row)
         && row.status == if exists c :: c in file.cases && c.failure.Some? then "fail" else "pass"
       case CoverageArtifact(c) => FoundAt(c.location, row) && row.status == "pass"
       case _ => false
  }

  predicate FoundAt(l: Location, row: Run) {
    && row.suite == l.suite && row.ciSystem == l.ciSystem && row.ciBuildId == l.ciBuildId && row.ciJobUrl == l.ciJobUrl
  }

  /** The reports that a run's row sums up are those of the artifacts, column by column. */
  lemma {:induction false} ReportsSay(lib: Library, steps: seq<Step>, runId: string, k: nat)
    requires k < |RunHistory.Reports(lib, steps, runId)|
    ensures exists i :: 0 <= i < |steps| && RunSays(lib, steps[i], RunHistory.Reports(lib, steps, runId)[k])
  {
    hide RunIdOf, CoverageTest;
    var n := |steps| - 1;
    var front := RunHistory.Reports(lib, steps[..n], runId);
    var row := RunHistory.Reports(lib, steps, runId)[k];
    if k < |front| {
      ReportsSay(lib, steps[..n], runId, k);
      var i :| 0 <= i < n && RunSays(lib, steps[..n][i], row);
      assert RunSays(lib, steps[i], row);
    } else {
      assert RunSays(lib, steps[n], row);
    }
  }

  lemma {:induction false} MergedTime(lib: Library, reports: seq<Run>)
    requires reports != []
    requires forall i :: 0 <= i < |reports| ==> reports[i].createdAtMs == lib.epochMs(reports[i].createdAt)
    ensures var row := RunHistory.MergeAll(lib, reports).value; row.createdAtMs == lib.epochMs(row.createdAt)
  {
    var n := |reports| - 1;
    if n > 0 { MergedTime(lib, reports[..n]); }
  }

  /** The time a run is compared by is its creation time. */
  lemma RunTimes(lib: Library, steps: seq<Step>, runId: string)
    requires LibraryOk(lib) && runId in IndexSteps(lib, EMPTY, steps).runs
    ensures var row := IndexSteps(lib, EMPTY, steps).runs[runId]; row.createdAtMs == lib.epochMs(row.createdAt)
  {
    hide IndexSteps, LibraryOk, RunSays;
    var reports := RunHistory.Reports(lib, steps, runId);
    RunHistory.RunIsMerge(lib, steps, runId);
    forall k | 0 <= k < |reports| ensures reports[k].createdAtMs == lib.epochMs(reports[k].createdAt) {
      ReportsSay(lib, steps, runId, k);
      SaysTime(lib);
    }
    MergedTime(lib, reports);
  }

  lemma SaysTime(lib: Library)
    ensures forall step, row :: RunSays(lib, step, row) ==> row.createdAtMs == lib.epochMs(row.createdAt)
  {
  }

  /** Results and coverage with complete CI metadata share the run of their build, whatever files they are. */
  lemma BuildRunExact(lib: Library, l: Location, m: Location)
    requires LibraryOk(lib) && Given(l.ciSystem) && Given(l.ciBuildId) && Given(m.ciSystem) && Given(m.ciBuildId)
    ensures RunIdOf(lib, l, true) == RunIdOf(lib, m, true) <==>
      && Normalize(l.suite, false) == Normalize(m.suite, false)
      && Normalize(l.ciSystem.value, false) == Normalize(m.ciSystem.value, false)
      && Normalize(l.ciBuildId.value, true) == Normalize(m.ciBuildId.value, true)
      && (Given(l.ciJobUrl) <==> Given(m.ciJobUrl))
      && (Given(l.ciJobUrl) ==> lib.normalizeUrl(l.ciJobUrl.value) == lib.normalizeUrl(m.ciJobUrl.value))
  {
    hide Normalize;
    var x := RunInputOf(l.suite, l.ciSystem, l.ciBuildId, l.ciJobUrl, [], lib.normalizeUrl);
    var y := RunInputOf(m.suite, m.ciSystem, m.ciBuildId, m.ciJobUrl, [], lib.normalizeUrl);
    assert NoCollision(lib, RunId(x.value), RunId(y.value));
    CiRunIdentity(l.suite, l.ciSystem, l.ciBuildId, l.ciJobUrl, [], m.suite, m.ciSystem, m.ciBuildId, m.ciJobUrl, [],
      lib.normalizeUrl);
  }

  /** A log, or a file without complete CI metadata, has a run told apart by its suite, path and contents. */
  lemma FileRunExact(lib: Library, l: Location, m: Location, useCi: bool)
    requires LibraryOk(lib) && ':' !in l.hash && ':' !in m.hash
    requires useCi ==> !(Given(l.ciSystem) && Given(l.ciBuildId)) && !(Given(m.ciSystem) && Given(m.ciBuildId))
    ensures RunIdOf(lib, l, useCi) == RunIdOf(lib, m, useCi) <==>
      Normalize(l.suite, false) == Normalize(m.suite, false) && l.path == m.path && l.hash == m.hash
  {
    hide Normalize;
    var x, y := FileEntry(l.path, l.hash), FileEntry(m.path, m.hash);
    assert NoCollision(lib, RunId(FromManifest(Normalize(l.suite, false), ManifestText([x]))),
      RunId(FromManifest(Normalize(m.suite, false), ManifestText([y]))));
    SingletonIdentity(x, y);
  }

  /** Two tests share an id exactly when run, framework and name agree up to spelling. */
  lemma TestIdExact(lib: Library, r: string, f: string, n: string, s: string, g: string, m: string)
    requires LibraryOk(lib)
    ensures TestIdOf(lib, r, f, n) == TestIdOf(lib, s, g, m) <==>
      r == s && Normalize(f, false) == Normalize(g, false) && Normalize(n, true) == Normalize(m, true)
  {
    hide Normalize;
    assert NoCollision(lib, TestId(r, Normalize(f, false), Normalize(n, true)),
      TestId(s, Normalize(g, false), Normalize(m, true)));
  }

  // ---- evidence of assertion failures ----

  /** What a bundle failure cites: its source, and its message as the extract. */
  function CitedBy(f: BundleFailure, source: string): seq<EvidenceRef> {
    [EvidenceRef("log", source, None, None, None, None, Some(f.message))]
  }

  lemma {:induction false} BundleEvidence(
    lib: Library, p: Persisted, fs: seq<BundleFailure>, testId: string, runId: string, source: string, k: nat)
    requires k < |fs|
    ensures var q := AddFailures(lib, p, fs, testId, runId, source);
      GetEvidence(q.db.evidence, "assertion_failure", PythonText.Decimal(p.db.assertionFailures.next + k))
        == lib.normalizeRefs(CitedBy(fs[k], source))
  {
    hide UnknownIdOf, ReplaceEvidence, GetEvidence;
    var n := |fs| - 1;
    var front := AddFailures(lib, p, fs[..n], testId, runId, source);
    BundleRowsRecorded(lib, p, fs[..n], testId, runId, source);
    var last, id := p.db.assertionFailures.next + n, p.db.assertionFailures.next + k;
    EvidenceReadsBack(front.db.evidence, "assertion_failure", PythonText.Decimal(last),
      lib.normalizeRefs(CitedBy(fs[n], source)), "assertion_failure", PythonText.Decimal(id));
    if k < n {
      BundleEvidence(lib, p, fs[..n], testId, runId, source, k);
      if PythonText.Decimal(id) == PythonText.Decimal(last) { PythonText.DecimalInjective(id, last); }
    }
  }

  /** A coverage row cites the report it comes from, as coverage. */
  lemma CoverageEvidence(lib: Library, d: Db, now: string, c: CoverageFile)
    requires c.location.withinLimit && c.readable
    ensures GetEvidence(IndexCoverage(lib, d, now, c).evidence, "coverage", PythonText.Decimal(d.coverage.next))
      == [EvidenceRef("coverage", c.location.path, None, None, None, None, None)]
  {
    hide RunIdOf, UpsertRun, CoverageTest, NewRun, ReplaceEvidence, GetEvidence;
    forall e: EvidenceTable, refs ensures
      GetEvidence(ReplaceEvidence(e, "coverage", PythonText.Decimal(d.coverage.next), refs), "coverage",
        PythonText.Decimal(d.coverage.next)) == refs
    {
      var id := PythonText.Decimal(d.coverage.next);
      EvidenceReadsBack(e, "coverage", id, refs, "coverage", id);
    }
    forall r, run ensures UpsertRun(lib, d, r, run) == d.(runs := UpsertRun(lib, d, r, run).runs) {
      FinishedIndex.RunsOnly(lib, d, r, run);
    }
  }

  /** A failure of an assertion that its bundle does not define is filed against one marked as unknown. */
  lemma UnknownMarked(
    lib: Library, p: Persisted, f: BundleFailure, testId: string, runId: string, source: string)
    requires f.name !in p.names && (f.name == "" ==> "unknown" !in p.names)
    ensures var q := AddFailure(lib, p, f, testId, runId, source);
      var rows := q.db.assertionFailures.rows;
      && rows != [] && rows[|rows| - 1].data.assertionId in q.db.assertions
      && var a := q.db.assertions[rows[|rows| - 1].data.assertionId];
         && a.language == "unknown" && a.scope == "synthetic" && a.file == "unknown.sv" && a.line == 1
         && "unknown_assertion_" <= a.name && a.tags == ["unknown"] && a.signals == []
  {
    hide ReplaceEvidence, UnknownIdOf;
    assert BundleName(f) !in p.names;
  }

  // ---- topologies ----

  /** The step is a log of the test with this topology. */
  ghost predicate Shows(lib: Library, step: Step, t: string, topology: string) {
    match step.artifact
    case UvmArtifact(log) =>
      && log.location.withinLimit && log.test.Some? && log.topology == Some(topology)
      && t == TestIdOf(lib, RunIdOf(lib, log.location, false), "uvm", log.test.value.name)
    case _ => false
  }

  lemma StepTopologies(lib: Library, d: Db, step: Step, t: string)
    requires LibraryOk(lib) && Consistent(lib, d)
    ensures var before, after := Lookup(d.topologies, t), Lookup(IndexArtifact(lib, d, step).topologies, t);
      || (after.Some? && Shows(lib, step, t, after.value))
      || (after == before && forall x :: !Shows(lib, step, t, x))
  {
    hide RunIdOf, TestIdOf, IndexFailures, MergeRun, TestRow, Consistent, LibraryOk;
    hide IndexJunit, IndexWave, IndexBundle, IndexLogAssertions, IndexCoverage, IndexSva;
    match step.artifact {
      case UvmArtifact(log) =>
        if log.location.withinLimit && log.test.Some? {
          var runId := RunIdOf(lib, log.location, false);
          var testId := TestIdOf(lib, runId, "uvm", log.test.value.name);
          FailuresKeepTopologies(lib, UvmBase(lib, d, step.now, log), log.failures, testId, runId);
        }
      case _ => OtherTopologies(lib, d, step);
    }
  }

  lemma {:induction false} FailuresKeepTopologies(
    lib: Library, d: Db, fs: seq<ParsedFailure>, testId: string, runId: string)
    ensures IndexFailures(lib, d, fs, testId, runId).topologies == d.topologies
  {
    if fs != [] { FailuresKeepTopologies(lib, d, fs[..|fs| - 1], testId, runId); }
  }

  lemma {:induction false} CasesKeepTopologies(
    lib: Library, d: Db, now: string, runId: string, cases: seq<JunitCase>, n: nat)
    requires n <= |cases|
    ensures IndexCases(lib, d, now, runId, cases, n).topologies == d.topologies
  {
    hide TestIdOf, TestRow, FailuresNamed;
    if n > 0 {
      CasesKeepTopologies(lib, d, now, runId, cases, n - 1);
      var c, e := cases[n - 1], IndexCases(lib, d, now, runId, cases, n - 1);
      var testId := TestIdOf(lib, runId, "cocotb", c.test.name);
      FailuresKeepTopologies(lib, PutTest(e, testId, TestRow(lib, now, runId, "cocotb", c.test, CaseStatus(c))),
        FailuresNamed(cases, c.test.name), testId, runId);
    }
  }

  lemma {:induction false} BundleKeepsTopologies(
    lib: Library, p: Persisted, defs: seq<Definition>, fs: seq<BundleFailure>,
    testId: string, runId: string, source: string)
    ensures AddFailures(lib, AddDefinitions(lib, p, defs), fs, testId, runId, source).db.topologies == p.db.topologies
    decreases |defs| + |fs|
  {
    hide ReplaceEvidence, UnknownIdOf, DefinitionIdOf;
    if fs != [] {
      BundleKeepsTopologies(lib, p, defs, fs[..|fs| - 1], testId, runId, source);
    } else if defs != [] {
      BundleKeepsTopologies(lib, p, defs[..|defs| - 1], [], testId, runId, source);
    }
  }

  lemma {:induction false} StatusKeepsTopologies(lib: Library, d: Db, es: seq<SvaEntry>, test: Option<string>)
    ensures AddSvaRows(lib, d, es, test).topologies == d.topologies
  {
    hide SvaRow;
    if es != [] { StatusKeepsTopologies(lib, d, es[..|es| - 1], test); }
  }

  lemma JunitKeepsTopologies(lib: Library, d: Db, now: string, file: JunitFile)
    ensures IndexJunit(lib, d, now, file).topologies == d.topologies
  {
    hide RunIdOf, UpsertRun, IndexCases, NewRun;
    if file.location.withinLimit && file.cases != [] {
      var runId := RunIdOf(lib, file.location, true);
      var run := NewRun(lib, file.location, now, JunitStatus(file.cases));
      FinishedIndex.RunsOnly(lib, d, runId, run);
      CasesKeepTopologies(lib, UpsertRun(lib, d, runId, run), now, runId, file.cases, |file.cases|);
    }
  }

  lemma CoverageKeepsTopologies(lib: Library, d: Db, now: string, c: CoverageFile)
    ensures IndexCoverage(lib, d, now, c).topologies == d.topologies
  {
    hide RunIdOf, UpsertRun, CoverageTest, NewRun, ReplaceEvidence;
    forall r, run ensures UpsertRun(lib, d, r, run) == d.(runs := UpsertRun(lib, d, r, run).runs) {
      FinishedIndex.RunsOnly(lib, d, r, run);
    }
  }

  lemma PersistKeepsTopologies(
    lib: Library, d: Db, defs: seq<Definition>, fs: seq<BundleFailure>, source: string)
    ensures forall t, r :: PersistBundle(lib, d, defs, fs, t, r, source).topologies == d.topologies
  {
    hide AddFailures, AddDefinitions;
    forall t, r ensures PersistBundle(lib, d, defs, fs, t, r, source).topologies == d.topologies {
      BundleKeepsTopologies(lib, Persisted(d, map[]), defs, fs, t, r, source);
    }
  }

  lemma WaveKeepsTopologies(lib: Library, d: Db, wave: WaveFile)
    ensures IndexWave(lib, d, wave).topologies == d.topologies
  {
    hide FindEither;
  }

  lemma OtherTopologies(lib: Library, d: Db, step: Step)
    requires !step.artifact.UvmArtifact?
    ensures IndexArtifact(lib, d, step).topologies == d.topologies
  {
    hide IndexJunit, IndexCoverage, IndexWave, PersistBundle, ResolveTest, ResolveTwice, AddSvaRows;
    match step.artifact {
      case JunitArtifact(file) => JunitKeepsTopologies(lib, d, step.now, file);
      case WaveArtifact(wave) => WaveKeepsTopologies(lib, d, wave);
      case CoverageArtifact(c) => CoverageKeepsTopologies(lib, d, step.now, c);
      case BundleArtifact(b) => PersistKeepsTopologies(lib, d, b.definitions, b.failures, b.location.path);
      case LogAssertionsArtifact(log) => PersistKeepsTopologies(lib, d, [], log.assertionFailures, log.location.path);
      case SvaArtifact(s) =>
        StatusKeepsTopologies(
          lib, d, s.entries, if Given(s.testName) then ResolveTest(d, s.testName.value, None) else None);
    }
  }

  /** The topology of a test is that of the last log that shows one for it; without such a log there is none. */
  lemma {:induction false} TopologyIsLast(lib: Library, steps: seq<Step>, t: string)
    requires LibraryOk(lib)
    ensures var d := IndexSteps(lib, EMPTY, steps);
      if t in d.topologies
      then exists i: nat :: i < |steps| && ShowsLast(lib, steps, t, d.topologies[t], i)
      else forall i, x :: 0 <= i < |steps| ==> !Shows(lib, steps[i], t, x)
  {
    hide IndexArtifact, Shows, LibraryOk, Consistent;
    if steps != [] {
      var n := |steps| - 1;
      TopologyIsLast(lib, steps[..n], t);
      ReachableConsistent(lib, steps[..n]);
      var d, e := IndexSteps(lib, EMPTY, steps[..n]), IndexSteps(lib, EMPTY, steps);
      StepTopologies(lib, d, steps[n], t);
      if t in e.topologies {
        if Shows(lib, steps[n], t, e.topologies[t]) {
          assert ShowsLast(lib, steps, t, e.topologies[t], n);
        } else {
          var i: nat :| i < n && ShowsLast(lib, steps[..n], t, d.topologies[t], i);
          assert ShowsLast(lib, steps, t, e.topologies[t], i);
        }
      } else {
        forall i, x | 0 <= i < |steps| ensures !Shows(lib, steps[i], t, x) {
          if i < n { assert steps[..n][i] == steps[i]; }
        }
      }
    }
  }

  ghost predicate ShowsLast(lib: Library, steps: seq<Step>, t: string, topology: string, i: nat)
    requires i < |steps|
  {
    Shows(lib, steps[i], t, topology) && forall j, x :: i < j < |steps| ==> !Shows(lib, steps[j], t, x)
  }
}
