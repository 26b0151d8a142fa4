/** What a reachable index remembers of the tests written to it: exactly the last row for each id. */
module IndexHistory {
  import opened Common
  import opened Tables
  import opened StoreModel
  import opened IndexingModel
  import opened IndexInvariants
  import opened Ids

  // ---- artifacts other than results leave tests and failures alone ----

  ghost predicate SameResults(d: Db, e: Db) { e.tests == d.tests && e.failures == d.failures }

  lemma {:induction false} DefinitionsFrame(lib: Library, p: Persisted, defs: seq<Definition>)
    ensures SameResults(p.db, AddDefinitions(lib, p, defs).db)
  {
    if defs != [] { DefinitionsFrame(lib, p, defs[..|defs| - 1]); }
  }

  lemma {:induction false} AddedFailuresFrame(
    lib: Library, p: Persisted, fs: seq<BundleFailure>, testId: string, runId: string, source: string)
    ensures SameResults(p.db, AddFailures(lib, p, fs, testId, runId, source).db)
  {
    if fs != [] { AddedFailuresFrame(lib, p, fs[..|fs| - 1], testId, runId, source); }
  }

  lemma {:induction false} SvaRowsFrame(lib: Library, d: Db, es: seq<SvaEntry>, test: Option<string>)
    ensures SameResults(d, AddSvaRows(lib, d, es, test))
  {
    if es != [] { SvaRowsFrame(lib, d, es[..|es| - 1], test); }
  }

  lemma PersistFrame(
    lib: Library, d: Db, defs: seq<Definition>, fs: seq<BundleFailure>, testId: string, runId: string, source: string)
    ensures SameResults(d, PersistBundle(lib, d, defs, fs, testId, runId, source))
  {
    DefinitionsFrame(lib, Persisted(d, map[]), defs);
    AddedFailuresFrame(lib, AddDefinitions(lib, Persisted(d, map[]), defs), fs, testId, runId, source);
  }

  lemma BundleFrame(lib: Library, d: Db, b: Bundle)
    ensures SameResults(d, IndexBundle(lib, d, b))
  {
    if Given(b.testName) {
      var t := ResolveTwice(d, b.testName.value);
      if t.Some? && t.value in d.tests {
        PersistFrame(lib, d, b.definitions, b.failures, t.value, d.tests[t.value].runId, b.location.path);
      }
    }
  }

  lemma LogAssertionsFrame(lib: Library, d: Db, log: UvmLog)
    ensures SameResults(d, IndexLogAssertions(lib, d, log))
  {
    if log.test.Some? {
      var t := ResolveTest(d, log.test.value.name, Some("uvm"));
      if t.Some? && t.value in d.tests {
        PersistFrame(lib, d, [], log.assertionFailures, t.value, d.tests[t.value].runId, log.location.path);
      }
    }
  }

  lemma SvaFrame(lib: Library, d: Db, s: SvaFile)
    ensures SameResults(d, IndexSva(lib, d, s))
  {
    SvaRowsFrame(lib, d, s.entries, if Given(s.testName) then ResolveTest(d, s.testName.value, None) else None);
  }

  lemma CoverageFrame(lib: Library, d: Db, now: string, c: CoverageFile)
    ensures SameResults(d, IndexCoverage(lib, d, now, c))
  {
    hide RunIdOf, CoverageTest, MergeRun, ReplaceEvidence;
  }

  lemma WaveFrame(lib: Library, d: Db, wave: WaveFile)
    ensures SameResults(d, IndexWave(lib, d, wave))
  {
    hide FindEither;
  }

  lemma OthersFrame(lib: Library, d: Db, step: Step)
    requires !step.artifact.UvmArtifact? && !step.artifact.JunitArtifact?
    ensures SameResults(d, IndexArtifact(lib, d, step))
  {
    hide IndexBundle, IndexLogAssertions, IndexSva, IndexCoverage, IndexWave, SameResults;
    match step.artifact {
      case CoverageArtifact(c) => CoverageFrame(lib, d, step.now, c);
      case WaveArtifact(wave) => WaveFrame(lib, d, wave);
      case BundleArtifact(b) => BundleFrame(lib, d, b);
      case LogAssertionsArtifact(log) => LogAssertionsFrame(lib, d, log);
      case SvaArtifact(s) => SvaFrame(lib, d, s);
    }
  }

  // ---- the tests are the last writes ----

  datatype TestWrite = TestWrite(id: string, row: Test)

  function ApplyWrites(tests: map<string, Test>, ws: seq<TestWrite>): map<string, Test> {
    if ws == [] then tests
    else ApplyWrites(tests, ws[..|ws| - 1])[ws[|ws| - 1].id := ws[|ws| - 1].row]
  }

  lemma {:induction false} ApplyBoth(tests: map<string, Test>, a: seq<TestWrite>, b: seq<TestWrite>)
    ensures ApplyWrites(tests, a + b) == ApplyWrites(ApplyWrites(tests, a), b)
  {
    if b == [] {
      assert a + b == a;
    } else {
      assert (a + b)[..|a + b| - 1] == a + b[..|b| - 1];
      ApplyBoth(tests, a, b[..|b| - 1]);
    }
  }

  lemma NoWrites(tests: map<string, Test>)
    ensures ApplyWrites(tests, []) == tests
  {
  }

  lemma OneMoreWrite(tests: map<string, Test>, ws: seq<TestWrite>, n: nat)
    requires 0 < n <= |ws|
    ensures ApplyWrites(tests, ws[..n]) == ApplyWrites(tests, ws[..n - 1])[ws[n - 1].id := ws[n - 1].row]
  {
    assert ws[..n][..n - 1] == ws[..n - 1];
  }

  function UvmWrites(lib: Library, now: string, log: UvmLog): seq<TestWrite> {
    if !log.location.withinLimit || log.test.None? then []
    else
      var runId := RunIdOf(lib, log.location, false);
      [TestWrite(TestIdOf(lib, runId, "uvm", log.test.value.name),
                 TestRow(lib, now, runId, "uvm", log.test.value, UvmStatus(log)))]
  }

  function CaseWrite(lib: Library, now: string, runId: string, c: JunitCase): TestWrite {
    TestWrite(TestIdOf(lib, runId, "cocotb", c.test.name), TestRow(lib, now, runId, "cocotb", c.test, CaseStatus(c)))
  }

  function CaseWrites(lib: Library, now: string, runId: string, cases: seq<JunitCase>): (ws: seq<TestWrite>)
    ensures |ws| == |cases| && forall i :: 0 <= i < |cases| ==> ws[i] == CaseWrite(lib, now, runId, cases[i])
  {
    seq(|cases|, i requires 0 <= i < |cases| => CaseWrite(lib, now, runId, cases[i]))
  }

  /** The test rows an artifact writes, in order. */
  function TestWrites(lib: Library, step: Step): seq<TestWrite> {
    match step.artifact
    case UvmArtifact(log) => UvmWrites(lib, step.now, log)
    case JunitArtifact(file) =>
      if file.location.withinLimit
      then CaseWrites(lib, step.now, RunIdOf(lib, file.location, true), file.cases) else []
    case _ => []
  }

  function AllTestWrites(lib: Library, steps: seq<Step>): seq<TestWrite> {
    if steps == [] then [] else AllTestWrites(lib, steps[..|steps| - 1]) + TestWrites(lib, steps[|steps| - 1])
  }

  lemma CaseTests(lib: Library, d: Db, now: string, runId: string, cases: seq<JunitCase>, c: JunitCase)
    ensures var w := CaseWrite(lib, now, runId, c);
      IndexCase(lib, d, now, runId, cases, c).tests == d.tests[w.id := w.row]
  {
    var w := CaseWrite(lib, now, runId, c);
    FailuresFrame(lib, PutTest(d, w.id, w.row), FailuresNamed(cases, c.test.name), w.id, runId);
  }

  lemma {:induction false} CasesTests(lib: Library, d: Db, now: string, runId: string, cases: seq<JunitCase>, n: nat)
    requires n <= |cases|
    ensures IndexCases(lib, d, now, runId, cases, n).tests
      == ApplyWrites(d.tests, CaseWrites(lib, now, runId, cases)[..n])
  {
    hide IndexCase, ApplyWrites, CaseWrite;
    var ws := CaseWrites(lib, now, runId, cases);
    if n > 0 {
      CasesTests(lib, d, now, runId, cases, n - 1);
      CaseTests(lib, IndexCases(lib, d, now, runId, cases, n - 1), now, runId, cases, cases[n - 1]);
      OneMoreWrite(d.tests, ws, n);
    } else {
      NoWrites(d.tests);
    }
  }

  lemma UvmTests(lib: Library, d: Db, now: string, log: UvmLog)
    ensures IndexUvm(lib, d, now, log).tests == ApplyWrites(d.tests, UvmWrites(lib, now, log))
  {
    hide RunIdOf, TestIdOf, MergeRun;
    if log.location.withinLimit && log.test.Some? {
      var id := RunIdOf(lib, log.location, false);
      var w := UvmWrites(lib, now, log)[0];
      FailuresFrame(lib, UvmBase(lib, d, now, log), log.failures, w.id, id);
      assert [w][..0] == [];
    }
  }

  lemma JunitTests(lib: Library, d: Db, now: string, file: JunitFile)
    ensures IndexJunit(lib, d, now, file).tests == ApplyWrites(d.tests, TestWrites(lib, Step(now, JunitArtifact(file))))
  {
    if file.location.withinLimit && file.cases != [] {
      var id := RunIdOf(lib, file.location, true);
      var d1 := UpsertRun(lib, d, id, NewRun(lib, file.location, now, JunitStatus(file.cases)));
      CasesTests(lib, d1, now, id, file.cases, |file.cases|);
      var ws := CaseWrites(lib, now, id, file.cases);
      assert ws[..|file.cases|] == ws;
    }
  }

  lemma ArtifactTests(lib: Library, d: Db, step: Step)
    ensures IndexArtifact(lib, d, step).tests == ApplyWrites(d.tests, TestWrites(lib, step))
  {
    hide IndexUvm, IndexJunit, IndexWave, IndexBundle, IndexLogAssertions, IndexCoverage, IndexSva;
    match step.artifact {
      case UvmArtifact(log) => UvmTests(lib, d, step.now, log);
      case JunitArtifact(file) => JunitTests(lib, d, step.now, file);
      case _ => OthersFrame(lib, d, step);
    }
  }

  lemma {:induction false} TestsAreWrites(lib: Library, steps: seq<Step>)
    ensures IndexSteps(lib, EMPTY, steps).tests == ApplyWrites(map[], AllTestWrites(lib, steps))
  {
    hide IndexArtifact, TestWrites;
    if steps != [] {
      var n := |steps| - 1;
      TestsAreWrites(lib, steps[..n]);
      ArtifactTests(lib, IndexSteps(lib, EMPTY, steps[..n]), steps[n]);
      ApplyBoth(map[], AllTestWrites(lib, steps[..n]), TestWrites(lib, steps[n]));
    }
  }

  /** Write `i` is the last one of its test. */
  ghost predicate IsLast(ws: seq<TestWrite>, i: nat) {
    i < |ws| && forall j :: i < j < |ws| ==> ws[j].id != ws[i].id
  }

  lemma {:induction false} WritesLast(ws: seq<TestWrite>, id: string)
    ensures id in ApplyWrites(map[], ws) <==> exists i: nat :: IsLast(ws, i) && ws[i].id == id
    ensures forall i: nat :: IsLast(ws, i) && ws[i].id == id ==> Lookup(ApplyWrites(map[], ws), id) == Some(ws[i].row)
  {
    if ws != [] {
      var n := |ws| - 1;
      WritesLast(ws[..n], id);
      if ws[n].id == id {
        assert IsLast(ws, n);
        assert forall i: nat :: IsLast(ws, i) && ws[i].id == id ==> i == n;
      } else {
        forall i: nat | i < n && ws[i].id == id ensures IsLast(ws, i) <==> IsLast(ws[..n], i) {
          assert forall j :: 0 <= j < n ==> ws[..n][j] == ws[j];
        }
        if id in ApplyWrites(map[], ws) {
          var i: nat :| IsLast(ws[..n], i) && ws[..n][i].id == id;
          assert IsLast(ws, i);
        }
        if i: nat :| IsLast(ws, i) && ws[i].id == id {
          assert IsLast(ws[..n], i) && ws[..n][i].id == id;
        }
      }
    }
  }

  /** A test row of the index is the last row written for its id, and every last row is there. */
  lemma TestsAreLastWrites(lib: Library, steps: seq<Step>, id: string)
    ensures var d, ws := IndexSteps(lib, EMPTY, steps), AllTestWrites(lib, steps);
      && (id in d.tests <==> exists i: nat :: IsLast(ws, i) && ws[i].id == id)
      && forall i: nat :: IsLast(ws, i) && ws[i].id == id ==> Lookup(d.tests, id) == Some(ws[i].row)
  {
    TestsAreWrites(lib, steps);
    WritesLast(AllTestWrites(lib, steps), id);
  }

  ghost predicate HoldsFailingTest(d: Db, runId: string) {
    exists t :: t in d.tests && d.tests[t].runId == runId && d.tests[t].status == "fail"
  }

  /** Some test of the run failed when it was last written. */
  ghost predicate LastWriteFails(ws: seq<TestWrite>, runId: string) {
    exists i: nat :: IsLast(ws, i) && ws[i].row.runId == runId && ws[i].row.status == "fail"
  }

  /** A run still holds a failing test row exactly when the last write of one of its tests failed. */
  lemma FailingRowExact(lib: Library, steps: seq<Step>, runId: string)
    ensures HoldsFailingTest(IndexSteps(lib, EMPTY, steps), runId) <==> LastWriteFails(AllTestWrites(lib, steps), runId)
  {
    TestsAreWrites(lib, steps);
    FailingWrites(IndexSteps(lib, EMPTY, steps), AllTestWrites(lib, steps), runId);
  }

  lemma FailingWrites(d: Db, ws: seq<TestWrite>, runId: string)
    requires d.tests == ApplyWrites(map[], ws)
    ensures HoldsFailingTest(d, runId) <==> LastWriteFails(ws, runId)
  {
    if HoldsFailingTest(d, runId) {
      var t :| t in d.tests && d.tests[t].runId == runId && d.tests[t].status == "fail";
      WritesLast(ws, t);
      var i: nat :| IsLast(ws, i) && ws[i].id == t;
      assert ws[i].row == d.tests[t];
    }
    if LastWriteFails(ws, runId) {
      var i: nat :| IsLast(ws, i) && ws[i].row.runId == runId && ws[i].row.status == "fail";
      WritesLast(ws, ws[i].id);
      assert Lookup(d.tests, ws[i].id) == Some(ws[i].row);
    }
  }
}
