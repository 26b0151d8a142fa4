/** The difference between two runs of an index built from artifacts. */
module IndexDiff {
  import opened Common
  import opened Tables
  import opened StoreModel
  import opened IndexingModel
  import opened IndexInvariants
  import opened IndexHistory
  import opened RunDiff
  import opened Ids
  import RunHistory

  /** Hashes are free of colons, and no file is both a log and a result file. */
  ghost predicate FilesApart(steps: seq<Step>) {
    && (forall i :: 0 <= i < |steps| ==> PlainHash(steps[i].artifact))
    && forall i, j :: 0 <= i < |steps| && 0 <= j < |steps| ==> DifferentFiles(steps[i].artifact, steps[j].artifact)
  }

  predicate PlainHash(a: Artifact) {
    && (a.UvmArtifact? ==> ':' !in a.log.location.hash)
    && (a.JunitArtifact? ==> ':' !in a.junit.location.hash)
  }

  predicate DifferentFiles(a: Artifact, b: Artifact) {
    a.UvmArtifact? && b.JunitArtifact? ==> a.log.location.path != b.junit.location.path
  }

  /** The kind of artifact that files tests under this run. */
  ghost predicate Origin(lib: Library, a: Artifact, runId: string, framework: string) {
    || (a.UvmArtifact? && framework == "uvm" && runId == RunIdOf(lib, a.log.location, false))
    || (a.JunitArtifact? && framework == "cocotb" && runId == RunIdOf(lib, a.junit.location, true))
  }

  lemma StepOrigin(lib: Library, step: Step, k: nat)
    requires k < |TestWrites(lib, step)|
    ensures var row := TestWrites(lib, step)[k].row; Origin(lib, step.artifact, row.runId, row.framework)
  {
    hide RunIdOf, TestIdOf;
  }

  lemma {:induction false} WriteOrigin(lib: Library, steps: seq<Step>, k: nat)
    requires k < |AllTestWrites(lib, steps)|
    ensures var row := AllTestWrites(lib, steps)[k].row;
      exists i :: 0 <= i < |steps| && Origin(lib, steps[i].artifact, row.runId, row.framework)
  {
    hide TestWrites, Origin;
    var n := |steps| - 1;
    var front := AllTestWrites(lib, steps[..n]);
    if k < |front| {
      WriteOrigin(lib, steps[..n], k);
      assert forall i :: 0 <= i < n ==> steps[..n][i] == steps[i];
    } else {
      StepOrigin(lib, steps[n], k - |front|);
    }
  }

  lemma TestOrigin(lib: Library, steps: seq<Step>, t: string)
    requires t in IndexSteps(lib, EMPTY, steps).tests
    ensures var row := IndexSteps(lib, EMPTY, steps).tests[t];
      exists i :: 0 <= i < |steps| && Origin(lib, steps[i].artifact, row.runId, row.framework)
  {
    hide Origin, IndexSteps;
    var ws := AllTestWrites(lib, steps);
    TestsAreWrites(lib, steps);
    WritesLast(ws, t);
    var k: nat :| IsLast(ws, k) && ws[k].id == t;
    WriteOrigin(lib, steps, k);
  }

  /** A log and a result file that share a run are one file. */
  lemma SharedRunOneFile(lib: Library, a: Artifact, b: Artifact, runId: string)
    requires LibraryOk(lib) && PlainHash(a) && PlainHash(b)
    requires Origin(lib, a, runId, "uvm") && Origin(lib, b, runId, "cocotb")
    ensures a.log.location.path == b.junit.location.path
  {
    var k, l := a.log.location, b.junit.location;
    var x, y := FileEntry(k.path, k.hash), FileEntry(l.path, l.hash);
    var complete := Given(l.ciSystem) && Given(l.ciBuildId);
    var input := RunInputOf(
      l.suite, l.ciSystem, l.ciBuildId, l.ciJobUrl, if complete then [] else [y], lib.normalizeUrl);
    assert NoCollision(lib, RunId(FromManifest(Normalize(k.suite, false), ManifestText([x]))), RunId(input.value));
    SingletonIdentity(x, y);
  }

  lemma OneFramework(lib: Library, steps: seq<Step>, s: string, t: string)
    requires LibraryOk(lib) && FilesApart(steps)
    requires var tests := IndexSteps(lib, EMPTY, steps).tests;
      s in tests && t in tests && tests[s].runId == tests[t].runId
    ensures var tests := IndexSteps(lib, EMPTY, steps).tests; tests[s].framework == tests[t].framework
  {
    hide Origin, IndexSteps;
    var tests := IndexSteps(lib, EMPTY, steps).tests;
    TestOrigin(lib, steps, s);
    TestOrigin(lib, steps, t);
    var i :| 0 <= i < |steps| && Origin(lib, steps[i].artifact, tests[s].runId, tests[s].framework);
    var j :| 0 <= j < |steps| && Origin(lib, steps[j].artifact, tests[t].runId, tests[t].framework);
    TwoOrigins(lib, steps[i].artifact, steps[j].artifact, tests[s].runId, tests[s].framework, tests[t].framework);
  }

  lemma TwoOrigins(lib: Library, a: Artifact, b: Artifact, runId: string, f: string, g: string)
    requires LibraryOk(lib) && PlainHash(a) && PlainHash(b) && DifferentFiles(a, b) && DifferentFiles(b, a)
    requires Origin(lib, a, runId, f) && Origin(lib, b, runId, g)
    ensures f == g
  {
    hide RunIdOf, PlainHash, LibraryOk;
    if f == "uvm" && g == "cocotb" { SharedRunOneFile(lib, a, b, runId); }
    if f == "cocotb" && g == "uvm" { SharedRunOneFile(lib, b, a, runId); }
  }

  /** Within a run a name stands for one test. */
  lemma NamesUnique(lib: Library, steps: seq<Step>, s: string, t: string)
    requires LibraryOk(lib) && FilesApart(steps)
    requires var tests := IndexSteps(lib, EMPTY, steps).tests;
      s in tests && t in tests && tests[s].runId == tests[t].runId && tests[s].name == tests[t].name
    ensures s == t
  {
    hide IndexSteps;
    OneFramework(lib, steps, s, t);
    ReachableOneRowPerTest(lib, steps);
  }

  /** The table says of every test of the run what its row says, and of nothing else. */
  ghost predicate StatusTable(d: Db, runId: string, m: Statuses) {
    && (forall t :: t in TestsOf(d, runId) ==> Lookup(m, d.tests[t].name) == Some(d.tests[t].status))
    && forall name :: name in m ==> exists t :: t in TestsOf(d, runId) && d.tests[t].name == name
  }

  lemma {:induction false} ByNameMeaning(rows: seq<Test>, name: string)
    ensures name in ByName(rows) <==> exists i :: 0 <= i < |rows| && rows[i].name == name
    ensures name in ByName(rows) ==>
      exists i :: 0 <= i < |rows| && rows[i].name == name && rows[i].status == ByName(rows)[name]
  {
    if rows != [] {
      var n := |rows| - 1;
      ByNameMeaning(rows[..n], name);
      if name in ByName(rows[..n]) {
        var i :| 0 <= i < n && rows[..n][i].name == name && rows[..n][i].status == ByName(rows[..n])[name];
        assert rows[i].name == name;
      }
      if rows[n].name != name && name in ByName(rows) {
        assert name in ByName(rows[..n]);
      }
    }
  }

  /** With unique names and within the limit, naming the rows loses nothing. */
  lemma NamingIsLossless(d: Db, runId: string)
    requires |TestsOf(d, runId)| <= TEST_LIMIT && UniqueNames(d, runId)
    ensures StatusTable(d, runId, StatusesOf(d, runId))
  {
    hide TestRows;
    var rows, m := TestRows(d, runId), StatusesOf(d, runId);
    TestRowsMeaning(d, runId);
    forall t | t in TestsOf(d, runId) ensures Lookup(m, d.tests[t].name) == Some(d.tests[t].status) {
      var name := d.tests[t].name;
      ByNameMeaning(rows, name);
      var k :| 0 <= k < |rows| && rows[k] == d.tests[t];
      assert name in m;
      var i :| 0 <= i < |rows| && rows[i].name == name && rows[i].status == m[name];
      var u :| u in TestsOf(d, runId) && d.tests[u] == rows[i];
    }
    forall name | name in m ensures exists t :: t in TestsOf(d, runId) && d.tests[t].name == name {
      ByNameMeaning(rows, name);
      var i :| 0 <= i < |rows| && rows[i].name == name;
      var u :| u in TestsOf(d, runId) && d.tests[u] == rows[i];
    }
  }

  lemma {:induction false} ByNameCard(rows: seq<Test>)
    ensures |ByName(rows).Keys| <= |rows|
  {
    if rows != [] {
      var n := |rows| - 1;
      var front := ByName(rows[..n]);
      ByNameCard(rows[..n]);
      assert ByName(rows).Keys == front.Keys + {rows[n].name};
    }
  }

  function NameIn(d: Db): string -> string { (t: string) => if t in d.tests then d.tests[t].name else "" }

  ghost predicate UniqueNames(d: Db, runId: string) {
    forall s, t ::
      s in TestsOf(d, runId) && t in TestsOf(d, runId) && d.tests[s].name == d.tests[t].name ==> s == t
  }

  /** With unique names the table of a run says what its tests say exactly when they are within the limit. */
  lemma TableExact(d: Db, runId: string)
    requires UniqueNames(d, runId)
    ensures StatusTable(d, runId, StatusesOf(d, runId)) <==> |TestsOf(d, runId)| <= TEST_LIMIT
  {
    hide TestIds;
    var m := StatusesOf(d, runId);
    if |TestsOf(d, runId)| <= TEST_LIMIT { NamingIsLossless(d, runId); }
    if StatusTable(d, runId, m) {
      ByNameCard(TestRows(d, runId));
      TableCard(d, runId, m);
    }
  }

  /** What the table does say is right, with or without the limit. */
  lemma TableSound(d: Db, runId: string)
    requires UniqueNames(d, runId)
    ensures forall t :: t in TestsOf(d, runId) && d.tests[t].name in StatusesOf(d, runId) ==>
      StatusesOf(d, runId)[d.tests[t].name] == d.tests[t].status
    ensures forall name :: name in StatusesOf(d, runId) ==>
      exists t :: t in TestsOf(d, runId) && d.tests[t].name == name
  {
    hide TestRows;
    var rows, m := TestRows(d, runId), StatusesOf(d, runId);
    TestRowsMeaning(d, runId);
    forall name | name in m
      ensures exists t :: t in TestsOf(d, runId) && d.tests[t].name == name && d.tests[t].status == m[name]
    {
      ByNameMeaning(rows, name);
      var i :| 0 <= i < |rows| && rows[i].name == name && rows[i].status == m[name];
      var u :| u in TestsOf(d, runId) && d.tests[u] == rows[i];
    }
  }

  /** Past the limit the table misses some test altogether. */
  lemma MissedTest(d: Db, runId: string)
    requires UniqueNames(d, runId) && |TestsOf(d, runId)| > TEST_LIMIT
    ensures exists t :: t in TestsOf(d, runId) && d.tests[t].name !in StatusesOf(d, runId)
  {
    hide StatusesOf;
    TableSound(d, runId);
    TableExact(d, runId);
  }

  lemma NoTestsNoTable(d: Db, runId: string)
    requires TestsOf(d, runId) == {}
    ensures StatusesOf(d, runId) == map[]
  {
    hide TestIds;
    assert |TestIds(d, runId)| == 0;
    TakeMembers(TestIds(d, runId), TEST_LIMIT);
    assert |TestRows(d, runId)| == 0;
  }

  lemma TableCard(d: Db, runId: string, m: Statuses)
    requires UniqueNames(d, runId) && StatusTable(d, runId, m)
    ensures |TestsOf(d, runId)| == |m.Keys|
  {
    forall t | t in TestsOf(d, runId) ensures NameIn(d)(t) in m.Keys {
      assert Lookup(m, d.tests[t].name).Some?;
    }
    BijectionCard(TestsOf(d, runId), m.Keys, NameIn(d));
  }

  /** Indexed runs have ids. */
  lemma RunIdGiven(lib: Library, steps: seq<Step>, runId: string)
    requires LibraryOk(lib) && runId in IndexSteps(lib, EMPTY, steps).runs
    ensures runId != ""
  {
    hide IndexSteps;
    RunHistory.RunSummarizesReports(lib, steps, runId);
    RunHistory.ReportsExist(lib, steps, runId);
    if i :| 0 <= i < |steps| && RunHistory.ResultOf(lib, steps[i].artifact, runId) {
      IdGiven(lib, steps[i].artifact, runId);
    } else {
      var i :| 0 <= i < |steps| && RunHistory.OwnCoverage(lib, steps, runId, i);
      DigestGiven(lib, steps[i].artifact.report.location, true);
    }
  }

  lemma IdGiven(lib: Library, a: Artifact, runId: string)
    requires LibraryOk(lib) && RunHistory.ResultOf(lib, a, runId)
    ensures runId != ""
  {
    if a.UvmArtifact? { DigestGiven(lib, a.log.location, false); } else { DigestGiven(lib, a.junit.location, true); }
  }

  lemma DigestGiven(lib: Library, l: Location, useCi: bool)
    requires LibraryOk(lib)
    ensures RunIdOf(lib, l, useCi) != ""
  {
    forall input ensures lib.digest(input) != "" { assert NotEmpty(lib, input); }
  }

  lemma NamesOfRun(lib: Library, steps: seq<Step>, runId: string)
    requires LibraryOk(lib) && FilesApart(steps) && runId in IndexSteps(lib, EMPTY, steps).runs
    ensures UniqueNames(IndexSteps(lib, EMPTY, steps), runId)
  {
    hide IndexSteps, FilesApart, LibraryOk;
    RunIdGiven(lib, steps, runId);
    var d := IndexSteps(lib, EMPTY, steps);
    forall s, t | s in TestsOf(d, runId) && t in TestsOf(d, runId) && d.tests[s].name == d.tests[t].name
      ensures s == t
    {
      NamesUnique(lib, steps, s, t);
    }
  }

  /**
   Between two runs of an index the test changes are a minimal patch from the one's status table to
   the other's. A table says what the tests of its run say exactly when they are within the limit.
   */
  lemma IndexDiffIsPatch(lib: Library, steps: seq<Step>, baseId: string, compareId: string)
    requires LibraryOk(lib) && FilesApart(steps)
    requires var runs := IndexSteps(lib, EMPTY, steps).runs; baseId in runs && compareId in runs
    ensures var d := IndexSteps(lib, EMPTY, steps);
      var base, compare := StatusesOf(d, baseId), StatusesOf(d, compareId);
      && ApplyAll(base, Changes(base, compare)) == compare
      && (forall name :: (exists c :: c in Changes(base, compare) && c.name == name)
            <==> Lookup(base, name) != Lookup(compare, name))
      && (StatusTable(d, baseId, base) <==> |TestsOf(d, baseId)| <= TEST_LIMIT)
      && (StatusTable(d, compareId, compare) <==> |TestsOf(d, compareId)| <= TEST_LIMIT)
  {
    hide IndexSteps, FilesApart, LibraryOk, StatusTable, StatusesOf, Changes, ApplyAll, UniqueNames;
    var d := IndexSteps(lib, EMPTY, steps);
    var base, compare := StatusesOf(d, baseId), StatusesOf(d, compareId);
    NamesOfRun(lib, steps, baseId);
    NamesOfRun(lib, steps, compareId);
    TableExact(d, baseId);
    TableExact(d, compareId);
    DiffIsPatch(base, compare);
    forall name ensures (exists c :: c in Changes(base, compare) && c.name == name)
      <==> Lookup(base, name) != Lookup(compare, name)
    {
      DiffIsMinimal(base, compare, name);
    }
  }
}
