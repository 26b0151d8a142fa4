/** Indexes of logs with one result each: what they hold, and what the divergence analysis sees. */
module IndexLogs {
  import opened Common
  import opened Tables
  import opened StoreModel
  import opened IndexingModel
  import opened IndexInvariants
  import opened IndexHistory
  import opened CrossSim
  import opened Ids
  import PythonText

  const SOME_FAILURE := ParsedFailure(None, None, "mismatch", "mismatch", [], None, None, None, [])

  datatype Outcome = Outcome(path: string, suite: string, name: string, vendor: Option<string>, fails: bool, at: string)

  function LogOf(o: Outcome): UvmLog {
    UvmLog(Location(o.path, "0", true, o.suite, None, None, None), Some(ParsedTest(o.name, None, None, o.vendor)), None,
           if o.fails then [SOME_FAILURE] else [], [])
  }

  function StepsOf(os: seq<Outcome>): (r: seq<Step>)
    ensures |r| == |os| && forall i :: 0 <= i < |os| ==> r[i] == Step(os[i].at, UvmArtifact(LogOf(os[i])))
  {
    seq(|os|, i requires 0 <= i < |os| => Step(os[i].at, UvmArtifact(LogOf(os[i]))))
  }

  function RunOf(lib: Library, o: Outcome): string { RunIdOf(lib, LogOf(o).location, false) }

  function TestOf(lib: Library, o: Outcome): string { TestIdOf(lib, RunOf(lib, o), "uvm", o.name) }

  function RowOf(lib: Library, o: Outcome): Test {
    Test(RunOf(lib, o), "uvm", o.name, None, Verdict(o), None, o.vendor, None, o.at, lib.epochMs(o.at))
  }

  function Verdict(o: Outcome): string { if o.fails then "fail" else "pass" }

  ghost predicate DistinctPaths(os: seq<Outcome>) {
    forall i, j :: 0 <= i < j < |os| ==> os[i].path != os[j].path
  }

  /** The index holds exactly these results, each in a run of its own. */
  ghost predicate Holds(lib: Library, d: Db, os: seq<Outcome>) {
    && (forall i :: 0 <= i < |os| ==> HoldsOne(lib, d, os[i]))
    && forall t :: t in d.tests ==> exists i :: 0 <= i < |os| && TestOf(lib, os[i]) == t
  }

  ghost predicate HoldsOne(lib: Library, d: Db, o: Outcome) {
    && Lookup(d.tests, TestOf(lib, o)) == Some(RowOf(lib, o))
    && RunOf(lib, o) in d.runs && d.runs[RunOf(lib, o)].suite == o.suite
  }

  lemma RunsApart(lib: Library, o: Outcome, p: Outcome)
    requires LibraryOk(lib) && RunOf(lib, o) == RunOf(lib, p)
    ensures o.path == p.path
  {
    var x, y := FileEntry(o.path, "0"), FileEntry(p.path, "0");
    assert NoCollision(lib, RunId(FromManifest(Normalize(o.suite, false), ManifestText([x]))),
      RunId(FromManifest(Normalize(p.suite, false), ManifestText([y]))));
    SingletonIdentity(x, y);
  }

  lemma TestsApart(lib: Library, o: Outcome, p: Outcome)
    requires LibraryOk(lib) && TestOf(lib, o) == TestOf(lib, p)
    ensures o.path == p.path
  {
    assert NoCollision(lib, TestId(RunOf(lib, o), Normalize("uvm", false), Normalize(o.name, true)),
      TestId(RunOf(lib, p), Normalize("uvm", false), Normalize(p.name, true)));
    RunsApart(lib, o, p);
  }

  lemma OneMoreLog(lib: Library, d: Db, o: Outcome)
    ensures var e := IndexArtifact(lib, d, Step(o.at, UvmArtifact(LogOf(o))));
      && e.tests == d.tests[TestOf(lib, o) := RowOf(lib, o)]
      && HoldsOne(lib, e, o)
      && e.runs.Keys == d.runs.Keys + {RunOf(lib, o)}
      && forall r :: r in d.runs && r != RunOf(lib, o) ==> e.runs[r] == d.runs[r]
  {
    UvmRuns(lib, d, o.at, LogOf(o));
    UvmTests(lib, d, o.at, LogOf(o));
    var w := TestWrite(TestOf(lib, o), RowOf(lib, o));
    assert UvmWrites(lib, o.at, LogOf(o)) == [w];
    assert [w][..0] == [];
  }

  lemma OneMoreHolds(lib: Library, d: Db, e: Db, os: seq<Outcome>, o: Outcome)
    requires LibraryOk(lib) && Holds(lib, d, os) && DistinctPaths(os + [o]) && HoldsOne(lib, e, o)
    requires e.tests == d.tests[TestOf(lib, o) := RowOf(lib, o)]
    requires e.runs.Keys == d.runs.Keys + {RunOf(lib, o)}
    requires forall r :: r in d.runs && r != RunOf(lib, o) ==> e.runs[r] == d.runs[r]
    ensures Holds(lib, e, os + [o])
  {
    hide TestOf, RunOf, RowOf;
    var all := os + [o];
    forall i | 0 <= i < |all| ensures HoldsOne(lib, e, all[i]) {
      if i < |os| {
        assert HoldsOne(lib, d, os[i]) && all[|os|].path != all[i].path;
        if TestOf(lib, os[i]) == TestOf(lib, o) { TestsApart(lib, os[i], o); }
        if RunOf(lib, os[i]) == RunOf(lib, o) { RunsApart(lib, os[i], o); }
      }
    }
    forall t | t in e.tests ensures exists i :: 0 <= i < |all| && TestOf(lib, all[i]) == t {
      if t == TestOf(lib, o) {
        assert all[|os|] == o;
      } else {
        var i :| 0 <= i < |os| && TestOf(lib, os[i]) == t;
        assert all[i] == os[i];
      }
    }
  }

  lemma StepsSnoc(os: seq<Outcome>)
    requires os != []
    ensures var n := |os| - 1;
      StepsOf(os)[..n] == StepsOf(os[..n]) && StepsOf(os)[n] == Step(os[n].at, UvmArtifact(LogOf(os[n])))
  {
  }

  /** Indexing the logs gives an index that holds exactly their results. */
  lemma {:induction false} LogsIndexed(lib: Library, os: seq<Outcome>)
    requires LibraryOk(lib) && DistinctPaths(os)
    ensures Holds(lib, IndexSteps(lib, EMPTY, StepsOf(os)), os)
  {
    hide IndexArtifact, Holds, HoldsOne, StepsOf, LogOf, TestOf, RowOf, RunOf, LibraryOk;
    if os == [] {
      NothingHeld(lib);
    } else {
      var n := |os| - 1;
      LogsIndexed(lib, os[..n]);
      StepsSnoc(os);
      assert os[..n] + [os[n]] == os;
      var d := IndexSteps(lib, EMPTY, StepsOf(os[..n]));
      OneMoreLog(lib, d, os[n]);
      OneMoreHolds(lib, d, IndexArtifact(lib, d, Step(os[n].at, UvmArtifact(LogOf(os[n])))), os[..n], os[n]);
    }
  }

  lemma NothingHeld(lib: Library)
    ensures Holds(lib, EMPTY, [])
  {
  }

  // ---- what the divergence analysis makes of them ----

  /** One result for each test and simulator, in suites that the prefix matches. */
  ghost predicate OneEach(os: seq<Outcome>, prefix: string) {
    && (forall i :: 0 <= i < |os| ==> Like(os[i].suite, prefix + "%"))
    && forall i, j :: 0 <= i < j < |os| ==> CohortFor(os[i]) != CohortFor(os[j]) || os[i].vendor != os[j].vendor
  }

  function CohortFor(o: Outcome): Cohort { Cohort(o.suite, o.name, "uvm", "") }

  lemma HeldFacts(lib: Library, d: Db, o: Outcome)
    requires HoldsOne(lib, d, o)
    ensures var t := TestOf(lib, o);
      && t in d.tests && Joined(d, t) && CohortOf(d, t) == CohortFor(o) && VendorOf(d, t) == o.vendor
      && StatusOf(d, t) == Verdict(o)
      && d.tests[t].runId == RunOf(lib, o) && KeyOf(d, t) == TestKey(o.name, "uvm", "")
  {
  }

  /** Then every result is the latest of its kind. */
  lemma OutcomeFacts(lib: Library, d: Db, os: seq<Outcome>, prefix: string, i: nat)
    requires Holds(lib, d, os) && OneEach(os, prefix) && i < |os|
    ensures var t := TestOf(lib, os[i]);
      && Latest(d, Some(prefix), t) && t in d.tests && CohortOf(d, t) == CohortFor(os[i])
      && VendorOf(d, t) == os[i].vendor && StatusOf(d, t) == Verdict(os[i])
  {
    hide TestOf, RunOf, RowOf, HoldsOne, CohortOf, VendorOf, StatusOf, Newer, CohortFor;
    var t := TestOf(lib, os[i]);
    HeldFacts(lib, d, os[i]);
    CohortSuite(os[i]);
    assert InScope(d, Some(prefix), t);
    forall u | InScope(d, Some(prefix), u) && SamePartition(d, t, u) ensures u == t {
      var j :| 0 <= j < |os| && TestOf(lib, os[j]) == u;
      HeldFacts(lib, d, os[j]);
      assert CohortFor(os[i]) == CohortFor(os[j]) && os[i].vendor == os[j].vendor;
    }
  }

  lemma CohortSuite(o: Outcome)
    ensures CohortFor(o).suite == o.suite
  {
  }

  /** The simulators with a verdict on a cohort are those of its results with that verdict. */
  ghost function Vendors(os: seq<Outcome>, k: Cohort, status: string): set<string> {
    set i | 0 <= i < |os| && CohortFor(os[i]) == k && os[i].vendor.Some? && Verdict(os[i]) == status
      :: os[i].vendor.value
  }

  lemma SimsAreVendors(lib: Library, d: Db, os: seq<Outcome>, prefix: string, k: Cohort, status: string)
    requires Holds(lib, d, os) && OneEach(os, prefix)
    ensures Sims(d, Some(prefix), k, status) == Vendors(os, k, status)
  {
    hide TestOf, RunOf, RowOf, HoldsOne, Latest, CohortOf, VendorOf, StatusOf, Verdict, CohortFor;
    forall v ensures v in Sims(d, Some(prefix), k, status) <==> v in Vendors(os, k, status) {
      if v in Sims(d, Some(prefix), k, status) {
        var t :| t in d.tests && Latest(d, Some(prefix), t) && CohortOf(d, t) == k
          && VendorOf(d, t) == Some(v) && StatusOf(d, t) == status;
        var i :| 0 <= i < |os| && TestOf(lib, os[i]) == t;
        OutcomeFacts(lib, d, os, prefix, i);
      }
      if v in Vendors(os, k, status) {
        var i :| 0 <= i < |os| && CohortFor(os[i]) == k && os[i].vendor == Some(v) && Verdict(os[i]) == status;
        OutcomeFacts(lib, d, os, prefix, i);
      }
    }
  }

  /** Every divergent cohort is that of some result. */
  lemma CohortsAreHeld(lib: Library, d: Db, os: seq<Outcome>, prefix: string, k: Cohort)
    requires Holds(lib, d, os) && k in DivergentCohorts(d, Some(prefix))
    ensures exists i :: 0 <= i < |os| && CohortFor(os[i]) == k
  {
    hide TestOf, RunOf, RowOf, HoldsOne, Latest, CohortOf, CohortFor;
    var p :| p in Divergence(d, Some(prefix)) && PairCohort(d)(p) == k;
    assert p.0 in d.tests;
    var i :| 0 <= i < |os| && TestOf(lib, os[i]) == p.0;
    HeldFacts(lib, d, os[i]);
  }

  // ---- many simulators ----

  /** As many simulators that pass one test of a suite as fail it. */
  function Crowd(suite: string, n: nat): (os: seq<Outcome>)
    ensures |os| == 2 * n
    ensures forall i :: 0 <= i < 2 * n ==>
      os[i] == Outcome("c" + PythonText.Decimal(i), suite, "y", Some(PythonText.Decimal(i)), i >= n, "t")
  {
    seq(2 * n, i requires 0 <= i < 2 * n =>
      Outcome("c" + PythonText.Decimal(i), suite, "y", Some(PythonText.Decimal(i)), i >= n, "t"))
  }

  ghost function Decimals(from: nat, to: nat): set<string> { set i: nat | from <= i < to :: PythonText.Decimal(i) }

  lemma {:induction false} DecimalsCard(from: nat, to: nat)
    requires from <= to
    ensures |Decimals(from, to)| == to - from
  {
    if from == to {
      assert Decimals(from, to) == {};
    } else {
      DecimalsCard(from, to - 1);
      assert Decimals(from, to) == Decimals(from, to - 1) + {PythonText.Decimal(to - 1)};
      if PythonText.Decimal(to - 1) in Decimals(from, to - 1) {
        var i: nat :| from <= i < to - 1 && PythonText.Decimal(i) == PythonText.Decimal(to - 1);
        PythonText.DecimalInjective(i, to - 1);
      }
    }
  }

  lemma CrowdPaths(suite: string, n: nat)
    ensures DistinctPaths(Crowd(suite, n))
  {
    var os := Crowd(suite, n);
    forall i, j | 0 <= i < j < |os| ensures os[i].path != os[j].path {
      if os[i].path == os[j].path {
        assert os[i].path[1..] == PythonText.Decimal(i) && os[j].path[1..] == PythonText.Decimal(j);
        PythonText.DecimalInjective(i, j);
      }
    }
  }

  lemma CrowdVendors(suite: string, n: nat)
    ensures forall i, j :: 0 <= i < j < 2 * n ==> Crowd(suite, n)[i].vendor != Crowd(suite, n)[j].vendor
  {
    forall i, j | 0 <= i < j < 2 * n ensures Crowd(suite, n)[i].vendor != Crowd(suite, n)[j].vendor {
      if PythonText.Decimal(i) == PythonText.Decimal(j) { PythonText.DecimalInjective(i, j); }
    }
  }

  /** A crowd among other results diverges in every pair of a passing and a failing simulator. */
  lemma CrowdRows(lib: Library, d: Db, suite: string, n: nat, others: seq<Outcome>, prefix: string)
    requires var os := Crowd(suite, n) + others; Holds(lib, d, os) && OneEach(os, prefix)
    requires forall i :: 0 <= i < |others| ==> others[i].suite != suite
    ensures |RowsOf(d, Some(prefix), Cohort(suite, "y", "uvm", ""))| == n * n
  {
    var os, k := Crowd(suite, n) + others, Cohort(suite, "y", "uvm", "");
    CrowdSims(suite, n, others);
    SimsAreVendors(lib, d, os, prefix, k, "pass");
    SimsAreVendors(lib, d, os, prefix, k, "fail");
    CohortRowCount(d, Some(prefix), k);
  }

  lemma CrowdSims(suite: string, n: nat, others: seq<Outcome>)
    requires forall i :: 0 <= i < |others| ==> others[i].suite != suite
    ensures var os, k := Crowd(suite, n) + others, Cohort(suite, "y", "uvm", "");
      |Vendors(os, k, "pass")| == n && |Vendors(os, k, "fail")| == n
  {
    var os, k := Crowd(suite, n) + others, Cohort(suite, "y", "uvm", "");
    assert forall i :: 2 * n <= i < |os| ==> CohortFor(os[i]) != k;
    CrowdVerdicts(suite, n, os);
    DecimalsCard(0, n);
    DecimalsCard(n, 2 * n);
  }

  lemma CrowdVerdicts(suite: string, n: nat, os: seq<Outcome>)
    requires Crowd(suite, n) <= os
    requires forall i :: 2 * n <= i < |os| ==> CohortFor(os[i]) != Cohort(suite, "y", "uvm", "")
    ensures Vendors(os, Cohort(suite, "y", "uvm", ""), "pass") == Decimals(0, n)
    ensures Vendors(os, Cohort(suite, "y", "uvm", ""), "fail") == Decimals(n, 2 * n)
  {
    var k := Cohort(suite, "y", "uvm", "");
    forall i: nat | i < 2 * n
      ensures CohortFor(os[i]) == k && os[i].vendor == Some(PythonText.Decimal(i))
      ensures Verdict(os[i]) == if i < n then "pass" else "fail"
    {
      assert os[i] == Crowd(suite, n)[i];
    }
    forall v ensures v in Vendors(os, k, "pass") <==> v in Decimals(0, n) {
      if v in Decimals(0, n) { var i: nat :| i < n && PythonText.Decimal(i) == v; assert os[i].vendor.value == v; }
    }
    forall v ensures v in Vendors(os, k, "fail") <==> v in Decimals(n, 2 * n) {
      if v in Decimals(n, 2 * n) {
        var i: nat :| n <= i < 2 * n && PythonText.Decimal(i) == v;
        assert os[i].vendor.value == v;
      }
    }
  }
}
