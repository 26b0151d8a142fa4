/** What the analyses answer for an index of logs with one result each, said of the logs alone. */
module LogAnswers {
  import opened Common
  import opened Tables
  import opened StoreModel
  import opened IndexingModel
  import opened IndexInvariants
  import opened IndexLogs
  import opened CrossSim
  import opened Ids
  import opened Health
  import FinishedIndex
  import TextOrder

  // ---- divergence ----

  /** Every log has a time, and no two of one test and simulator have the same. */
  ghost predicate Timed(lib: Library, os: seq<Outcome>) {
    && (forall i :: 0 <= i < |os| ==> lib.epochMs(os[i].at).Some?)
    && forall i, j :: 0 <= i < j < |os| && SameTest(os[i], os[j]) ==> lib.epochMs(os[i].at) != lib.epochMs(os[j].at)
  }

  predicate SameTest(o: Outcome, p: Outcome) { o.suite == p.suite && o.name == p.name && o.vendor == p.vendor }

  /** In scope, and all other results of its test and simulator are earlier. */
  ghost predicate Newest(lib: Library, os: seq<Outcome>, prefix: string, i: nat)
    requires i < |os| && Timed(lib, os)
  {
    && Like(os[i].suite, prefix + "%")
    && forall k :: 0 <= k < |os| && k != i && SameTest(os[i], os[k]) ==>
         lib.epochMs(os[k].at).value < lib.epochMs(os[i].at).value
  }

  lemma LogFacts(lib: Library, d: Db, o: Outcome)
    requires HoldsOne(lib, d, o) && lib.epochMs(o.at).Some?
    ensures var t := TestOf(lib, o);
      && t in d.tests && Joined(d, t) && CohortOf(d, t) == Cohort(o.suite, o.name, "uvm", "")
      && VendorOf(d, t) == o.vendor && StatusOf(d, t) == (if o.fails then "fail" else "pass")
      && WhenMs(d, t) == lib.epochMs(o.at)
  {
  }

  lemma ScopeOfLog(lib: Library, d: Db, o: Outcome, prefix: string)
    requires HoldsOne(lib, d, o) && lib.epochMs(o.at).Some?
    ensures InScope(d, Some(prefix), TestOf(lib, o)) <==> Like(o.suite, prefix + "%")
  {
    hide TestOf, HoldsOne, Like;
    LogFacts(lib, d, o);
    if prefix == "" {
      AnyTail(o.suite);
      assert prefix + "%" == "%";
    }
  }

  lemma NewerLog(lib: Library, d: Db, o: Outcome, p: Outcome)
    requires HoldsOne(lib, d, o) && HoldsOne(lib, d, p)
    requires lib.epochMs(o.at).Some? && lib.epochMs(p.at).Some? && lib.epochMs(o.at) != lib.epochMs(p.at)
    ensures Newer(d, TestOf(lib, o), TestOf(lib, p)) <==> lib.epochMs(p.at).value < lib.epochMs(o.at).value
    ensures SamePartition(d, TestOf(lib, o), TestOf(lib, p)) <==> SameTest(o, p)
  {
    hide TestOf, HoldsOne;
    LogFacts(lib, d, o);
    LogFacts(lib, d, p);
  }

  lemma LatestLog(lib: Library, d: Db, os: seq<Outcome>, prefix: string, i: nat)
    requires LibraryOk(lib) && Holds(lib, d, os) && DistinctPaths(os) && Timed(lib, os) && i < |os|
    ensures Latest(d, Some(prefix), TestOf(lib, os[i])) <==> Newest(lib, os, prefix, i)
  {
    hide TestOf, HoldsOne, InScope, SamePartition, Newer, LibraryOk;
    var t := TestOf(lib, os[i]);
    ScopeOfLog(lib, d, os[i], prefix);
    forall k | 0 <= k < |os| && k != i
      ensures var u := TestOf(lib, os[k]);
        && u != t
        && (InScope(d, Some(prefix), u) <==> Like(os[k].suite, prefix + "%"))
        && (SamePartition(d, t, u) <==> SameTest(os[i], os[k]))
        && (SameTest(os[i], os[k]) ==>
              (Newer(d, t, u) <==> lib.epochMs(os[k].at).value < lib.epochMs(os[i].at).value))
    {
      ScopeOfLog(lib, d, os[k], prefix);
      if TestOf(lib, os[k]) == t { TestsApart(lib, os[i], os[k]); }
      PartitionOfLogs(lib, d, os[i], os[k]);
      if SameTest(os[i], os[k]) { NewerLog(lib, d, os[i], os[k]); }
    }
    if Newest(lib, os, prefix, i) {
      forall u | InScope(d, Some(prefix), u) && SamePartition(d, t, u) && u != t ensures Newer(d, t, u) {
        ScopeIsThere(d, Some(prefix), u);
        var k :| 0 <= k < |os| && TestOf(lib, os[k]) == u;
      }
    }
  }

  lemma ScopeIsThere(d: Db, prefix: Option<string>, t: string)
    requires InScope(d, prefix, t)
    ensures t in d.tests
  {
  }

  lemma PartitionOfLogs(lib: Library, d: Db, o: Outcome, p: Outcome)
    requires HoldsOne(lib, d, o) && HoldsOne(lib, d, p) && lib.epochMs(o.at).Some? && lib.epochMs(p.at).Some?
    ensures SamePartition(d, TestOf(lib, o), TestOf(lib, p)) <==> SameTest(o, p)
  {
    hide TestOf, HoldsOne;
    LogFacts(lib, d, o);
    LogFacts(lib, d, p);
  }

  /** The rows of the answer, said of the logs. */
  ghost predicate LogsDiffer(lib: Library, os: seq<Outcome>, prefix: string, i: nat, j: nat)
    requires i < |os| && j < |os| && Timed(lib, os)
  {
    && Newest(lib, os, prefix, i) && Newest(lib, os, prefix, j)
    && os[i].suite == os[j].suite && os[i].name == os[j].name && os[i].fails != os[j].fails
    && os[i].vendor.Some? && os[j].vendor.Some? && TextOrder.Lt(os[i].vendor.value, os[j].vendor.value)
  }

  /**
   The answer for indexed logs: two results of a test form a row exactly when each is the newest of
   its simulator and one passes where the other fails, and every row is such a pair.
   */
  lemma LogsDiverge(lib: Library, os: seq<Outcome>, prefix: string)
    requires LibraryOk(lib) && DistinctPaths(os) && Timed(lib, os)
    ensures var rows := Divergence(IndexSteps(lib, EMPTY, StepsOf(os)), Some(prefix));
      && (forall i, j :: 0 <= i < |os| && 0 <= j < |os| ==>
            ((TestOf(lib, os[i]), TestOf(lib, os[j])) in rows <==> LogsDiffer(lib, os, prefix, i, j)))
      && forall p :: p in rows ==>
           exists i, j :: 0 <= i < |os| && 0 <= j < |os| && p == (TestOf(lib, os[i]), TestOf(lib, os[j]))
  {
    hide IndexSteps, Holds, HoldsOne, TestOf, RowOf, RunOf, LibraryOk, Latest, Newest, CohortOf, VendorOf, StatusOf;
    hide StepsOf, LogOf;
    var d := IndexSteps(lib, EMPTY, StepsOf(os));
    LogsIndexed(lib, os);
    forall i, j | 0 <= i < |os| && 0 <= j < |os|
      ensures (TestOf(lib, os[i]), TestOf(lib, os[j])) in Divergence(d, Some(prefix))
        <==> LogsDiffer(lib, os, prefix, i, j)
    {
      PairOfLogs(lib, d, os, prefix, i, j);
    }
    forall p | p in Divergence(d, Some(prefix))
      ensures exists i, j :: 0 <= i < |os| && 0 <= j < |os| && p == (TestOf(lib, os[i]), TestOf(lib, os[j]))
    {
      HeldTest(lib, d, os, p.0);
      HeldTest(lib, d, os, p.1);
      var i :| 0 <= i < |os| && TestOf(lib, os[i]) == p.0;
      var j :| 0 <= j < |os| && TestOf(lib, os[j]) == p.1;
      assert p == (TestOf(lib, os[i]), TestOf(lib, os[j]));
    }
  }

  lemma HeldTest(lib: Library, d: Db, os: seq<Outcome>, t: string)
    requires Holds(lib, d, os) && t in d.tests
    ensures exists i :: 0 <= i < |os| && TestOf(lib, os[i]) == t
  {
  }

  lemma PairOfLogs(lib: Library, d: Db, os: seq<Outcome>, prefix: string, i: nat, j: nat)
    requires LibraryOk(lib) && Holds(lib, d, os) && DistinctPaths(os) && Timed(lib, os) && i < |os| && j < |os|
    ensures (TestOf(lib, os[i]), TestOf(lib, os[j])) in Divergence(d, Some(prefix))
      <==> LogsDiffer(lib, os, prefix, i, j)
  {
    hide TestOf, HoldsOne, LibraryOk, Latest, Newest, CohortOf, VendorOf, StatusOf;
    LatestLog(lib, d, os, prefix, i);
    LatestLog(lib, d, os, prefix, j);
    LogFacts(lib, d, os[i]);
    LogFacts(lib, d, os[j]);
    assert Decided(d, TestOf(lib, os[i])) && Decided(d, TestOf(lib, os[j]));
  }

  /** A test that fails on A, passes on B and, later, on A as well. */
  function Repair(first: string, later: string): seq<Outcome> {
    [ Outcome("1.log", "s", "y", Some("A"), true, first),
      Outcome("2.log", "s", "y", Some("B"), false, first),
      Outcome("3.log", "s", "y", Some("A"), false, later) ]
  }

  /** The row is there until the later pass comes in, and gone with it; an earlier pass leaves it. */
  lemma LaterPassRemovesRow(lib: Library, first: string, later: string)
    requires LibraryOk(lib) && lib.epochMs(first).Some? && lib.epochMs(later).Some?
    requires lib.epochMs(first) != lib.epochMs(later)
    ensures var os := Repair(first, later);
      var row := (TestOf(lib, os[0]), TestOf(lib, os[1]));
      && row in Divergence(IndexSteps(lib, EMPTY, StepsOf(os[..2])), Some("s"))
      && if lib.epochMs(first).value < lib.epochMs(later).value
         then Divergence(IndexSteps(lib, EMPTY, StepsOf(os)), Some("s")) == {}
         else row in Divergence(IndexSteps(lib, EMPTY, StepsOf(os)), Some("s"))
  {
    hide IndexSteps, Divergence, TestOf, StepsOf, LibraryOk, Timed, LogsDiffer, DistinctPaths, Newest;
    var os := Repair(first, later);
    RepairedLogs(lib, first, later);
    LogsDiverge(lib, os[..2], "s");
    LogsDiverge(lib, os, "s");
    assert os[..2][0] == os[0] && os[..2][1] == os[1];
  }

  lemma RepairedLogs(lib: Library, first: string, later: string)
    requires lib.epochMs(first).Some? && lib.epochMs(later).Some? && lib.epochMs(first) != lib.epochMs(later)
    ensures var os := Repair(first, later);
      && DistinctPaths(os) && DistinctPaths(os[..2]) && Timed(lib, os) && Timed(lib, os[..2])
      && LogsDiffer(lib, os[..2], "s", 0, 1)
      && if lib.epochMs(first).value < lib.epochMs(later).value
         then forall i: nat, j: nat :: i < 3 && j < 3 ==> !LogsDiffer(lib, os, "s", i, j)
         else LogsDiffer(lib, os, "s", 0, 1)
  {
    hide Like;
    var os := Repair(first, later);
    LikeOwnPrefix("s");
    assert os[..2][0] == os[0] && os[..2][1] == os[1];
    assert os[0].path == "1.log" && os[1].path == "2.log" && os[2].path == "3.log";
    assert os[0].path[0] == '1' && os[1].path[0] == '2' && os[2].path[0] == '3';
    assert SameTest(os[0], os[2]) && TextOrder.Lt("A", "B");
    if lib.epochMs(first).value < lib.epochMs(later).value {
      assert !Newest(lib, os, "s", 0);
    }
  }

  // ---- the numbers behind the health score ----

  predicate LogInScope(lib: Library, o: Outcome, suite: Option<string>, runId: Option<string>) {
    if Given(runId) then RunOf(lib, o) == runId.value else Given(suite) ==> o.suite == suite.value
  }

  ghost function LogsInScope(lib: Library, os: seq<Outcome>, suite: Option<string>, runId: Option<string>): set<int> {
    set i | 0 <= i < |os| && LogInScope(lib, os[i], suite, runId)
  }

  ghost function PassingLogs(lib: Library, os: seq<Outcome>, suite: Option<string>, runId: Option<string>): set<int> {
    set i | 0 <= i < |os| && LogInScope(lib, os[i], suite, runId) && !os[i].fails
  }

  /** Of the suite asked for, and of a test that the run asked for has as well. */
  ghost predicate InLogHistory(lib: Library, os: seq<Outcome>, suite: Option<string>, runId: Option<string>, o: Outcome)
  {
    && (Given(suite) ==> o.suite == suite.value)
    && (Given(runId) ==> exists k :: 0 <= k < |os| && RunOf(lib, os[k]) == runId.value && os[k].name == o.name)
  }

  ghost function FlakyNames(lib: Library, os: seq<Outcome>, suite: Option<string>, runId: Option<string>): set<string> {
    set i, j | 0 <= i < |os| && 0 <= j < |os|
        && InLogHistory(lib, os, suite, runId, os[i]) && InLogHistory(lib, os, suite, runId, os[j])
        && os[i].name == os[j].name && !os[i].fails && os[j].fails
      :: os[i].name
  }

  ghost function RepeatedNames(lib: Library, os: seq<Outcome>, suite: Option<string>, runId: Option<string>)
    : set<string>
  {
    set i, j | 0 <= i < |os| && 0 <= j < |os| && i != j
        && InLogHistory(lib, os, suite, runId, os[i]) && InLogHistory(lib, os, suite, runId, os[j])
        && os[i].name == os[j].name
      :: os[i].name
  }

  /** Tests with results of two simulators, each in its suite. */
  ghost function SharedTests(lib: Library, os: seq<Outcome>, suite: Option<string>, runId: Option<string>)
    : set<(string, string)>
  {
    set i, j | 0 <= i < |os| && 0 <= j < |os|
        && InLogHistory(lib, os, suite, runId, os[i]) && InLogHistory(lib, os, suite, runId, os[j])
        && os[i].suite == os[j].suite && os[i].name == os[j].name
        && os[i].vendor.Some? && os[j].vendor.Some? && os[i].vendor != os[j].vendor
      :: (os[i].suite, os[i].name)
  }

  function TestAt(lib: Library, os: seq<Outcome>): int -> string {
    (i: int) => if 0 <= i < |os| then TestOf(lib, os[i]) else ""
  }

  lemma LogScope(lib: Library, d: Db, o: Outcome, suite: Option<string>, runId: Option<string>)
    requires HoldsOne(lib, d, o)
    ensures var t := TestOf(lib, o);
      && t in d.tests && d.tests[t].status == Verdict(o)
      && (InScopeOf(d, suite, runId, d.tests[t].runId) <==> LogInScope(lib, o, suite, runId))
  {
  }

  lemma TestsOfLogs(lib: Library, d: Db, os: seq<Outcome>, suite: Option<string>, runId: Option<string>)
    requires LibraryOk(lib) && DistinctPaths(os) && Holds(lib, d, os)
    ensures |TestsInScope(d, suite, runId)| == |LogsInScope(lib, os, suite, runId)|
    ensures |PassedInScope(d, suite, runId)| == |PassingLogs(lib, os, suite, runId)|
  {
    hide TestOf, RunOf, HoldsOne, LibraryOk, LogInScope, InScopeOf;
    var logs, tests := LogsInScope(lib, os, suite, runId), TestsInScope(d, suite, runId);
    var passing, passed := PassingLogs(lib, os, suite, runId), PassedInScope(d, suite, runId);
    var f := TestAt(lib, os);
    forall i, j | 0 <= i < |os| && 0 <= j < |os| && f(i) == f(j) ensures i == j {
      TestsApart(lib, os[i], os[j]);
    }
    forall i | 0 <= i < |os| ensures i in logs <==> f(i) in tests ensures i in passing <==> f(i) in passed {
      LogScope(lib, d, os[i], suite, runId);
    }
    forall t | t in tests ensures exists i :: i in logs && f(i) == t {
      var i :| 0 <= i < |os| && TestOf(lib, os[i]) == t;
      assert i in logs && f(i) == t;
    }
    forall t | t in passed ensures exists i :: i in passing && f(i) == t {
      var i :| 0 <= i < |os| && TestOf(lib, os[i]) == t;
      assert i in passing && f(i) == t;
    }
    BijectionCard(logs, tests, f);
    BijectionCard(passing, passed, f);
  }

  lemma HistoryOfLog(
    lib: Library, d: Db, os: seq<Outcome>, suite: Option<string>, runId: Option<string>, i: nat)
    requires Holds(lib, d, os) && i < |os|
    ensures var t := TestOf(lib, os[i]);
      && t in d.tests && Joined(d, t) && d.tests[t].runId == RunOf(lib, os[i])
      && KeyOf(d, t) == TestKey(os[i].name, "uvm", "") && StatusOf(d, t) == Verdict(os[i])
      && VendorOf(d, t) == os[i].vendor && CohortOf(d, t) == Cohort(os[i].suite, os[i].name, "uvm", "")
      && (SharedWithRun(d, runId, t) && (Given(suite) ==> os[i].suite == suite.value)
          <==> InLogHistory(lib, os, suite, runId, os[i]))
      && (InHistory(d, suite, runId, t) <==> InLogHistory(lib, os, suite, runId, os[i]))
  {
    hide TestOf, RunOf, HoldsOne, KeyOf, CohortOf, VendorOf, StatusOf;
    var t := TestOf(lib, os[i]);
    HeldFacts(lib, d, os[i]);
    if Given(runId) {
      if SharedWithRun(d, runId, t) {
        var u :| u in d.tests && d.tests[u].runId == runId.value && KeyOf(d, u) == KeyOf(d, t);
        var k :| 0 <= k < |os| && TestOf(lib, os[k]) == u;
        HeldFacts(lib, d, os[k]);
        assert RunOf(lib, os[k]) == runId.value && os[k].name == os[i].name;
      }
      if k :| 0 <= k < |os| && RunOf(lib, os[k]) == runId.value && os[k].name == os[i].name {
        HeldFacts(lib, d, os[k]);
        assert d.tests[TestOf(lib, os[k])].runId == runId.value && KeyOf(d, TestOf(lib, os[k])) == KeyOf(d, t);
      }
    }
  }

  lemma FlakyLogs(lib: Library, d: Db, os: seq<Outcome>, suite: Option<string>, runId: Option<string>)
    requires Holds(lib, d, os)
    ensures |FlakyTests(d, suite, runId)| == |FlakyNames(lib, os, suite, runId)|
  {
    hide Holds, RunOf, InLogHistory, FlakyTests;
    var names, keys := FlakyNames(lib, os, suite, runId), FlakyTests(d, suite, runId);
    var f := (n: string) => TestKey(n, "uvm", "");
    forall n | n in names ensures f(n) in keys {
      var i, j :| 0 <= i < |os| && 0 <= j < |os|
        && InLogHistory(lib, os, suite, runId, os[i]) && InLogHistory(lib, os, suite, runId, os[j])
        && os[i].name == os[j].name && os[i].name == n && !os[i].fails && os[j].fails;
      FlakyPair(lib, d, os, suite, runId, i, j);
    }
    forall k | k in keys ensures exists n :: n in names && f(n) == k {
      var n := FlakyKey(lib, d, os, suite, runId, k);
      assert f(n) == k;
    }
    BijectionCard(names, keys, f);
  }

  lemma FlakyPair(
    lib: Library, d: Db, os: seq<Outcome>, suite: Option<string>, runId: Option<string>, i: nat, j: nat)
    requires Holds(lib, d, os) && i < |os| && j < |os|
    requires InLogHistory(lib, os, suite, runId, os[i]) && InLogHistory(lib, os, suite, runId, os[j])
    requires os[i].name == os[j].name && !os[i].fails && os[j].fails
    ensures TestKey(os[i].name, "uvm", "") in FlakyTests(d, suite, runId)
  {
    hide TestOf, RunOf, HoldsOne, KeyOf, CohortOf, VendorOf, StatusOf, InHistory, InLogHistory, Joined, SharedWithRun;
    HistoryOfLog(lib, d, os, suite, runId, i);
    HistoryOfLog(lib, d, os, suite, runId, j);
  }

  lemma FlakyKey(
    lib: Library, d: Db, os: seq<Outcome>, suite: Option<string>, runId: Option<string>, k: TestKey)
    returns (name: string)
    requires Holds(lib, d, os) && k in FlakyTests(d, suite, runId)
    ensures name in FlakyNames(lib, os, suite, runId) && k == TestKey(name, "uvm", "")
  {
    hide TestOf, RunOf, HoldsOne, KeyOf, CohortOf, VendorOf, StatusOf, InHistory, InLogHistory, Joined, SharedWithRun;
    var t, u :| t in d.tests && u in d.tests && InHistory(d, suite, runId, t) && InHistory(d, suite, runId, u)
      && KeyOf(d, t) == KeyOf(d, u) && KeyOf(d, t) == k && StatusOf(d, t) == "pass" && StatusOf(d, u) == "fail";
    var i :| 0 <= i < |os| && TestOf(lib, os[i]) == t;
    var j :| 0 <= j < |os| && TestOf(lib, os[j]) == u;
    HistoryOfLog(lib, d, os, suite, runId, i);
    HistoryOfLog(lib, d, os, suite, runId, j);
    name := os[i].name;
  }

  lemma RepeatedLogs(lib: Library, d: Db, os: seq<Outcome>, suite: Option<string>, runId: Option<string>)
    requires LibraryOk(lib) && DistinctPaths(os) && Holds(lib, d, os)
    ensures |RepeatedTests(d, suite, runId)| == |RepeatedNames(lib, os, suite, runId)|
  {
    hide Holds, RunOf, InLogHistory, LibraryOk, RepeatedTests;
    var names, keys := RepeatedNames(lib, os, suite, runId), RepeatedTests(d, suite, runId);
    var f := (n: string) => TestKey(n, "uvm", "");
    forall n | n in names ensures f(n) in keys {
      var i, j :| 0 <= i < |os| && 0 <= j < |os| && i != j
        && InLogHistory(lib, os, suite, runId, os[i]) && InLogHistory(lib, os, suite, runId, os[j])
        && os[i].name == os[j].name && os[i].name == n;
      RepeatedPair(lib, d, os, suite, runId, i, j);
    }
    forall k | k in keys ensures exists n :: n in names && f(n) == k {
      var n := RepeatedKey(lib, d, os, suite, runId, k);
      assert f(n) == k;
    }
    BijectionCard(names, keys, f);
  }

  lemma RepeatedPair(
    lib: Library, d: Db, os: seq<Outcome>, suite: Option<string>, runId: Option<string>, i: nat, j: nat)
    requires LibraryOk(lib) && DistinctPaths(os) && Holds(lib, d, os) && i < |os| && j < |os| && i != j
    requires InLogHistory(lib, os, suite, runId, os[i]) && InLogHistory(lib, os, suite, runId, os[j])
    requires os[i].name == os[j].name
    ensures TestKey(os[i].name, "uvm", "") in RepeatedTests(d, suite, runId)
  {
    hide TestOf, RunOf, HoldsOne, KeyOf, CohortOf, VendorOf, StatusOf, InHistory, InLogHistory, Joined, SharedWithRun;
    hide LibraryOk;
    HistoryOfLog(lib, d, os, suite, runId, i);
    HistoryOfLog(lib, d, os, suite, runId, j);
    if RunOf(lib, os[i]) == RunOf(lib, os[j]) { RunsApart(lib, os[i], os[j]); }
  }

  lemma RepeatedKey(
    lib: Library, d: Db, os: seq<Outcome>, suite: Option<string>, runId: Option<string>, k: TestKey)
    returns (name: string)
    requires Holds(lib, d, os) && k in RepeatedTests(d, suite, runId)
    ensures name in RepeatedNames(lib, os, suite, runId) && k == TestKey(name, "uvm", "")
  {
    hide TestOf, RunOf, HoldsOne, KeyOf, CohortOf, VendorOf, StatusOf, InHistory, InLogHistory, Joined, SharedWithRun;
    var t, u :| t in d.tests && u in d.tests && InHistory(d, suite, runId, t) && InHistory(d, suite, runId, u)
      && KeyOf(d, t) == KeyOf(d, u) && KeyOf(d, t) == k && d.tests[t].runId != d.tests[u].runId;
    var i :| 0 <= i < |os| && TestOf(lib, os[i]) == t;
    var j :| 0 <= j < |os| && TestOf(lib, os[j]) == u;
    HistoryOfLog(lib, d, os, suite, runId, i);
    HistoryOfLog(lib, d, os, suite, runId, j);
    name := os[i].name;
  }

  lemma SharedLogs(lib: Library, d: Db, os: seq<Outcome>, suite: Option<string>, runId: Option<string>)
    requires Holds(lib, d, os)
    ensures |MultiSimCohorts(d, suite, runId)| == |SharedTests(lib, os, suite, runId)|
  {
    hide TestOf, RunOf, HoldsOne, KeyOf, CohortOf, VendorOf, StatusOf, InLogHistory, Joined, SharedWithRun, InHistory;
    var tests, ks := SharedTests(lib, os, suite, runId), MultiSimCohorts(d, suite, runId);
    var f := (n: (string, string)) => Cohort(n.0, n.1, "uvm", "");
    forall n | n in tests ensures f(n) in ks {
      var i, j :| 0 <= i < |os| && 0 <= j < |os|
        && InLogHistory(lib, os, suite, runId, os[i]) && InLogHistory(lib, os, suite, runId, os[j])
        && os[i].suite == os[j].suite && os[i].name == os[j].name
        && os[i].vendor.Some? && os[j].vendor.Some? && os[i].vendor != os[j].vendor && n == (os[i].suite, os[i].name);
      SharedPair(lib, d, os, suite, runId, i, j);
    }
    forall k | k in ks ensures exists n :: n in tests && f(n) == k {
      MultiSimPair(lib, d, os, suite, runId, k);
    }
    BijectionCard(tests, ks, f);
  }

  lemma SharedPair(
    lib: Library, d: Db, os: seq<Outcome>, suite: Option<string>, runId: Option<string>, i: nat, j: nat)
    requires Holds(lib, d, os) && i < |os| && j < |os|
    requires InLogHistory(lib, os, suite, runId, os[i]) && InLogHistory(lib, os, suite, runId, os[j])
    requires os[i].suite == os[j].suite && os[i].name == os[j].name
    requires os[i].vendor.Some? && os[j].vendor.Some? && os[i].vendor != os[j].vendor
    ensures Cohort(os[i].suite, os[i].name, "uvm", "") in MultiSimCohorts(d, suite, runId)
  {
    hide TestOf, RunOf, HoldsOne, KeyOf, CohortOf, VendorOf, StatusOf, Joined, SharedWithRun, InHistory;
    var a, b := TestOf(lib, os[i]), TestOf(lib, os[j]);
    HistoryOfLog(lib, d, os, suite, runId, i);
    HistoryOfLog(lib, d, os, suite, runId, j);
    assert Decided(d, a) && Decided(d, b);
    assert MultiSim(d, suite, runId, CohortOf(d, a));
  }

  lemma MultiSimPair(lib: Library, d: Db, os: seq<Outcome>, suite: Option<string>, runId: Option<string>, k: Cohort)
    requires Holds(lib, d, os) && MultiSim(d, suite, runId, k)
    ensures (k.suite, k.name) in SharedTests(lib, os, suite, runId) && k == Cohort(k.suite, k.name, "uvm", "")
  {
    hide TestOf, RunOf, HoldsOne, KeyOf, CohortOf, VendorOf, StatusOf, SharedWithRun, InHistory, InLogHistory;
    var a, b :|
      && Joined(d, a) && Joined(d, b) && CohortOf(d, a) == k == CohortOf(d, b)
      && SharedWithRun(d, runId, a) && SharedWithRun(d, runId, b)
      && Decided(d, a) && Decided(d, b)
      && VendorOf(d, a).Some? && VendorOf(d, b).Some? && VendorOf(d, a) != VendorOf(d, b);
    var i :| 0 <= i < |os| && TestOf(lib, os[i]) == a;
    var j :| 0 <= j < |os| && TestOf(lib, os[j]) == b;
    HistoryOfLog(lib, d, os, suite, runId, i);
    HistoryOfLog(lib, d, os, suite, runId, j);
  }

  /** Logs bring no coverage and no assertion status. */
  lemma LogsAlone(lib: Library, os: seq<Outcome>)
    requires LibraryOk(lib)
    ensures var d := IndexSteps(lib, EMPTY, StepsOf(os)); d.coverage.rows == [] && d.sva.rows == []
  {
    hide IndexSteps, LibraryOk;
    FinishedIndex.NothingFromNothing(lib, StepsOf(os));
  }

  lemma NoCoverage(d: Db, suite: Option<string>, runId: Option<string>, round: real -> real)
    requires d.coverage.rows == [] && d.sva.rows == []
    ensures CoverageOf(d, suite, runId, round) == None
    ensures AssertionsInScope(d, suite, runId) == VacuousInScope(d, suite, runId)
      == FailingInScope(d, suite, runId) == {}
  {
    assert KindNames([]) == {} && TotalsOf([]) == map[];
    assert TextOrder.Sorted({}) == [] by { TextOrder.SortedUnique(TextOrder.Sorted({}), []); }
  }

  /**
   For indexed logs and any scope, the numbers behind the health score are the numbers of logs, of
   passing logs, of tests that both passed and failed, of tests with two logs, and of tests with two
   simulators; there is no coverage and no assertion.
   */
  lemma LogsCounted(
    lib: Library, os: seq<Outcome>, suite: Option<string>, runId: Option<string>, round: real -> real)
    requires LibraryOk(lib) && DistinctPaths(os)
    ensures var data := DataOf(IndexSteps(lib, EMPTY, StepsOf(os)), suite, runId, round);
      && data.totalTests == |LogsInScope(lib, os, suite, runId)|
      && data.passedTests == |PassingLogs(lib, os, suite, runId)|
      && data.flakyTests == |FlakyNames(lib, os, suite, runId)|
      && data.historyCohorts == |RepeatedNames(lib, os, suite, runId)|
      && data.crossSimCohorts == |SharedTests(lib, os, suite, runId)|
      && data.divergentTests == ReportedRows(IndexSteps(lib, EMPTY, StepsOf(os)), suite, 5_000)
      && data.overallCoverage == None
      && data.totalAssertions == data.vacuousAssertions == data.failingAssertions == 0
  {
    hide IndexSteps, Holds, LibraryOk, StepsOf, CoverageOf, ReportedRows;
    hide TestsInScope, PassedInScope, FlakyTests, RepeatedTests, MultiSimCohorts, AssertionsInScope;
    hide VacuousInScope, FailingInScope, LogsInScope, PassingLogs, FlakyNames, RepeatedNames, SharedTests;
    var d := IndexSteps(lib, EMPTY, StepsOf(os));
    LogsIndexed(lib, os);
    TestsOfLogs(lib, d, os, suite, runId);
    FlakyLogs(lib, d, os, suite, runId);
    RepeatedLogs(lib, d, os, suite, runId);
    SharedLogs(lib, d, os, suite, runId);
    LogsAlone(lib, os);
    NoCoverage(d, suite, runId, round);
  }
}
